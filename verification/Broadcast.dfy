/** One gossip packet spreading breadth-first over the mesh, at most 30 hops from its author. */
module Broadcast {
  import opened Sets
  import opened StableOrder
  import opened Ring
  import opened Links
  import opened Search

  const MAX_HOPS: nat := 30

  datatype Delivery = Delivery(nodeId: nat, time: nat, hops: nat)

  datatype Visit = Visit(nodeId: nat, hops: nat)

  type SeenSets = map<nat, set<string>>

  /** The links a packet can still travel: not back to the author, and to nobody who has seen it before. */
  ghost function OpenTo(g: Graph, seen: SeenSets, packetId: string, author: nat): Graph {
    map u | u in g :: set v | v in g[u] && v != author && v in seen && packetId !in seen[v]
  }

  function MarkSeen(seen: SeenSets, who: set<nat>, packetId: string): SeenSets {
    map v | v in seen :: if v in who then seen[v] + {packetId} else seen[v]
  }

  ghost predicate Subscribes(topics: map<nat, set<string>>, v: nat, topic: string) {
    v in topics && topic in topics[v]
  }

  /** One delivery for every subscriber that was reached, the author aside, with its hop count and arrival time. */
  ghost predicate IsLog(
    log: seq<Delivery>, hops: map<nat, nat>, topics: map<nat, set<string>>, topic: string, author: nat, simTime: nat)
  {
    && (forall i, j :: 0 <= i < j < |log| ==> log[i].nodeId != log[j].nodeId)
    && (forall i :: 0 <= i < |log| ==> var v := log[i].nodeId;
        v in hops && v != author && Subscribes(topics, v, topic) && log[i] == Delivery(v, simTime + hops[v] * 40, hops[v]))
    && (forall v :: v in hops && v != author && Subscribes(topics, v, topic) ==>
        exists i :: 0 <= i < |log| && log[i].nodeId == v)
  }

  /** The hop counts are the shortest distances of everyone within reach. */
  ghost predicate IsReach(g: Graph, author: nat, hops: map<nat, nat>) {
    hops.Keys == Ball(g, author, MAX_HOPS) && forall v :: v in hops ==> AtDistance(g, author, v, hops[v])
  }

  /**
   * The packet stays within 30 hops. Whoever else it got to had not seen it, and is a neighbour of somebody it got to
   * with one hop less; from there it got to every neighbour that had not seen it, unless the 30 hops were used up.
   */
  ghost predicate SpreadByHops(g: Graph, seen0: SeenSets, packetId: string, author: nat, hops: map<nat, nat>) {
    && author in hops && hops[author] == 0
    && (forall v :: v in hops && v != author ==> v in seen0 && packetId !in seen0[v] && CameBy(g, hops, v))
    && (forall v :: v in hops ==> hops[v] <= 30 && (hops[v] < 30 ==> WentOn(g, seen0, packetId, hops, v)))
  }

  ghost predicate WentOn(g: Graph, seen0: SeenSets, packetId: string, hops: map<nat, nat>, u: nat)
    requires u in hops
  {
    forall v :: Linked(g, u, v) && v in seen0 && packetId !in seen0[v] ==> v in hops && hops[v] <= hops[u] + 1
  }

  lemma ReachIsByHops(g: Graph, seen0: SeenSets, packetId: string, author: nat, hops: map<nat, nat>)
    requires IsReach(OpenTo(g, seen0, packetId, author), author, hops)
    ensures SpreadByHops(g, seen0, packetId, author, hops)
  {
    hide OpenTo, AtDistance, Ball, CameBy, WentOn;
    var open := OpenTo(g, seen0, packetId, author);
    BallZero(open, author);
    BallGrows(open, author, 0, MAX_HOPS);
    NoFartherThan(open, author, author, hops[author], 0);
    forall v | v in hops ensures hops[v] <= 30 && (hops[v] < 30 ==> WentOn(g, seen0, packetId, hops, v)) {
      NoFartherThan(open, author, v, hops[v], MAX_HOPS);
      if hops[v] < 30 { GoesOn(g, seen0, packetId, author, hops, v); }
    }
    forall v | v in hops && v != author ensures v in seen0 && packetId !in seen0[v] && CameBy(g, hops, v) {
      CameFrom(g, seen0, packetId, author, hops, v);
    }
  }

  lemma OpenLink(g: Graph, seen0: SeenSets, packetId: string, author: nat, u: nat, v: nat)
    ensures v in Out(OpenTo(g, seen0, packetId, author), u) <==> (
      Linked(g, u, v) && v != author && v in seen0 && packetId !in seen0[v])
  {
  }

  lemma GoesOn(g: Graph, seen0: SeenSets, packetId: string, author: nat, hops: map<nat, nat>, u: nat)
    requires IsReach(OpenTo(g, seen0, packetId, author), author, hops) && u in hops && hops[u] < 30
    requires author in hops && hops[author] == 0
    ensures WentOn(g, seen0, packetId, hops, u)
  {
    hide OpenTo, Ball, Linked;
    var open := OpenTo(g, seen0, packetId, author);
    forall v | Linked(g, u, v) && v in seen0 && packetId !in seen0[v] ensures v in hops && hops[v] <= hops[u] + 1 {
      if v != author {
        OpenLink(g, seen0, packetId, author, u, v);
        OneHopFurther(open, author, u, v, hops[u]);
        BallGrows(open, author, hops[u] + 1, MAX_HOPS);
        NoFartherThan(open, author, v, hops[v], hops[u] + 1);
      }
    }
  }

  lemma CameFrom(g: Graph, seen0: SeenSets, packetId: string, author: nat, hops: map<nat, nat>, v: nat)
    requires IsReach(OpenTo(g, seen0, packetId, author), author, hops) && v in hops && v != author
    ensures v in seen0 && packetId !in seen0[v] && CameBy(g, hops, v)
  {
    hide OpenTo, Ball, AtDistance, Linked;
    var open := OpenTo(g, seen0, packetId, author);
    var u := HopBefore(open, author, v, hops[v]);
    OpenLink(g, seen0, packetId, author, u, v);
    NoFartherThan(open, author, v, hops[v], MAX_HOPS);
    BallGrows(open, author, hops[v] - 1, MAX_HOPS);
    NoFartherThan(open, author, u, hops[u], hops[v] - 1);
    ReachedFrom(open, author, u, v, hops[u], hops[v]);
  }

  lemma ReachedFrom(g: Graph, s: nat, u: nat, v: nat, d: nat, e: nat)
    requires AtDistance(g, s, u, d) && v in Out(g, u) && AtDistance(g, s, v, e)
    ensures e <= d + 1
  {
    OneHopFurther(g, s, u, v, d);
    NoFartherThan(g, s, v, e, d + 1);
  }

  function Ids(queue: seq<Visit>): seq<nat> {
    seq(|queue|, i requires 0 <= i < |queue| => queue[i].nodeId)
  }

  lemma IdsAppend(queue: seq<Visit>, v: Visit)
    ensures Ids(queue + [v]) == Ids(queue) + [v.nodeId]
    ensures Ids([v] + queue) == [v.nodeId] + Ids(queue)
    ensures queue != [] ==> Ids(queue) != [] && Ids(queue)[0] == queue[0].nodeId && Ids(queue[1..]) == Ids(queue)[1..]
  {
  }

  /** What never changes during one broadcast. */
  datatype Packet = Packet(
    g: Graph, seen0: SeenSets, topics: map<nat, set<string>>, author: nat, id: string, topic: string, simTime: nat)

  ghost function Open(p: Packet): Graph {
    OpenTo(p.g, p.seen0, p.id, p.author)
  }

  ghost predicate Spreading(p: Packet, hops: map<nat, nat>, queue: seq<Visit>, seen: SeenSets, log: seq<Delivery>) {
    && Frontier(Open(p), p.author, Hops(MAX_HOPS), hops, Ids(queue))
    && (forall i :: 0 <= i < |queue| ==> queue[i].nodeId in hops && queue[i].hops == hops[queue[i].nodeId])
    && hops.Keys <= p.seen0.Keys && seen == MarkSeen(p.seen0, hops.Keys, p.id)
    && IsLog(log, hops, p.topics, p.topic, p.author, p.simTime)
  }

  lemma SpreadStart(p: Packet)
    requires p.author in p.seen0
    ensures var seen := p.seen0[p.author := p.seen0[p.author] + {p.id}];
      Spreading(p, map[p.author := 0], [Visit(p.author, 0)], seen, [])
  {
    FrontierStart(Open(p), p.author, Hops(MAX_HOPS));
    assert Ids([Visit(p.author, 0)]) == [p.author];
    assert p.seen0[p.author := p.seen0[p.author] + {p.id}] == MarkSeen(p.seen0, {p.author}, p.id);
  }

  /** The head of the queue, as the loop takes it off. */
  lemma SpreadHead(p: Packet, hops: map<nat, nat>, queue: seq<Visit>, seen: SeenSets, log: seq<Delivery>)
    requires Spreading(p, hops, queue, seen, log) && queue != []
    ensures queue == [queue[0]] + queue[1..]
    ensures queue[0].nodeId in hops && hops[queue[0].nodeId] == queue[0].hops && queue[0].hops <= MAX_HOPS
    ensures |hops| <= |p.seen0|
  {
    hide Ball, AtDistance, IsLog;
    IdsAppend(queue[1..], queue[0]);
    SubsetSize(hops.Keys, p.seen0.Keys);
  }

  lemma SeenMeans(p: Packet, hops: map<nat, nat>, queue: seq<Visit>, seen: SeenSets, log: seq<Delivery>, n: nat)
    requires Spreading(p, hops, queue, seen, log) && p.author in p.seen0
    ensures n in seen <==> n in p.seen0
    ensures n in seen && p.id !in seen[n] ==> n !in hops && n != p.author && p.id !in p.seen0[n]
    ensures n in seen && p.id in seen[n] ==> n in hops || p.id in p.seen0[n]
  {
    hide Ball, AtDistance, IsLog, Expanded, Levels;
  }

  /** A neighbour that is already known needs no message: it was reached, or the packet cannot travel to it. */
  lemma SkippedIsCovered(p: Packet, hops: map<nat, nat>, queue: seq<Visit>, seen: SeenSets, log: seq<Delivery>, n: nat)
    requires Spreading(p, hops, queue, seen, log) && p.author in p.seen0 && queue != []
    requires n !in seen || p.id in seen[n]
    ensures n in Out(Open(p), queue[0].nodeId) ==> n in hops
  {
    hide Spreading;
    SeenMeans(p, hops, queue, seen, log, n);
  }

  lemma OpenIs(p: Packet)
    ensures Open(p) == OpenTo(p.g, p.seen0, p.id, p.author)
  {
  }

  lemma OpenIsNarrower(p: Packet, u: nat)
    ensures Out(Open(p), u) <= Out(p.g, u)
  {
  }

  /** One neighbour that had not seen the packet. */
  lemma SpreadVisit(p: Packet, hops: map<nat, nat>, queue: seq<Visit>, seen: SeenSets, log: seq<Delivery>, n: nat)
    requires Spreading(p, hops, queue, seen, log) && queue != [] && p.author in p.seen0 && queue[0].hops < MAX_HOPS
    requires queue[0].nodeId in p.g && n in p.g[queue[0].nodeId] && n in seen && p.id !in seen[n]
    ensures n !in hops
    ensures var h := queue[0].hops + 1;
      Spreading(p, hops[n := h], queue + [Visit(n, h)], seen[n := seen[n] + {p.id}],
                if Subscribes(p.topics, n, p.topic) then log + [Delivery(n, p.simTime + h * 40, h)] else log)
  {
    hide Ball, AtDistance, IsLog, Expanded, Levels, Frontier, Subscribes;
    SeenMeans(p, hops, queue, seen, log, n);
    var h := queue[0].hops + 1;
    IdsAppend(queue, Visit(n, h));
    assert n in Out(Open(p), queue[0].nodeId);
    FrontierVisit(Open(p), p.author, Hops(MAX_HOPS), hops, Ids(queue), n);
    LogOneMore(log, hops, p.topics, p.topic, p.author, p.simTime, n, h);
    MarkOneMore(p.seen0, hops.Keys, p.id, n);
    assert hops[n := h].Keys == hops.Keys + {n};
  }

  lemma MarkOneMore(seen: SeenSets, who: set<nat>, id: string, n: nat)
    requires n in seen && n !in who
    ensures var marked := MarkSeen(seen, who, id); marked[n := marked[n] + {id}] == MarkSeen(seen, who + {n}, id)
  {
  }

  lemma LogOneMore(
    log: seq<Delivery>, hops: map<nat, nat>, topics: map<nat, set<string>>, topic: string, author: nat, simTime: nat,
    n: nat, h: nat)
    requires IsLog(log, hops, topics, topic, author, simTime) && n !in hops && n != author
    ensures var log' := if Subscribes(topics, n, topic) then log + [Delivery(n, simTime + h * 40, h)] else log;
      IsLog(log', hops[n := h], topics, topic, author, simTime)
  {
    hide Subscribes;
    var log' := if Subscribes(topics, n, topic) then log + [Delivery(n, simTime + h * 40, h)] else log;
    forall v | v in hops[n := h] && v != author && Subscribes(topics, v, topic)
      ensures exists i :: 0 <= i < |log'| && log'[i].nodeId == v
    {
      if v == n {
        assert log'[|log|].nodeId == v;
      } else {
        var i :| 0 <= i < |log| && log[i].nodeId == v;
        assert log'[i].nodeId == v;
      }
    }
  }

  lemma SpreadPop(p: Packet, hops: map<nat, nat>, queue: seq<Visit>, seen: SeenSets, log: seq<Delivery>)
    requires Spreading(p, hops, queue, seen, log) && queue != []
    requires queue[0].hops < MAX_HOPS ==> Out(Open(p), queue[0].nodeId) <= hops.Keys
    ensures Spreading(p, hops, queue[1..], seen, log)
  {
    hide Ball, AtDistance, IsLog, Expanded, Levels, Frontier;
    IdsAppend(queue, queue[0]);
    FrontierPop(Open(p), p.author, Hops(MAX_HOPS), hops, Ids(queue));
  }

  lemma SpreadEnd(p: Packet, hops: map<nat, nat>, seen: SeenSets, log: seq<Delivery>)
    requires Spreading(p, hops, [], seen, log)
    ensures IsReach(Open(p), p.author, hops) && seen == MarkSeen(p.seen0, hops.Keys, p.id)
    ensures IsLog(log, hops, p.topics, p.topic, p.author, p.simTime)
  {
    hide Ball, AtDistance, IsLog, Frontier;
    assert Ids([]) == [];
    FrontierDone(Open(p), p.author, Hops(MAX_HOPS), hops);
  }

  /** A packet that nobody has seen yet can travel every link, so distances are those of the mesh itself. */
  lemma {:induction false} FreshPacketGoesEverywhere(g: Graph, seen: SeenSets, id: string, author: nat, d: nat)
    requires Mutual(g) && g.Keys == seen.Keys && forall v :: v in seen ==> id !in seen[v]
    ensures Ball(OpenTo(g, seen, id, author), author, d) == Ball(g, author, d)
  {
    hide Ball;
    var o := OpenTo(g, seen, id, author);
    if d == 0 {
      BallZero(g, author);
      BallZero(o, author);
    } else {
      FreshPacketGoesEverywhere(g, seen, id, author, d - 1);
      NextBall(g, author, d - 1);
      NextBall(o, author, d - 1);
      BallZero(g, author);
      BallGrows(g, author, 0, d - 1);
      var ball := Ball(g, author, d - 1);
      forall v | v in Onward(g, ball) && v !in ball ensures v in Onward(o, ball) {
        var u :| u in ball && v in Out(g, u);
        assert Linked(g, u, v) && Linked(g, v, u);
        assert v in Out(o, u);
      }
      forall v | v in Onward(o, ball) ensures v in Onward(g, ball) {
        var u :| u in ball && v in Out(o, u);
        assert v in Out(g, u);
      }
    }
  }

  /** On an intact ring of at most 60 h + 1 nodes, a fresh packet reaches every single node. */
  lemma FreshPacketReachesAll(
    g: Graph, seen: SeenSets, id: string, author: nat, key: Keys, h: nat, hops: map<nat, nat>)
    requires Mutual(g) && g.Keys == seen.Keys == key.Keys && forall v :: v in seen ==> id !in seen[v]
    requires 1 <= h && RingLinked(g, Order(key), h) && |key| <= 60 * h + 1 && author in key
    requires IsReach(OpenTo(g, seen, id, author), author, hops)
    ensures hops.Keys == key.Keys
  {
    hide Ball, AtDistance, Order, RingLinked, OpenTo;
    FreshPacketGoesEverywhere(g, seen, id, author, MAX_HOPS);
    forall b | b in key ensures b in hops {
      RingWithinHops(g, key, h, MAX_HOPS, author, b);
    }
    BallIsLive(g, author, MAX_HOPS);
  }
}
