/**
 * The capped ring mesh of the gossip and mailbox simulation. Node records live in one Map from id to record; here each
 * field of the record is a map of its own, so that a step that touches the links leaves the rest alone.
 */
module GossipMesh {
  import opened Sets
  import opened StableOrder
  import opened Ring
  import opened Links
  import opened Search
  import opened CappedMesh
  import opened MailboxStore
  import opened Broadcast

  /** Every node has a full record, and ids count up from 0. */
  ghost predicate Registered(
    ids: set<nat>, topics: map<nat, set<string>>, seen: map<nat, set<string>>, mailbox: map<nat, Mailbox>, nextId: nat)
  {
    topics.Keys == ids && seen.Keys == ids && mailbox.Keys == ids && forall id :: id in ids ==> id < nextId
  }

  lemma RegisterNode(
    ids: set<nat>, topics: map<nat, set<string>>, seen: map<nat, set<string>>, mailbox: map<nat, Mailbox>, id: nat,
    t: set<string>)
    requires Registered(ids, topics, seen, mailbox, id)
    ensures id !in ids
    ensures Registered(ids + {id}, topics[id := t], seen[id := {}], mailbox[id := map[]], id + 1)
  {
  }

  lemma RegisteredKeys(
    ids: set<nat>, topics: map<nat, set<string>>, seen: map<nat, set<string>>, mailbox: map<nat, Mailbox>, next: nat)
    requires Registered(ids, topics, seen, mailbox, next)
    ensures mailbox.Keys == ids && forall x :: x in ids <==> x in seen
  {
  }

  lemma StillRegistered(
    ids: set<nat>, topics: map<nat, set<string>>, seen: map<nat, set<string>>, mailbox: map<nat, Mailbox>, next: nat,
    who: set<nat>, packetId: string)
    requires Registered(ids, topics, seen, mailbox, next)
    ensures Registered(ids, topics, MarkSeen(seen, who, packetId), mailbox, next)
  {
  }

  lemma UnregisterNode(
    ids: set<nat>, topics: map<nat, set<string>>, seen: map<nat, set<string>>, mailbox: map<nat, Mailbox>, next: nat,
    id: nat)
    requires Registered(ids, topics, seen, mailbox, next)
    ensures Registered(ids - {id}, topics - {id}, seen - {id}, mailbox - {id}, next)
  {
  }

  lemma NoSuchKey<T>(m: map<nat, T>, id: nat)
    requires id !in m
    ensures m - {id} == m
  {
  }

  lemma UnknownNode(
    ids: set<nat>, topics: map<nat, set<string>>, seen: map<nat, set<string>>, mailbox: map<nat, Mailbox>, next: nat,
    id: nat)
    requires id !in ids && Registered(ids, topics, seen, mailbox, next)
    ensures topics - {id} == topics && seen - {id} == seen && mailbox - {id} == mailbox
  {
    NoSuchKey(topics, id);
    NoSuchKey(seen, id);
    NoSuchKey(mailbox, id);
  }

  /** One node repaired: all its ring-local links, then far-away strangers in its free slots. */
  ghost predicate NodeRepaired(g: Graph, g': Graph, position: map<nat, real>, h: nat, cap: nat, id: nat) {
    exists local: Graph, far: set<nat> ::
      && Repairs(g, local, Order(position), h, cap) && id in local && |local[id]| <= cap
      && HasLocals(local, Order(position), h, cap, id)
      && IsFarChoice(local, position, id, cap, far, cap - |local[id]|) && g' == AddLinks(local, id, far)
  }

  /** The nodes in some order, repaired one after the other. */
  ghost predicate IsRepairRun(states: seq<Graph>, order: seq<nat>, position: map<nat, real>, h: nat, cap: nat) {
    && |states| == |order| + 1 && Distinct(order)
    && forall i :: 0 <= i < |order| ==> NodeRepaired(states[i], states[i + 1], position, h, cap, order[i])
  }

  lemma OneMoreRepaired(
    states: seq<Graph>, order: seq<nat>, position: map<nat, real>, h: nat, cap: nat, id: nat, local: Graph, far: set<nat>,
    g': Graph)
    requires IsRepairRun(states, order, position, h, cap) && id !in order
    requires var g := states[|order|];
      && Repairs(g, local, Order(position), h, cap) && id in local && |local[id]| <= cap
      && HasLocals(local, Order(position), h, cap, id)
      && IsFarChoice(local, position, id, cap, far, cap - |local[id]|) && g' == AddLinks(local, id, far)
    ensures IsRepairRun(states + [g'], order + [id], position, h, cap)
  {
    hide Order, Repairs, HasLocals, IsFarChoice, AddLinks;
    var g := states[|order|];
    assert NodeRepaired(g, g', position, h, cap, id);
    var more, ids := states + [g'], order + [id];
    forall i | 0 <= i < |ids| ensures NodeRepaired(more[i], more[i + 1], position, h, cap, ids[i]) {
      if i < |order| { assert NodeRepaired(states[i], states[i + 1], position, h, cap, order[i]); }
    }
  }

  lemma InMembersIff(s: seq<nat>)
    ensures forall x :: x in Members(s) <==> x in s
  {
  }

  lemma NoRepairs(g: Graph, position: map<nat, real>, h: nat, cap: nat)
    ensures IsRepairRun([g], [], position, h, cap) && Members([]) == {}
  {
  }

  lemma NotAMember(s: seq<nat>, x: nat)
    requires x !in Members(s)
    ensures x !in s
  {
  }

  lemma NobodyFar(g: Graph, position: map<nat, real>, id: nat, cap: nat, limit: nat)
    requires id in position && id in g && Free(g, position.Keys, id, cap) == {}
    ensures IsFarChoice(g, position, id, cap, {}, limit)
  {
    FarAreFree(g, position, id, cap);
  }

  datatype Op =
    | Join(place: real, topics: set<string>)
    | Leave(id: nat)
    | Repair
    | Gossip(author: nat, topic: string, packetId: string)
    | Put(topic: string, data: string, k: nat)
    | Get(topic: string, k: nat)

  /** What an operation does to the nodes and their mailboxes. */
  function PlacesAfter(op: Op, next: nat, position: map<nat, real>): map<nat, real> {
    match op
    case Join(place, topics) => position[next := place]
    case Leave(id) => position - {id}
    case _ => position
  }

  ghost function BoxesAfter(op: Op, next: nat, position: map<nat, real>, mailbox: map<nat, Mailbox>): map<nat, Mailbox> {
    match op
    case Join(place, topics) => mailbox[next := map[]]
    case Leave(id) => mailbox - {id}
    case Put(topic, data, k) => PutAll(mailbox, Members(Holders(position, topic, k)), topic, data)
    case _ => mailbox
  }

  lemma AfterMeans(op: Op, next: nat, position: map<nat, real>, mailbox: map<nat, Mailbox>)
    ensures op.Join? ==> PlacesAfter(op, next, position) == position[next := op.place]
    ensures op.Join? ==> BoxesAfter(op, next, position, mailbox) == mailbox[next := map[]]
    ensures op.Leave? ==> PlacesAfter(op, next, position) == position - {op.id}
    ensures op.Leave? ==> BoxesAfter(op, next, position, mailbox) == mailbox - {op.id}
    ensures !op.Join? && !op.Leave? ==> PlacesAfter(op, next, position) == position
    ensures op.Repair? ==> BoxesAfter(op, next, position, mailbox) == mailbox
  {
  }

  ghost predicate PutsOther(op: Op, topic: string, data: string) {
    op.Put? ==> op.topic != topic || op.data != data
  }

  /** The nodes that have the data are those who had it and are still there. */
  lemma OthersKeepKeepers(
    op: Op, next: nat, position: map<nat, real>, mailbox: map<nat, Mailbox>, topic: string, data: string, who: set<nat>)
    requires PutsOther(op, topic, data) && Keepers(mailbox, topic, data, who) && next !in who
    ensures Keepers(BoxesAfter(op, next, position, mailbox), topic, data, who)
    ensures !op.Join? ==> OnlyLeft(position, PlacesAfter(op, next, position))
  {
    hide Holders;
    match op
    case Put(topic', data', k) =>
      OtherPutKeepsKeepers(mailbox, Members(Holders(position, topic', k)), topic, data, who, topic', data');
    case _ =>
  }

  lemma NobodyLeft(position: map<nat, real>)
    ensures OnlyLeft(position, position)
  {
  }

  lemma OnlyLeftTwice(position: map<nat, real>, position1: map<nat, real>, position2: map<nat, real>)
    requires OnlyLeft(position, position1) && OnlyLeft(position1, position2)
    ensures OnlyLeft(position, position2)
  {
  }

  lemma HoldersAreOld(
    position: map<nat, real>, topics: map<nat, set<string>>, seen: map<nat, set<string>>, mailbox: map<nat, Mailbox>,
    next: nat, topic: string, k: nat)
    requires Registered(position.Keys, topics, seen, mailbox, next)
    ensures forall v :: v in Members(Holders(position, topic, k)) <==> v in Holders(position, topic, k)
    ensures forall v :: v in Holders(position, topic, k) ==> v < next
  {
    hide Holders;
    forall v | v in Holders(position, topic, k) ensures v < next { HoldersAreNodes(position, topic, k, v); }
  }

  class RingMeshWithGossip {
    const ring: CappedRing
    const longRangeLinks: nat
    var nextId: nat
    var subscribedTopics: map<nat, set<string>>
    var seenPackets: map<nat, set<string>>
    var mailbox: map<nat, Mailbox>
    var simTime: nat
    var gossipSent: nat
    var gossipReceived: nat
    var deliveries: map<string, seq<Delivery>>
    var dhtPuts: nat
    var dhtGets: nat
    var dhtHits: nat
    var dhtMisses: nat

    constructor (localLinks: nat, longRangeLinks: nat, maxDegree: nat)
      ensures fresh(ring) && ring.localLinks == localLinks && ring.maxDegree == maxDegree
      ensures this.longRangeLinks == longRangeLinks && Valid() && ring.RingIntact() && ring.position == map[] && nextId == 0
    {
      ring := new CappedRing(localLinks, maxDegree);
      this.longRangeLinks := longRangeLinks;
      nextId, subscribedTopics, seenPackets, mailbox := 0, map[], map[], map[];
      simTime, gossipSent, gossipReceived, deliveries := 0, 0, 0, map[];
      dhtPuts, dhtGets, dhtHits, dhtMisses := 0, 0, 0, 0;
    }

    ghost predicate Valid()
      reads this, ring
    {
      ring.Valid() && Registered(ring.position.Keys, subscribedTopics, seenPackets, mailbox, nextId)
    }

    /** A node joins at a random place: ring-local links first, then long-range ones into the free slots. */
    method AddNode(place: real, topics: set<string>) returns (id: nat, ghost local: Graph, ghost far: set<nat>)
      requires Valid()
      modifies ring, this`nextId, this`subscribedTopics, this`seenPackets, this`mailbox
      ensures Valid() && id == old(nextId) && nextId == id + 1
      ensures ring.position == old(ring.position)[id := place] && subscribedTopics == old(subscribedTopics)[id := topics]
      ensures seenPackets == old(seenPackets)[id := {}] && mailbox == old(mailbox)[id := map[]]
      ensures Repairs(old(ring.neighbors)[id := {}], local, Order(ring.position), ring.Half(), ring.maxDegree)
      ensures id in local && |local[id]| <= ring.maxDegree && ring.neighbors == AddLinks(local, id, far)
      ensures IsFarChoice(local, ring.position, id, ring.maxDegree, far, Min(ring.maxDegree - |local[id]|, longRangeLinks))
      ensures HasLocals(ring.neighbors, Order(ring.position), ring.Half(), ring.maxDegree, id)
      ensures ring.Roomy() ==> LinkedToAll(ring.neighbors, id, Locals(Order(ring.position), ring.Half(), id))
      ensures ring.Roomy() && old(ring.RingIntact()) ==> ring.RingIntact()
    {
      hide Distinct, LinkedToAll, Registered, Near, Order, IsOrder, HalfOf, KeepsNear, Repairs, MeshOk, Mutual,
        AddLinks, IsFarChoice, Far, Free, HasLocals, RingLinked, Locals;
      ghost var key, g := ring.position, ring.neighbors;
      id := Enrol(place, topics);
      ghost var g0 := ring.neighbors;
      local, far := g0, {};
      if |ring.position| <= 1 {
        RepairsNothing(local, Order(ring.position), ring.Half(), ring.maxDegree);
        NothingLost(local, Order(ring.position), ring.Half());
        MeshIds(local, ring.position.Keys, ring.maxDegree);
        LonelyNode(ring.position, id, local, ring.Half());
        NobodyFar(local, ring.position, id, ring.maxDegree, Min(ring.maxDegree - |local[id]|, longRangeLinks));
      } else {
        local, far := LinkNewcomer(id);
      }
      if ring.Roomy() {
        OrderIsDistinct(ring.position, Order(ring.position));
        AllLocalsIfRoomy(
          ring.neighbors, Order(ring.position), ring.Half(), ring.position.Keys, ring.maxDegree, id);
      }
      if ring.Roomy() && RingLinked(g, Order(key), ring.Half()) {
        MeshIsMutual(ring.neighbors, ring.position.Keys, ring.maxDegree);
        RingAfterAdd(key, ring.Half(), id, place, g, ring.neighbors);
      }
    }

    method LinkNewcomer(id: nat) returns (ghost local: Graph, ghost far: set<nat>)
      requires Valid() && id in ring.position
      modifies ring`neighbors
      ensures Valid() && id in local && |local[id]| <= ring.maxDegree && ring.neighbors == AddLinks(local, id, far)
      ensures Repairs(old(ring.neighbors), local, Order(ring.position), ring.Half(), ring.maxDegree)
      ensures KeepsNear(old(ring.neighbors), ring.neighbors, Order(ring.position), ring.Half())
      ensures IsFarChoice(local, ring.position, id, ring.maxDegree, far, Min(ring.maxDegree - |local[id]|, longRangeLinks))
      ensures HasLocals(ring.neighbors, Order(ring.position), ring.Half(), ring.maxDegree, id)
    {
      hide Registered, Near, Order, IsOrder, HalfOf, KeepsNear, Repairs, MeshOk, AddLinks, IsFarChoice, HasLocals,
        Locals;
      ghost var s, h, g := Order(ring.position), ring.Half(), ring.neighbors;
      ring.LinkLocals(id);
      local := ring.neighbors;
      MeshIds(local, ring.position.Keys, ring.maxDegree);
      var remaining := ring.maxDegree - ring.Degree(id);
      far := ring.FillFar(id, Min(remaining, longRangeLinks));
      RepairsKeep(g, local, s, h, ring.maxDegree);
      KeepsNearTwice(g, local, ring.neighbors, s, h);
      HasLocalsKept(local, ring.neighbors, s, h, ring.position.Keys, ring.maxDegree, id);
    }

    /** The record of a new node. */
    method Enrol(place: real, topics: set<string>) returns (id: nat)
      requires Valid()
      modifies ring, this`nextId, this`subscribedTopics, this`seenPackets, this`mailbox
      ensures Valid() && id == old(nextId) && nextId == id + 1 && id !in old(ring.position)
      ensures ring.position == old(ring.position)[id := place] && subscribedTopics == old(subscribedTopics)[id := topics]
      ensures seenPackets == old(seenPackets)[id := {}] && mailbox == old(mailbox)[id := map[]]
      ensures ring.neighbors == old(ring.neighbors)[id := {}]
    {
      hide Registered, MeshOk;
      id := nextId;
      RegisterNode(ring.position.Keys, subscribedTopics, seenPackets, mailbox, id, topics);
      ring.Enter(id, place);
      assert ring.position.Keys == old(ring.position).Keys + {id};
      nextId := nextId + 1;
      subscribedTopics := subscribedTopics[id := topics];
      seenPackets := seenPackets[id := {}];
      mailbox := mailbox[id := map[]];
    }

    /** A node leaves: everyone forgets it, and the nodes around the gap link up with their new ring-local nodes. */
    method RemoveNode(id: nat)
      requires Valid()
      modifies ring, this`subscribedTopics, this`seenPackets, this`mailbox
      ensures Valid()
      ensures ring.position == old(ring.position) - {id} && subscribedTopics == old(subscribedTopics) - {id}
      ensures seenPackets == old(seenPackets) - {id} && mailbox == old(mailbox) - {id}
      ensures Repairs(DropNode(old(ring.neighbors), id), ring.neighbors, Order(ring.position), ring.Half(), ring.maxDegree)
      ensures HaveLocals(ring.neighbors, ring.position, ring.Half(), ring.maxDegree,
        Locals(old(Order(ring.position)), ring.Half() + 1, id))
      ensures ring.Roomy() && old(ring.RingIntact()) ==> ring.RingIntact()
    {
      hide HaveLocals, Registered, Near, Order, IsOrder, HalfOf, KeepsNear, Repairs, MeshOk, AddLinks, RingLinked,
        Repaired, Locals, DropNode;
      ghost var key, g, h := ring.position, ring.neighbors, ring.Half();
      if id !in ring.position {
        UnknownNode(ring.position.Keys, subscribedTopics, seenPackets, mailbox, nextId, id);
        NoSuchKey(ring.position, id);
        DropUnknown(g, ring.position.Keys, ring.maxDegree, id);
        RepairsNothing(g, Order(ring.position), h, ring.maxDegree);
        NoLocalsOfUnknown(g, ring.position, h, h + 1, ring.maxDegree, id);
        return;
      }
      var repair := AroundTheGap(id);
      Forget(id);
      ring.RepairEach(repair);
      LocalsWiden(Order(key), h, id);
      RepairsKeep(DropNode(g, id), ring.neighbors, Order(ring.position), h, ring.maxDegree);
      if ring.Roomy() && RingLinked(g, Order(key), h) {
        RepairedIfRoomy(ring.neighbors, ring.position, h, ring.maxDegree, Members(repair));
        RingAfterRemove(key, h, id, g, ring.neighbors, Members(repair));
      }
    }

    /** The nodes up to Half() + 1 places away, left and right alternating, before the node is gone. */
    method AroundTheGap(id: nat) returns (repair: seq<nat>)
      requires id in ring.position
      ensures Members(repair) == Locals(Order(ring.position), ring.Half() + 1, id)
    {
      hide Index, Near, Locals, Wrap, Left, Right, Order;
      var s := Sort(ring.position);
      OrderIsDistinct(ring.position, s);
      LocalsOfZero(s, id);
      var k, n, i, radius := Index(s, id), |s|, 1, ring.Half() + 1;
      repair := [];
      while i <= radius && i < n
        invariant 1 <= i <= radius + 1 && i <= n
        invariant Members(repair) == Locals(s, i - 1, id)
      {
        PlacesAround(n, k, i);
        LocalsGrow(s, id, i);
        var l, r := s[Wrap(k - i + n, n)], s[Wrap(k + i, n)];
        PlacesDiffer(s, id, i);
        AppendedMembers(repair, l);
        if l != id { repair := repair + [l]; }
        AppendedMembers(repair, r);
        if r != id { repair := repair + [r]; }
        i := i + 1;
      }
      if i <= radius {
        LocalsSaturate(s, id, i - 1);
        LocalsSaturate(s, id, radius);
      }
    }

    method Forget(id: nat)
      requires Valid()
      modifies ring, this`subscribedTopics, this`seenPackets, this`mailbox
      ensures Valid() && ring.neighbors == DropNode(old(ring.neighbors), id)
      ensures ring.position == old(ring.position) - {id} && subscribedTopics == old(subscribedTopics) - {id}
      ensures seenPackets == old(seenPackets) - {id} && mailbox == old(mailbox) - {id}
    {
      hide Registered, MeshOk, DropNode;
      UnregisterNode(ring.position.Keys, subscribedTopics, seenPackets, mailbox, nextId, id);
      ring.Forget(id);
      assert ring.position.Keys == old(ring.position).Keys - {id};
      subscribedTopics, seenPackets, mailbox := subscribedTopics - {id}, seenPackets - {id}, mailbox - {id};
    }

    /**
     * Every node in turn links to its ring-local nodes and refills its free slots. `states` are the links before the
     * first turn and after each; what one node refills a later one may push out again for a ring-local link.
     */
    method RepairAll() returns (ghost order: seq<nat>, ghost states: seq<Graph>)
      requires Valid()
      modifies ring`neighbors
      ensures Valid() && KeepsNear(old(ring.neighbors), ring.neighbors, Order(ring.position), ring.Half())
      ensures Members(order) == ring.position.Keys
      ensures HaveLocals(ring.neighbors, ring.position, ring.Half(), ring.maxDegree, ring.position.Keys)
      ensures IsRepairRun(states, order, ring.position, ring.Half(), ring.maxDegree)
      ensures states[0] == old(ring.neighbors) && states[|order|] == ring.neighbors
      ensures ring.Roomy() ==> ring.RingIntact()
    {
      hide HaveLocals, Registered, Near, Order, IsOrder, HalfOf, KeepsNear, Repairs, MeshOk, Far, IsFarChoice,
        HasLocals, RingLinked, Locals, Distinct, NodeRepaired, AddLinks, IsRepairRun, Members;
      ghost var s, h, ids, g0, cap := Order(ring.position), ring.Half(), ring.position.Keys, ring.neighbors, ring.maxDegree;
      order, states := [], [g0];
      NobodyHasLocals(g0, ring.position, h, cap);
      NoRepairs(g0, ring.position, h, cap);
      var todo := ring.position.Keys;
      NothingLost(g0, s, h);
      while todo != {}
        invariant Valid() && todo <= ids && KeepsNear(g0, ring.neighbors, s, h) && Members(order) == ids - todo
        invariant IsRepairRun(states, order, ring.position, h, cap) && |states| == |order| + 1
        invariant states[0] == g0 && states[|order|] == ring.neighbors
        invariant HaveLocals(ring.neighbors, ring.position, h, cap, Members(order))
      {
        var id :| id in todo;
        ghost var g := ring.neighbors;
        ghost var local, far := RepairNode(id);
        KeepsNearTwice(g0, g, ring.neighbors, s, h);
        NotAMember(order, id);
        OneMoreRepaired(states, order, ring.position, h, cap, id, local, far, ring.neighbors);
        HaveLocalsKept(g, ring.neighbors, ring.position, h, cap, Members(order));
        OneMoreHasLocals(ring.neighbors, ring.position, h, cap, Members(order), id);
        AppendedMembers(order, id);
        order, states := order + [id], states + [ring.neighbors];
        todo := todo - {id};
      }
      assert Members(order) == ring.position.Keys;
      if ring.Roomy() {
        RepairedIfRoomy(ring.neighbors, ring.position, h, cap, ring.position.Keys);
        AllRepairedIsIntact(ring.position, h, ring.neighbors);
      }
    }

    method RepairNode(id: nat) returns (ghost local: Graph, ghost far: set<nat>)
      requires Valid() && id in ring.position
      modifies ring`neighbors
      ensures Valid() && Repairs(old(ring.neighbors), local, Order(ring.position), ring.Half(), ring.maxDegree)
      ensures KeepsNear(old(ring.neighbors), ring.neighbors, Order(ring.position), ring.Half())
      ensures id in local && |local[id]| <= ring.maxDegree && ring.neighbors == AddLinks(local, id, far)
      ensures IsFarChoice(local, ring.position, id, ring.maxDegree, far, ring.maxDegree - |local[id]|)
      ensures HasLocals(local, Order(ring.position), ring.Half(), ring.maxDegree, id)
      ensures HasLocals(ring.neighbors, Order(ring.position), ring.Half(), ring.maxDegree, id)
    {
      hide Registered, Near, Order, IsOrder, HalfOf, KeepsNear, Repairs, MeshOk, AddLinks, IsFarChoice, HasLocals,
        Locals;
      ghost var s, h, g := Order(ring.position), ring.Half(), ring.neighbors;
      ring.LinkLocals(id);
      local := ring.neighbors;
      MeshIds(local, ring.position.Keys, ring.maxDegree);
      far := ring.FillFar(id, ring.maxDegree - ring.Degree(id));
      RepairsKeep(g, local, s, h, ring.maxDegree);
      KeepsNearTwice(g, local, ring.neighbors, s, h);
      HasLocalsKept(local, ring.neighbors, s, h, ring.position.Keys, ring.maxDegree, id);
    }

    method IsFullyConnected() returns (r: bool)
      requires Valid()
      ensures r <==> Connected(ring.neighbors)
    {
      hide Registered, Reachable, AtDistance, Mutual, Capped, CountsHops;
      if ring.position.Keys == {} { return true; }
      var first :| first in ring.position.Keys;
      var dist := Bfs(ring.neighbors, first);
      ReachedAreLive(ring.neighbors, first, dist.Keys);
      OneSourceSuffices(ring.neighbors, first);
      assert |dist| == |dist.Keys| && |ring.position| == |ring.position.Keys|;
      r := |dist| == |ring.position|;
      if r { SubsetSize(dist.Keys, ring.position.Keys); }
      assert dist.Keys == ring.position.Keys ==> r;
    }

    method FindMailboxNodes(topic: string, k: nat) returns (nodes: seq<nat>)
      ensures nodes == Holders(ring.position, topic, k)
      ensures NearestByArc(ring.position, TopicPlace(topic), k, nodes)
    {
      hide Order, TopicPlace, NearestByArc;
      var targetPos := TargetPosition(topic);
      var sorted := Sort(Distances(ring.position, targetPos));
      nodes := if k <= |sorted| then sorted[..k] else sorted;
      HoldersByArc(ring.position, topic, k);
    }

    method DhtPut(topic: string, data: string, k: nat) returns (stored: nat, nodes: seq<nat>)
      requires Valid()
      modifies this`mailbox, this`dhtPuts
      ensures Valid() && nodes == Holders(ring.position, topic, k)
      ensures mailbox == PutAll(old(mailbox), Members(nodes), topic, data)
      ensures stored == |nodes| && dhtPuts == old(dhtPuts) + stored
      ensures mailbox.Keys == old(mailbox.Keys) && forall v, t :: v in mailbox ==>
        Entries(mailbox, v, t) == Entries(old(mailbox), v, t) + (if v in nodes && t == topic then [data] else [])
    {
      hide NearestByArc, MeshOk, Nearest, Order, TopicPlace, PutAll, Distinct, Members;
      nodes := FindMailboxNodes(topic, k);
      stored := 0;
      NearestIsDistinct(Distances(ring.position, TopicPlace(topic)), k);
      PutNothing(mailbox, nodes, topic, data);
      ghost var before := mailbox;
      assert before.Keys == ring.position.Keys;
      for i := 0 to |nodes|
        invariant mailbox == PutAll(before, Members(nodes[..i]), topic, data) && mailbox.Keys == before.Keys
        invariant stored == i && dhtPuts == old(dhtPuts) + i
      {
        var nid := nodes[i];
        HoldersAreNodes(ring.position, topic, k, nid);
        PutOneMore(before, nodes, i, topic, data);
        if nid in mailbox {
          mailbox := mailbox[nid := Appended(mailbox[nid], topic, data)];
          stored, dhtPuts := stored + 1, dhtPuts + 1;
        }
      }
      assert nodes[..|nodes|] == nodes;
      PutEntries(before, Members(nodes), topic, data);
      assert forall v :: v in Members(nodes) <==> v in nodes by { InMembersIff(nodes); }
    }

    method DhtGet(topic: string, k: nat) returns (found: bool, copies: nat, data: seq<string>)
      modifies this`dhtGets, this`dhtHits, this`dhtMisses
      ensures data == Fetch(mailbox, Holders(ring.position, topic, k), topic)
      ensures copies == |data| && (found <==> data != []) && dhtGets == old(dhtGets) + 1
      ensures dhtHits == old(dhtHits) + (if found then 1 else 0)
      ensures dhtMisses == old(dhtMisses) + (if found then 0 else 1)
    {
      hide Order, Nearest, TopicPlace;
      var nodes := FindMailboxNodes(topic, k);
      data := [];
      dhtGets := dhtGets + 1;
      for i := 0 to |nodes|
        invariant data == Fetch(mailbox, nodes[..i], topic)
      {
        assert nodes[..i + 1][..i] == nodes[..i];
        if nodes[i] in mailbox && topic in mailbox[nodes[i]] {
          data := data + mailbox[nodes[i]][topic];
        }
      }
      assert nodes[..|nodes|] == nodes;
      if |data| > 0 { dhtHits := dhtHits + 1; } else { dhtMisses := dhtMisses + 1; }
      return |data| > 0, |data|, data;
    }

    /** The packet that broadcastGossip spreads over the mesh as it is now. */
    ghost function PacketFrom(authorId: nat, topic: string, packetId: string): Packet
      reads this, ring
    {
      Packet(ring.neighbors, seenPackets, subscribedTopics, authorId, packetId, topic, simTime)
    }

    /** Breadth-first to everyone within 30 hops who has not seen the packet; subscribers log a delivery. */
    method BroadcastGossip(authorId: nat, topic: string, packetId: string) returns (ghost hops: map<nat, nat>)
      requires Valid()
      modifies this`seenPackets, this`gossipSent, this`gossipReceived, this`deliveries
      ensures Valid()
      ensures authorId !in ring.position ==>
        && deliveries == old(deliveries)[packetId := []] && seenPackets == old(seenPackets)
        && gossipSent == old(gossipSent) && gossipReceived == old(gossipReceived)
      ensures authorId in ring.position ==>
        && IsReach(OpenTo(ring.neighbors, old(seenPackets), packetId, authorId), authorId, hops)
        && seenPackets == MarkSeen(old(seenPackets), hops.Keys, packetId)
        && gossipSent + 1 == old(gossipSent) + |hops| && gossipReceived + 1 == old(gossipReceived) + |hops|
        && packetId in deliveries && deliveries == old(deliveries)[packetId := deliveries[packetId]]
        && IsLog(deliveries[packetId], hops, subscribedTopics, topic, authorId, simTime)
        && SpreadByHops(ring.neighbors, old(seenPackets), packetId, authorId, hops)
    {
      hide MeshOk, Registered, OpenTo, IsLog, IsReach, MarkSeen, SpreadByHops;
      RegisteredKeys(ring.position.Keys, subscribedTopics, seenPackets, mailbox, nextId);
      ghost var seen0 := seenPackets;
      deliveries := deliveries[packetId := []];
      hops := map[];
      if authorId !in ring.position { return; }
      hops := SpreadFrom(authorId, topic, packetId);
      ReachIsByHops(ring.neighbors, seen0, packetId, authorId, hops);
      StillRegistered(ring.position.Keys, subscribedTopics, seen0, mailbox, nextId, hops.Keys, packetId);
    }

    /** The queue of broadcastGossip, with the author first. */
    method SpreadFrom(authorId: nat, topic: string, packetId: string) returns (ghost hops: map<nat, nat>)
      requires authorId in seenPackets && packetId in deliveries && deliveries[packetId] == []
      modifies this`seenPackets, this`gossipSent, this`gossipReceived, this`deliveries
      ensures IsReach(OpenTo(ring.neighbors, old(seenPackets), packetId, authorId), authorId, hops)
      ensures seenPackets == MarkSeen(old(seenPackets), hops.Keys, packetId)
      ensures gossipSent + 1 == old(gossipSent) + |hops| && gossipReceived + 1 == old(gossipReceived) + |hops|
      ensures packetId in deliveries && deliveries == old(deliveries)[packetId := deliveries[packetId]]
      ensures IsLog(deliveries[packetId], hops, subscribedTopics, topic, authorId, simTime)
    {
      hide Spreading, Broadcast.Open, OpenTo, IsLog, IsReach, MarkSeen, Subscribes;
      ghost var p := PacketFrom(authorId, topic, packetId);
      var queue := [Visit(authorId, 0)];
      seenPackets := seenPackets[authorId := seenPackets[authorId] + {packetId}];
      hops := map[authorId := 0];
      SpreadStart(p);
      SpreadHead(p, hops, queue, seenPackets, []);
      while queue != []
        invariant packetId in deliveries && deliveries == old(deliveries)[packetId := deliveries[packetId]]
        invariant Spreading(p, hops, queue, seenPackets, deliveries[packetId])
        invariant gossipSent + 1 == old(gossipSent) + |hops| && gossipReceived + 1 == old(gossipReceived) + |hops|
        invariant |hops| <= |p.seen0|
        decreases |p.seen0| - |hops| + |queue|
      {
        SpreadHead(p, hops, queue, seenPackets, deliveries[packetId]);
        var c := queue[0];
        queue := queue[1..];
        if c.nodeId in ring.neighbors && c.hops < MAX_HOPS {
          queue, hops := Relay(c, queue, topic, packetId, p, hops);
        }
        OpenIsNarrower(p, c.nodeId);
        SpreadPop(p, hops, [c] + queue, seenPackets, deliveries[packetId]);
        assert ([c] + queue)[1..] == queue;
      }
      SpreadEnd(p, hops, seenPackets, deliveries[packetId]);
      OpenIs(p);
    }

    /** A node gets the packet; if it subscribes to the topic, the delivery is logged. */
    method Deliver(n: nat, hops: nat, topic: string, packetId: string)
      requires n in seenPackets && packetId in deliveries
      modifies this`seenPackets, this`gossipSent, this`gossipReceived, this`deliveries
      ensures seenPackets == old(seenPackets)[n := old(seenPackets)[n] + {packetId}]
      ensures gossipSent == old(gossipSent) + 1 && gossipReceived == old(gossipReceived) + 1
      ensures packetId in deliveries && deliveries == old(deliveries)[packetId := deliveries[packetId]]
      ensures deliveries[packetId] ==
        if Subscribes(subscribedTopics, n, topic)
        then old(deliveries)[packetId] + [Delivery(n, simTime + hops * 40, hops)] else old(deliveries)[packetId]
    {
      seenPackets := seenPackets[n := seenPackets[n] + {packetId}];
      gossipSent, gossipReceived := gossipSent + 1, gossipReceived + 1;
      if n in subscribedTopics && topic in subscribedTopics[n] {
        deliveries := deliveries[packetId := deliveries[packetId] + [Delivery(n, simTime + hops * 40, hops)]];
      }
    }

    /** Send to every neighbour of the node just taken off the queue that has not seen the packet. */
    method Relay(
      c: Visit, rest: seq<Visit>, topic: string, packetId: string, ghost p: Packet, ghost hops: map<nat, nat>)
      returns (queue: seq<Visit>, ghost hops': map<nat, nat>)
      requires c.nodeId in ring.neighbors && c.hops < MAX_HOPS && packetId in deliveries
      requires p.g == ring.neighbors && p.topics == subscribedTopics && p.id == packetId && p.topic == topic
      requires p.simTime == simTime && p.author in p.seen0
      requires Spreading(p, hops, [c] + rest, seenPackets, deliveries[packetId])
      modifies this`seenPackets, this`gossipSent, this`gossipReceived, this`deliveries
      ensures packetId in deliveries && deliveries == old(deliveries)[packetId := deliveries[packetId]]
      ensures Spreading(p, hops', [c] + queue, seenPackets, deliveries[packetId])
      ensures Out(Broadcast.Open(p), c.nodeId) <= hops'.Keys && |hops'| <= |p.seen0|
      ensures |queue| + |hops| == |rest| + |hops'| && gossipSent + |hops| == old(gossipSent) + |hops'|
      ensures gossipReceived + |hops| == old(gossipReceived) + |hops'|
    {
      hide Spreading, Broadcast.Open, OpenTo, IsLog, MarkSeen, Subscribes;
      queue, hops' := rest, hops;
      var todo := ring.neighbors[c.nodeId];
      OpenIsNarrower(p, c.nodeId);
      SpreadHead(p, hops, [c] + rest, seenPackets, deliveries[packetId]);
      while todo != {}
        invariant todo <= ring.neighbors[c.nodeId]
        invariant packetId in deliveries && deliveries == old(deliveries)[packetId := deliveries[packetId]]
        invariant Spreading(p, hops', [c] + queue, seenPackets, deliveries[packetId])
        invariant Out(Broadcast.Open(p), c.nodeId) - todo <= hops'.Keys && |hops'| <= |p.seen0|
        invariant |queue| + |hops| == |rest| + |hops'| && gossipSent + |hops| == old(gossipSent) + |hops'|
        invariant gossipReceived + |hops| == old(gossipReceived) + |hops'|
      {
        var n :| n in todo;
        todo := todo - {n};
        if n in seenPackets && packetId !in seenPackets[n] {
          SpreadVisit(p, hops', [c] + queue, seenPackets, deliveries[packetId], n);
          Deliver(n, c.hops + 1, topic, packetId);
          assert [c] + queue + [Visit(n, c.hops + 1)] == [c] + (queue + [Visit(n, c.hops + 1)]);
          queue, hops' := queue + [Visit(n, c.hops + 1)], hops'[n := c.hops + 1];
          SpreadHead(p, hops', [c] + queue, seenPackets, deliveries[packetId]);
        } else {
          SkippedIsCovered(p, hops', [c] + queue, seenPackets, deliveries[packetId], n);
        }
      }
    }

    /** Any of the operations. */
    method Apply(op: Op)
      requires Valid()
      modifies this, ring
      ensures Valid() && (ring.Roomy() && old(ring.RingIntact()) ==> ring.RingIntact())
      ensures nextId == if op.Join? then old(nextId) + 1 else old(nextId)
      ensures ring.position == PlacesAfter(op, old(nextId), old(ring.position))
      ensures mailbox == BoxesAfter(op, old(nextId), old(ring.position), old(mailbox))
    {
      hide MeshOk, Registered, Order, Holders, RingLinked, Repairs, IsFarChoice, HasLocals, IsRepairRun, KeepsNear,
        DropNode, AddLinks, HalfOf, PlacesAfter, BoxesAfter;
      AfterMeans(op, nextId, ring.position, mailbox);
      match op
      case Join(place, topics) => var id, local, far := AddNode(place, topics);
      case Leave(id) => RemoveNode(id);
      case Repair => var order, states := RepairAll();
      case _ => Serve(op);
    }

    /** Those that leave the links alone. */
    method Serve(op: Op)
      requires Valid() && (op.Gossip? || op.Put? || op.Get?)
      modifies this`mailbox, this`seenPackets, this`gossipSent, this`gossipReceived, this`deliveries
      modifies this`dhtPuts, this`dhtGets, this`dhtHits, this`dhtMisses
      ensures Valid() && mailbox == BoxesAfter(op, nextId, ring.position, old(mailbox))
    {
      hide MeshOk, Registered, Holders, OpenTo, IsReach, IsLog, MarkSeen, PutAll, Members, Fetch, SpreadByHops;
      match op
      case Gossip(author, topic, packetId) => var hops := BroadcastGossip(author, topic, packetId);
      case Put(topic, data, k) => var stored, nodes := DhtPut(topic, data, k);
      case Get(topic, k) => var found, copies, data := DhtGet(topic, k);
    }

    /**
     * New data is put, anything else happens, and the data is looked up: it is found exactly if a node it was put on is
     * left with fewer than k' nodes nearer to the topic. If nobody joined in between, one of those nodes left is enough.
     */
    method PutRunGet(topic: string, data: string, k: nat, ops: seq<Op>, k': nat) returns (found: bool, got: seq<string>)
      requires Valid() && Keepers(mailbox, topic, data, {}) && forall i :: 0 <= i < |ops| ==> PutsOther(ops[i], topic, data)
      modifies this, ring
      ensures Valid() && (found <==> got != [])
      ensures data in got <==> exists v ::
        v in Holders(old(ring.position), topic, k) && v in ring.position && |Nearer(ring.position, topic, v)| < k'
      ensures k <= k' && (forall i :: 0 <= i < |ops| ==> !ops[i].Join?) ==>
        (data in got <==> exists v :: v in Holders(old(ring.position), topic, k) && v in ring.position)
    {
      hide MeshOk, Holders, Nearer, Keepers, PutAll, BoxesAfter, PlacesAfter, PutsOther, OnlyLeft, RingLinked, Fetch,
        Registered, Members;
      ghost var position0, next0 := ring.position, nextId;
      var stored, nodes := DhtPut(topic, data, k);
      ghost var who := Members(nodes);
      PutMakesKeepers(old(mailbox), who, topic, data);
      NobodyLeft(position0);
      HoldersAreOld(position0, subscribedTopics, seenPackets, old(mailbox), next0, topic, k);
      for i := 0 to |ops|
        invariant Valid() && nextId >= next0 && Keepers(mailbox, topic, data, who)
        invariant (forall j :: 0 <= j < i ==> !ops[j].Join?) ==> OnlyLeft(position0, ring.position)
      {
        ghost var next, position, boxes := nextId, ring.position, mailbox;
        Apply(ops[i]);
        OthersKeepKeepers(ops[i], next, position, boxes, topic, data, who);
        if forall j :: 0 <= j < i + 1 ==> !ops[j].Join? { OnlyLeftTwice(position0, position, ring.position); }
      }
      var copies;
      found, copies, got := DhtGet(topic, k');
      RegisteredKeys(ring.position.Keys, subscribedTopics, seenPackets, mailbox, nextId);
      FoundIffKeeperIsNear(ring.position, mailbox, topic, data, k', who);
      if k <= k' && OnlyLeft(position0, ring.position) {
        forall v | v in who && v in ring.position ensures |Nearer(ring.position, topic, v)| < k' {
          HolderStays(position0, ring.position, topic, k, v);
          HolderIff(ring.position, topic, k, v);
        }
      }
    }
  }

  /**
   * Any run whatever, from an empty mesh: links stay mutual and within the degree cap. If the cap leaves room for the
   * ring-local links, all of them are there at the end, and with at least one local link everyone can reach everyone.
   */
  method Simulate(localLinks: nat, longRangeLinks: nat, maxDegree: nat, ops: seq<Op>)
    returns (position: map<nat, real>, neighbors: Graph)
    ensures MeshOk(neighbors, position.Keys, maxDegree)
    ensures 2 * HalfOf(localLinks) <= maxDegree ==> RingLinked(neighbors, Order(position), HalfOf(localLinks))
    ensures 2 * HalfOf(localLinks) <= maxDegree && 1 <= localLinks ==> Connected(neighbors)
  {
    hide RingLinked, MeshOk, Registered, Order, Connected, PlacesAfter, BoxesAfter, HalfOf;
    var mesh := new RingMeshWithGossip(localLinks, longRangeLinks, maxDegree);
    var ring := mesh.ring;
    for i := 0 to |ops|
      invariant mesh.Valid() && (ring.Roomy() ==> ring.RingIntact())
    {
      mesh.Apply(ops[i]);
    }
    position, neighbors := ring.position, ring.neighbors;
    if ring.Roomy() && 1 <= localLinks {
      MeshKeys(neighbors, position.Keys, maxDegree);
      assert neighbors.Keys == position.Keys;
      HalfOfSome(localLinks);
      RingLinkedIsConnected(neighbors, position, HalfOf(localLinks));
    }
  }
}
