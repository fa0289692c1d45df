/** Breadth-first search over links: balls, exact distances, and the queue discipline that finds them. */
module Search {
  import opened Sets
  import opened StableOrder
  import opened Ring
  import opened Links

  ghost function Out(g: Graph, v: nat): set<nat> {
    if v in g then g[v] else {}
  }

  /** The nodes at most d hops from s. */
  ghost function Ball(g: Graph, s: nat, d: nat): set<nat> {
    if d == 0 then {s} else Ball(g, s, d - 1) + Onward(g, Ball(g, s, d - 1))
  }

  ghost function Onward(g: Graph, from: set<nat>): set<nat> {
    set u, v | u in from && v in Out(g, u) :: v
  }

  lemma OneHopFurther(g: Graph, s: nat, u: nat, v: nat, d: nat)
    requires u in Ball(g, s, d) && v in Out(g, u)
    ensures v in Ball(g, s, d + 1)
  {
    assert v in Onward(g, Ball(g, s, d));
  }

  /** The shortest way from s to v has exactly d hops. */
  ghost predicate AtDistance(g: Graph, s: nat, v: nat, d: nat) {
    v in Ball(g, s, d) && (d > 0 ==> v !in Ball(g, s, d - 1))
  }

  ghost predicate Reachable(g: Graph, s: nat, v: nat) {
    exists d: nat :: v in Ball(g, s, d)
  }

  ghost predicate Connected(g: Graph) {
    forall a, b :: a in g && b in g ==> Reachable(g, a, b)
  }

  lemma {:induction false} BallGrows(g: Graph, s: nat, d: nat, e: nat)
    requires d <= e
    ensures Ball(g, s, d) <= Ball(g, s, e)
    decreases e
  {
    if d < e { BallGrows(g, s, d, e - 1); }
  }

  lemma NoFartherThan(g: Graph, s: nat, v: nat, d: nat, e: nat)
    requires AtDistance(g, s, v, d) && v in Ball(g, s, e)
    ensures d <= e
  {
    if d > e { BallGrows(g, s, e, d - 1); }
  }

  /** Hop counts step by step: zero at the source, one more than at some neighbour, at most one more than at any. */
  ghost predicate CountsHops(g: Graph, s: nat, dist: map<nat, nat>) {
    && s in dist && dist[s] == 0
    && (forall v :: v in dist && v != s ==> CameBy(g, dist, v))
    && (forall u, v :: u in dist && Linked(g, u, v) ==> v in dist && dist[v] <= dist[u] + 1)
  }

  /** Some neighbour is one hop nearer. */
  ghost predicate CameBy(g: Graph, dist: map<nat, nat>, v: nat)
    requires v in dist
  {
    exists u :: u in dist && Linked(g, u, v) && dist[v] == dist[u] + 1
  }

  lemma DistancesCountHops(g: Graph, s: nat, dist: map<nat, nat>)
    requires forall v :: v in dist <==> Reachable(g, s, v)
    requires forall v :: v in dist ==> AtDistance(g, s, v, dist[v])
    ensures CountsHops(g, s, dist)
  {
    hide Ball;
    BallZero(g, s);
    assert Reachable(g, s, s);
    NoFartherThan(g, s, s, dist[s], 0);
    forall u, v | u in dist && Linked(g, u, v) ensures v in dist && dist[v] <= dist[u] + 1 {
      OneHopFurther(g, s, u, v, dist[u]);
      assert Reachable(g, s, v);
      NoFartherThan(g, s, v, dist[v], dist[u] + 1);
    }
    forall v | v in dist && v != s ensures CameBy(g, dist, v) {
      var u := HopBefore(g, s, v, dist[v]);
      assert Reachable(g, s, u) && Linked(g, u, v);
      NoFartherThan(g, s, u, dist[u], dist[v] - 1);
    }
  }

  lemma HopBefore(g: Graph, s: nat, v: nat, d: nat) returns (u: nat)
    requires AtDistance(g, s, v, d) && v != s
    ensures d > 0 && u in Ball(g, s, d - 1) && v in Out(g, u)
  {
    assert v in Onward(g, Ball(g, s, d - 1));
    u :| u in Ball(g, s, d - 1) && v in Out(g, u);
  }

  lemma {:induction false} BallsChain(g: Graph, a: nat, b: nat, c: nat, d: nat, e: nat)
    requires b in Ball(g, a, d) && c in Ball(g, b, e)
    ensures c in Ball(g, a, d + e)
    decreases e
  {
    if e > 0 {
      if c in Ball(g, b, e - 1) {
        BallsChain(g, a, b, c, d, e - 1);
      } else {
        var u :| u in Ball(g, b, e - 1) && c in Out(g, u);
        BallsChain(g, a, b, u, d, e - 1);
      }
    }
  }

  lemma {:induction false} BallIsSymmetric(g: Graph, a: nat, b: nat, d: nat)
    requires Mutual(g) && b in Ball(g, a, d)
    ensures a in Ball(g, b, d)
    decreases d
  {
    hide Ball;
    if d == 0 {
      BallZero(g, a);
      BallZero(g, b);
    } else {
      NextBall(g, a, d - 1);
      NextBall(g, b, d - 1);
      if b in Ball(g, a, d - 1) {
        BallIsSymmetric(g, a, b, d - 1);
      } else {
        var u :| u in Ball(g, a, d - 1) && b in Out(g, u);
        BallIsSymmetric(g, a, u, d - 1);
        assert Linked(g, u, b) && Linked(g, b, u);
        BallZero(g, b);
        OneHopFurther(g, b, b, u, 0);
        BallsChain(g, b, u, a, 1, d - 1);
      }
    }
  }

  lemma DistanceIsUnique(g: Graph, s: nat, v: nat, d: nat, e: nat)
    requires AtDistance(g, s, v, d) && AtDistance(g, s, v, e)
    ensures d == e
  {
    if d < e { BallGrows(g, s, d, e - 1); }
    if e < d { BallGrows(g, s, e, d - 1); }
  }

  lemma {:induction false} InBallHasDistance(g: Graph, s: nat, v: nat, d: nat) returns (e: nat)
    requires v in Ball(g, s, d)
    ensures e <= d && AtDistance(g, s, v, e)
  {
    if d == 0 || v !in Ball(g, s, d - 1) {
      e := d;
    } else {
      e := InBallHasDistance(g, s, v, d - 1);
    }
  }

  /** Reached[v] is the hop count the search gave v; it may go no further than `limit` hops, if there is a limit. */
  datatype Limit = Hops(max: nat) | Unlimited

  predicate Open(limit: Limit, d: nat) {
    limit.Unlimited? || d < limit.max
  }

  ghost predicate Exact(g: Graph, s: nat, limit: Limit, hops: map<nat, nat>) {
    s in hops && forall v :: v in hops ==> AtDistance(g, s, v, hops[v]) && (limit.Hops? ==> hops[v] <= limit.max)
  }

  /** The queue has no repeats and its hop counts never fall, and they span at most two levels. */
  ghost predicate Levels(hops: map<nat, nat>, queue: seq<nat>) {
    && (forall i :: 0 <= i < |queue| ==> queue[i] in hops)
    && (forall i, j :: 0 <= i < j < |queue| ==> queue[i] != queue[j] && hops[queue[i]] <= hops[queue[j]])
    && (queue != [] ==> forall v :: v in hops ==> hops[v] <= hops[queue[0]] + (if v in queue then 1 else 0))
  }

  ghost predicate Expanded(g: Graph, limit: Limit, hops: map<nat, nat>, queue: seq<nat>) {
    forall v :: v in hops && v !in queue && Open(limit, hops[v]) ==> Out(g, v) <= hops.Keys
  }

  ghost predicate Frontier(g: Graph, s: nat, limit: Limit, hops: map<nat, nat>, queue: seq<nat>) {
    && Exact(g, s, limit, hops)
    && Levels(hops, queue)
    && Expanded(g, limit, hops, queue)
    && (queue != [] ==> Ball(g, s, hops[queue[0]]) <= hops.Keys)
  }

  lemma FrontierStart(g: Graph, s: nat, limit: Limit)
    ensures Frontier(g, s, limit, map[s := 0], [s])
  {
  }

  /** Taking an unreached neighbour of the head and putting it at the end of the queue. */
  lemma FrontierVisit(g: Graph, s: nat, limit: Limit, hops: map<nat, nat>, queue: seq<nat>, v: nat)
    requires Frontier(g, s, limit, hops, queue) && queue != []
    requires Open(limit, hops[queue[0]]) && v in Out(g, queue[0]) && v !in hops
    ensures Frontier(g, s, limit, hops[v := hops[queue[0]] + 1], queue + [v])
  {
    hide Ball;
    var d := hops[queue[0]];
    var hops', queue' := hops[v := d + 1], queue + [v];
    OneHopFurther(g, s, queue[0], v, d);
    VisitExact(g, s, limit, hops, v, d);
    VisitLevels(hops, queue, v);
    VisitExpanded(g, limit, hops, queue, v, d + 1);
  }

  lemma VisitExact(g: Graph, s: nat, limit: Limit, hops: map<nat, nat>, v: nat, d: nat)
    requires Exact(g, s, limit, hops) && v !in hops && Open(limit, d)
    requires v in Ball(g, s, d + 1) && Ball(g, s, d) <= hops.Keys
    ensures Exact(g, s, limit, hops[v := d + 1])
  {
    hide Ball;
    assert AtDistance(g, s, v, d + 1);
  }

  lemma VisitExpanded(g: Graph, limit: Limit, hops: map<nat, nat>, queue: seq<nat>, v: nat, d: nat)
    requires Expanded(g, limit, hops, queue) && v !in hops
    ensures Expanded(g, limit, hops[v := d], queue + [v])
  {
    assert forall u :: u in queue + [v] <==> u in queue || u == v;
  }

  lemma VisitLevels(hops: map<nat, nat>, queue: seq<nat>, v: nat)
    requires Levels(hops, queue) && queue != [] && v !in hops
    ensures Levels(hops[v := hops[queue[0]] + 1], queue + [v])
  {
  }

  /** Dropping the head once all its neighbours have been reached. */
  lemma FrontierPop(g: Graph, s: nat, limit: Limit, hops: map<nat, nat>, queue: seq<nat>)
    requires Frontier(g, s, limit, hops, queue) && queue != []
    requires Open(limit, hops[queue[0]]) ==> Out(g, queue[0]) <= hops.Keys
    ensures Frontier(g, s, limit, hops, queue[1..])
  {
    hide Ball;
    var rest := queue[1..];
    assert queue == [queue[0]] + rest;
    PopLevels(hops, queue);
    if rest != [] {
      NextLevelReached(g, s, limit, hops, queue);
    }
  }

  lemma PopLevels(hops: map<nat, nat>, queue: seq<nat>)
    requires Levels(hops, queue) && queue != []
    ensures Levels(hops, queue[1..])
  {
    var rest := queue[1..];
    forall i, j | 0 <= i < j < |rest| ensures rest[i] != rest[j] && hops[rest[i]] <= hops[rest[j]] {
      assert rest[i] == queue[i + 1] && rest[j] == queue[j + 1];
    }
    if rest != [] {
      assert rest[0] == queue[1];
      forall v | v in hops ensures hops[v] <= hops[rest[0]] + (if v in rest then 1 else 0) {
        if v in queue {
          var i :| 0 <= i < |queue| && queue[i] == v;
          if i > 0 { assert rest[i - 1] == v; }
        }
      }
    }
  }

  lemma NextLevelReached(g: Graph, s: nat, limit: Limit, hops: map<nat, nat>, queue: seq<nat>)
    requires Frontier(g, s, limit, hops, queue) && |queue| > 1
    requires Open(limit, hops[queue[0]]) ==> Out(g, queue[0]) <= hops.Keys
    ensures Ball(g, s, hops[queue[1]]) <= hops.Keys
  {
    hide Ball;
    var d, e := hops[queue[0]], hops[queue[1]];
    if d < e {
      NextBall(g, s, d);
      forall v | v in Onward(g, Ball(g, s, d)) ensures v in hops {
        var u :| u in Ball(g, s, d) && v in Out(g, u);
        HopsAtMost(g, s, limit, hops, u, d);
        TailIsLater(hops, queue, u);
        assert Out(g, u) <= hops.Keys;
      }
    }
  }

  lemma BallZero(g: Graph, s: nat)
    ensures Ball(g, s, 0) == {s}
  {
  }

  lemma NextBall(g: Graph, s: nat, d: nat)
    ensures Ball(g, s, d + 1) == Ball(g, s, d) + Onward(g, Ball(g, s, d))
  {
  }

  lemma HopsAtMost(g: Graph, s: nat, limit: Limit, hops: map<nat, nat>, u: nat, d: nat)
    requires Exact(g, s, limit, hops) && u in hops && u in Ball(g, s, d)
    ensures hops[u] <= d
  {
    var du := InBallHasDistance(g, s, u, d);
    DistanceIsUnique(g, s, u, du, hops[u]);
  }

  lemma TailIsLater(hops: map<nat, nat>, queue: seq<nat>, u: nat)
    requires Levels(hops, queue) && |queue| > 1 && u in hops && hops[u] < hops[queue[1]]
    ensures u == queue[0] || u !in queue
  {
  }

  /** When the queue runs dry the search has reached exactly the ball of its limit. */
  lemma FrontierDone(g: Graph, s: nat, limit: Limit, hops: map<nat, nat>)
    requires Frontier(g, s, limit, hops, [])
    ensures forall v :: v in hops ==> AtDistance(g, s, v, hops[v])
    ensures limit.Hops? ==> hops.Keys == Ball(g, s, limit.max)
    ensures limit.Unlimited? ==> forall v :: v in hops <==> Reachable(g, s, v)
  {
    forall d: nat, v | v in Ball(g, s, d) && (limit.Hops? ==> d <= limit.max) ensures v in hops {
      BallReached(g, s, limit, hops, d);
    }
    if limit.Hops? {
      forall v | v in hops ensures v in Ball(g, s, limit.max) { BallGrows(g, s, hops[v], limit.max); }
    }
  }

  lemma {:induction false} BallReached(g: Graph, s: nat, limit: Limit, hops: map<nat, nat>, d: nat)
    requires Frontier(g, s, limit, hops, []) && (limit.Hops? ==> d <= limit.max)
    ensures Ball(g, s, d) <= hops.Keys
  {
    hide Ball, AtDistance;
    if d == 0 {
      BallZero(g, s);
    } else {
      BallReached(g, s, limit, hops, d - 1);
      NextBall(g, s, d - 1);
      forall v | v in Onward(g, Ball(g, s, d - 1)) ensures v in hops {
        var u :| u in Ball(g, s, d - 1) && v in Out(g, u);
        HopsAtMost(g, s, limit, hops, u, d - 1);
      }
    }
  }

  /** The search that the simulators run: exact hop counts of everyone reachable. */
  method Bfs(g: Graph, src: nat) returns (dist: map<nat, nat>)
    ensures forall v :: v in dist <==> Reachable(g, src, v)
    ensures forall v :: v in dist ==> AtDistance(g, src, v, dist[v])
    ensures CountsHops(g, src, dist)
  {
    hide CountsHops, Frontier, Reachable, AtDistance, Ball;
    dist := map[src := 0];
    var q := [src];
    FrontierStart(g, src, Unlimited);
    ghost var all := Everyone(g) + {src};
    FitsIn(dist, all);
    while q != []
      invariant Frontier(g, src, Unlimited, dist, q) && dist.Keys <= all && |dist| <= |all|
      decreases |all| - |dist| + |q|
    {
      QueueIsReached(g, src, Unlimited, dist, q);
      var c := q[0];
      var d := dist[c];
      dist, q := BfsExpand(g, src, c, dist, q[1..], all);
      FrontierPop(g, src, Unlimited, dist, [c] + q);
      assert ([c] + q)[1..] == q;
      FitsIn(dist, all);
    }
    FrontierDone(g, src, Unlimited, dist);
    DistancesCountHops(g, src, dist);
  }

  lemma FitsIn(hops: map<nat, nat>, all: set<nat>)
    requires hops.Keys <= all
    ensures |hops| <= |all|
  {
    SubsetSize(hops.Keys, all);
    assert |hops| == |hops.Keys|;
  }

  ghost function Everyone(g: Graph): set<nat> {
    g.Keys + set u, v | u in g && v in g[u] :: v
  }

  lemma QueueIsReached(g: Graph, s: nat, limit: Limit, hops: map<nat, nat>, queue: seq<nat>)
    requires Frontier(g, s, limit, hops, queue) && queue != []
    ensures queue[0] in hops && queue == [queue[0]] + queue[1..]
    ensures limit.Hops? ==> hops[queue[0]] <= limit.max
  {
    hide Ball, AtDistance, Expanded;
  }

  /** All unreached neighbours of the node just taken off the queue. */
  method BfsExpand(g: Graph, ghost src: nat, c: nat, hops: map<nat, nat>, queue: seq<nat>, ghost all: set<nat>)
    returns (dist: map<nat, nat>, q: seq<nat>)
    requires c in hops && Frontier(g, src, Unlimited, hops, [c] + queue)
    requires hops.Keys <= all && Everyone(g) <= all
    ensures Frontier(g, src, Unlimited, dist, [c] + q) && hops.Keys <= dist.Keys <= all && Out(g, c) <= dist.Keys
    ensures |q| - |queue| == |dist| - |hops|
  {
    hide Frontier;
    dist, q := hops, queue;
    var todo := if c in g then g[c] else {};
    while todo != {}
      invariant todo <= Out(g, c) && Out(g, c) - todo <= dist.Keys
      invariant c in dist && hops.Keys <= dist.Keys <= all && Frontier(g, src, Unlimited, dist, [c] + q)
      invariant |q| - |queue| == |dist| - |hops|
    {
      var n :| n in todo;
      todo := todo - {n};
      if n !in dist {
        FrontierVisit(g, src, Unlimited, dist, [c] + q, n);
        assert [c] + q + [n] == [c] + (q + [n]);
        dist, q := dist[n := dist[c] + 1], q + [n];
      }
    }
  }

  lemma ReachableBack(g: Graph, a: nat, b: nat)
    requires Mutual(g) && Reachable(g, a, b)
    ensures Reachable(g, b, a)
  {
    var d: nat :| b in Ball(g, a, d);
    BallIsSymmetric(g, a, b, d);
  }

  lemma ReachableThrough(g: Graph, a: nat, b: nat, c: nat)
    requires Reachable(g, a, b) && Reachable(g, b, c)
    ensures Reachable(g, a, c)
  {
    var d: nat :| b in Ball(g, a, d);
    var e: nat :| c in Ball(g, b, e);
    BallsChain(g, a, b, c, d, e);
  }

  lemma ReachableSelf(g: Graph, a: nat)
    ensures Reachable(g, a, a)
  {
    BallZero(g, a);
  }

  /** From one node everyone is reachable exactly when from every node everyone is. */
  lemma OneSourceSuffices(g: Graph, s: nat)
    requires Mutual(g) && s in g
    ensures Connected(g) <==> forall v :: v in g ==> Reachable(g, s, v)
  {
    if forall v :: v in g ==> Reachable(g, s, v) {
      forall a, b | a in g && b in g ensures Reachable(g, a, b) {
        ReachableBack(g, s, a);
        ReachableThrough(g, a, s, b);
      }
    }
  }

  /** A set of visited nodes that no link leaves or enters. */
  ghost predicate Closed(g: Graph, visited: set<nat>) {
    forall a, b :: a in visited && Reachable(g, a, b) ==> b in visited
  }

  ghost predicate IsComponent(g: Graph, comp: seq<nat>) {
    comp != [] && Distinct(comp) && forall v :: v in comp <==> Reachable(g, comp[0], v)
  }

  /** The component of an unvisited node, in breadth-first order. */
  method Component(g: Graph, id: nat, visited: set<nat>) returns (comp: seq<nat>, visited': set<nat>)
    requires Mutual(g) && id in g && id !in visited && Closed(g, visited)
    ensures IsComponent(g, comp) && comp[0] == id && Members(comp) !! visited
    ensures visited' == visited + Members(comp) && Closed(g, visited') && Members(comp) <= g.Keys
  {
    hide Frontier, Reachable, Mutual, Closed, Distinct, Members, Sweeping, Everyone, Grown, IsComponent, Linked;
    comp := [];
    ghost var hops: map<nat, nat>, all := map[id := 0], Everyone(g) + {id};
    var q := [id];
    visited' := visited + {id};
    SweepStart(g, id, visited, all);
    while q != []
      invariant Sweeping(g, id, visited, all, hops, comp, q, visited')
      invariant |hops| <= |all|
      decreases |all| - |hops| + |q|
    {
      SweepTake(g, id, visited, all, hops, comp, q, visited');
      ghost var before, was, seen := hops, q, visited';
      var c := q[0];
      hops, q, visited' := ComponentExpand(g, id, c, visited, hops, q[1..], visited', all);
      SweepStep(g, id, visited, all, before, comp, was, seen, hops, q, visited');
      comp := comp + [c];
    }
    SweepEnd(g, id, visited, all, hops, comp, visited');
  }

  /** Where a sweep through one component stands: `closed` was visited before it began. */
  ghost predicate Sweeping(
    g: Graph, id: nat, closed: set<nat>, all: set<nat>, hops: map<nat, nat>, comp: seq<nat>, q: seq<nat>,
    visited: set<nat>)
  {
    && Frontier(g, id, Unlimited, hops, q) && hops.Keys <= all && hops.Keys !! closed && visited == closed + hops.Keys
    && Dequeued(comp, q) && Members(comp) + Members(q) == hops.Keys
    && comp + q != [] && (comp + q)[0] == id
  }

  /** The expansion of the head of q: all its neighbours are reached now and the newly reached are queued. */
  ghost predicate Grown(g: Graph, hops: map<nat, nat>, q: seq<nat>, hops': map<nat, nat>, q': seq<nat>)
    requires q != []
  {
    && hops.Keys <= hops'.Keys && Out(g, q[0]) <= hops'.Keys
    && Members(q') == Members(q[1..]) + (hops'.Keys - hops.Keys) && |q'| - |q[1..]| == |hops'| - |hops|
  }

  lemma SweepStart(g: Graph, id: nat, closed: set<nat>, all: set<nat>)
    requires id in all && id !in closed
    ensures Sweeping(g, id, closed, all, map[id := 0], [], [id], closed + {id}) && |map[id := 0]| <= |all|
  {
    FrontierStart(g, id, Unlimited);
    FitsIn(map[id := 0], all);
  }

  lemma SweepTake(
    g: Graph, id: nat, closed: set<nat>, all: set<nat>, hops: map<nat, nat>, comp: seq<nat>, q: seq<nat>,
    visited: set<nat>)
    requires Sweeping(g, id, closed, all, hops, comp, q, visited) && q != []
    ensures q[0] in hops && q == [q[0]] + q[1..] && Frontier(g, id, Unlimited, hops, [q[0]] + q[1..])
    ensures hops.Keys <= all && hops.Keys !! closed && visited == closed + hops.Keys
  {
    hide Dequeued, Members, Frontier;
    QueueIsReached(g, id, Unlimited, hops, q);
  }

  lemma SweepStep(
    g: Graph, id: nat, closed: set<nat>, all: set<nat>, hops: map<nat, nat>, comp: seq<nat>, q: seq<nat>,
    visited: set<nat>, hops': map<nat, nat>, q': seq<nat>, visited': set<nat>)
    requires Sweeping(g, id, closed, all, hops, comp, q, visited) && q != []
    requires Grown(g, hops, q, hops', q') && hops'.Keys <= all && hops'.Keys !! closed
    requires visited' == closed + hops'.Keys && q[0] in hops' && Frontier(g, id, Unlimited, hops', [q[0]] + q')
    ensures Sweeping(g, id, closed, all, hops', comp + [q[0]], q', visited')
    ensures |hops'| <= |all| && |hops'| - |q'| == |hops| - |q| + 1
  {
    hide Dequeued, Members, Frontier, Distinct;
    QueueIsDistinct(g, id, Unlimited, hops, q);
    DequeueOne(comp, q);
    DequeueMore(comp + [q[0]], q[1..], q', hops.Keys, hops'.Keys);
    FrontierPop(g, id, Unlimited, hops', [q[0]] + q');
    assert ([q[0]] + q')[1..] == q';
    FitsIn(hops', all);
  }

  lemma SweepEnd(
    g: Graph, id: nat, closed: set<nat>, all: set<nat>, hops: map<nat, nat>, comp: seq<nat>, visited: set<nat>)
    requires Mutual(g) && id in g && Closed(g, closed) && Sweeping(g, id, closed, all, hops, comp, [], visited)
    ensures IsComponent(g, comp) && comp[0] == id && Members(comp) !! closed && Members(comp) <= g.Keys
    ensures visited == closed + Members(comp) && Closed(g, visited)
  {
    hide Mutual, Closed, Reachable, Frontier;
    FrontierDone(g, id, Unlimited, hops);
    assert comp + [] == comp;
    ComponentIs(g, id, comp, hops.Keys, []);
    StillClosed(g, closed, id, Members(comp));
    ReachedAreLive(g, id, Members(comp));
  }

  /** What has been taken off the queue and what is still on it: no repeats on either side or between them. */
  ghost predicate Dequeued(comp: seq<nat>, queue: seq<nat>) {
    Distinct(comp) && Members(comp) !! Members(queue)
  }

  lemma DequeueOne(comp: seq<nat>, queue: seq<nat>)
    requires Dequeued(comp, queue) && queue != [] && queue[0] !in queue[1..]
    requires Members(queue) == Members(queue[1..]) + {queue[0]}
    ensures Dequeued(comp + [queue[0]], queue[1..]) && Members(comp + [queue[0]]) == Members(comp) + {queue[0]}
    ensures queue[0] !in Members(queue[1..])
    ensures comp != [] ==> (comp + [queue[0]])[0] == comp[0]
  {
    assert queue[0] in Members(queue);
  }

  lemma DequeueMore(comp: seq<nat>, queue: seq<nat>, queue': seq<nat>, before: set<nat>, after: set<nat>)
    requires Dequeued(comp, queue) && Members(comp) + Members(queue) == before && before <= after
    requires Members(queue') == Members(queue) + (after - before)
    ensures Dequeued(comp, queue') && Members(comp) + Members(queue') == after
  {
  }

  lemma ComponentIs(g: Graph, id: nat, comp: seq<nat>, reached: set<nat>, queue: seq<nat>)
    requires Dequeued(comp, queue) && comp != [] && comp[0] == id && Members(comp) == reached
    requires forall v :: v in reached <==> Reachable(g, id, v)
    ensures IsComponent(g, comp)
  {
    forall v ensures v in comp <==> Reachable(g, id, v) {
      assert v in comp <==> v in Members(comp);
    }
  }

  /** All unvisited neighbours of the node just taken off the queue. */
  method ComponentExpand(
    g: Graph, ghost id: nat, c: nat, ghost closed: set<nat>, ghost hops: map<nat, nat>, queue: seq<nat>,
    visited: set<nat>, ghost all: set<nat>)
    returns (ghost hops': map<nat, nat>, q: seq<nat>, visited': set<nat>)
    requires Mutual(g) && Closed(g, closed) && id !in closed && c in hops && Frontier(g, id, Unlimited, hops, [c] + queue)
    requires hops.Keys <= all && Everyone(g) <= all && hops.Keys !! closed && visited == closed + hops.Keys
    ensures c in hops' && Frontier(g, id, Unlimited, hops', [c] + q) && hops'.Keys <= all
    ensures hops'.Keys !! closed && visited' == closed + hops'.Keys
    ensures Grown(g, hops, [c] + queue, hops', q)
  {
    hide Frontier, Mutual, Closed, Members, Reachable;
    hops', q, visited' := hops, queue, visited;
    var todo := if c in g then g[c] else {};
    while todo != {}
      invariant todo <= Out(g, c) && Out(g, c) - todo <= hops'.Keys
      invariant c in hops' && hops.Keys <= hops'.Keys <= all && Frontier(g, id, Unlimited, hops', [c] + q)
      invariant hops'.Keys !! closed && visited' == closed + hops'.Keys
      invariant Members(q) == Members(queue) + (hops'.Keys - hops.Keys) && |q| - |queue| == |hops'| - |hops|
    {
      var n :| n in todo;
      todo := todo - {n};
      NeighbourIsReachable(g, id, hops', [c] + q, n);
      ClosedElsewhere(g, closed, id, n);
      if n !in visited' {
        FrontierVisit(g, id, Unlimited, hops', [c] + q, n);
        assert [c] + q + [n] == [c] + (q + [n]);
        AppendedMembers(q, n);
        hops', q := hops'[n := hops'[c] + 1], q + [n];
        visited' := visited' + {n};
      }
    }
    assert ([c] + queue)[1..] == queue;
  }

  lemma QueueIsDistinct(g: Graph, s: nat, limit: Limit, hops: map<nat, nat>, queue: seq<nat>)
    requires Frontier(g, s, limit, hops, queue) && queue != []
    ensures queue[0] !in queue[1..] && Members(queue) == Members(queue[1..]) + {queue[0]} && Members(queue) <= hops.Keys
  {
    hide AtDistance, Ball, Expanded;
    assert queue == [queue[0]] + queue[1..];
  }

  lemma NeighbourIsReachable(g: Graph, s: nat, hops: map<nat, nat>, queue: seq<nat>, n: nat)
    requires Frontier(g, s, Unlimited, hops, queue) && queue != [] && n in Out(g, queue[0])
    ensures Reachable(g, s, n)
  {
    OneHopFurther(g, s, queue[0], n, hops[queue[0]]);
  }

  lemma ClosedElsewhere(g: Graph, visited: set<nat>, id: nat, n: nat)
    requires Mutual(g) && Closed(g, visited) && id !in visited && Reachable(g, id, n)
    ensures n !in visited
  {
    ReachableBack(g, id, n);
  }

  lemma StillClosed(g: Graph, visited: set<nat>, id: nat, comp: set<nat>)
    requires Mutual(g) && Closed(g, visited) && forall v :: v in comp <==> Reachable(g, id, v)
    ensures Closed(g, visited + comp)
  {
    forall a, b | a in comp && Reachable(g, a, b) ensures b in comp {
      ReachableThrough(g, id, a, b);
    }
  }

  lemma ReachedAreLive(g: Graph, id: nat, comp: set<nat>)
    requires Mutual(g) && id in g && forall v :: v in comp ==> Reachable(g, id, v)
    ensures comp <= g.Keys
  {
    forall v | v in comp ensures v in g {
      var d: nat :| v in Ball(g, id, d);
      BallIsLive(g, id, d);
    }
  }

  lemma {:induction false} BallIsLive(g: Graph, s: nat, d: nat)
    requires Mutual(g) && s in g
    ensures Ball(g, s, d) <= g.Keys
  {
    if d > 0 {
      BallIsLive(g, s, d - 1);
      forall v | v in Onward(g, Ball(g, s, d - 1)) ensures v in g {
        var u :| u in Ball(g, s, d - 1) && v in Out(g, u);
        assert Linked(g, u, v) && Linked(g, v, u);
      }
    }
  }

  /** Each part is a reachability class, no node is in two of them, and every node is in one. */
  ghost predicate Partition(g: Graph, comps: seq<seq<nat>>) {
    && (forall i :: 0 <= i < |comps| ==> IsComponent(g, comps[i]) && comps[i] != [] && comps[i][0] in g)
    && (forall i, j :: 0 <= i < j < |comps| ==> Members(comps[i]) !! Members(comps[j]))
    && (forall v :: v in g <==> exists i :: 0 <= i < |comps| && v in Members(comps[i]))
  }

  /** The components: each one a reachability class, no node in two of them, every node in one. */
  method FindComponents(g: Graph) returns (comps: seq<seq<nat>>)
    requires Mutual(g)
    ensures Partition(g, comps)
  {
    hide IsComponent, Closed, Mutual, Distinct, Members;
    comps := [];
    var visited: set<nat> := {};
    var todo := g.Keys;
    assert Closed(g, visited) by { NothingIsClosed(g); }
    while todo != {}
      invariant todo <= g.Keys && g.Keys - todo <= visited <= g.Keys && Closed(g, visited)
      invariant forall i :: 0 <= i < |comps| ==> IsComponent(g, comps[i]) && comps[i] != [] && comps[i][0] in g
      invariant forall i, j :: 0 <= i < j < |comps| ==> Members(comps[i]) !! Members(comps[j])
      invariant forall v :: v in visited <==> exists i :: 0 <= i < |comps| && v in Members(comps[i])
    {
      var id :| id in todo;
      todo := todo - {id};
      if id !in visited {
        ghost var before, earlier := visited, comps;
        var comp;
        comp, visited := Component(g, id, visited);
        ComponentStart(g, comp);
        forall i | 0 <= i < |comps| ensures Members(comps[i]) !! Members(comp) {
          assert Members(comps[i]) <= before;
        }
        comps := comps + [comp];
        assert comps[|comps| - 1] == comp;
        assert forall i :: 0 <= i < |earlier| ==> comps[i] == earlier[i];
      }
    }
    assert visited == g.Keys;
  }

  lemma NothingIsClosed(g: Graph)
    ensures Closed(g, {})
  {
  }

  lemma ComponentStart(g: Graph, comp: seq<nat>)
    requires IsComponent(g, comp)
    ensures comp != [] && comp[0] in Members(comp)
  {
  }

  /** A graph is connected exactly when it has at most one component. */
  lemma ConnectedIffOneComponent(g: Graph, comps: seq<seq<nat>>)
    requires Mutual(g) && Partition(g, comps)
    ensures Connected(g) <==> |comps| <= 1
  {
    hide Ball, Reachable, Mutual, Distinct;
    if |comps| >= 2 {
      TwoComponentsApart(g, comps);
    } else if |comps| == 1 {
      ComponentStart(g, comps[0]);
      forall v | v in g ensures Reachable(g, comps[0][0], v) {
        assert v in Members(comps[0]);
      }
      OneSourceSuffices(g, comps[0][0]);
    }
  }

  lemma TwoComponentsApart(g: Graph, comps: seq<seq<nat>>)
    requires Partition(g, comps) && |comps| >= 2
    ensures !Connected(g)
  {
    hide Ball, Reachable, Distinct;
    var a, b := comps[0][0], comps[1][0];
    assert IsComponent(g, comps[0]) && IsComponent(g, comps[1]);
    ComponentStart(g, comps[1]);
    assert Members(comps[0]) !! Members(comps[1]);
    assert b !in comps[0];
    assert !Reachable(g, a, b);
  }

  /** Ring-local links carry h places per hop: whatever is at most d * h places clockwise is at most d hops away. */
  lemma {:induction false} RingStride(g: Graph, s: seq<nat>, h: nat, i: nat, j: nat, d: nat)
    requires Distinct(s) && 1 <= h && RingLinked(g, s, h) && i < |s| && j < |s| && Steps(|s|, i, j) <= d * h
    ensures s[j] in Ball(g, s[i], d)
    decreases d
  {
    hide Ball, Index;
    if i == j {
      BallZero(g, s[i]);
      BallGrows(g, s[i], 0, d);
    } else {
      assert d * h == (d - 1) * h + h;
      var p := if Steps(|s|, i, j) <= h then i else if h <= j then j - h else j - h + |s|;
      RingStride(g, s, h, i, p, d - 1);
      IndexOfDistinct(s, p);
      IndexOfDistinct(s, j);
      assert Near(s, h, s[p], s[j]);
      OneHopFurther(g, s[i], s[p], s[j], d - 1);
    }
  }

  /** Going the shorter way round, a ring of at most 2 * d * h + 1 nodes is covered in d hops. */
  lemma RingWithinHops(g: Graph, key: Keys, h: nat, d: nat, a: nat, b: nat)
    requires Mutual(g) && 1 <= h && RingLinked(g, Order(key), h) && a in key && b in key && |key| <= 2 * (d * h) + 1
    ensures b in Ball(g, a, d)
  {
    hide Ball, Order, Mutual, RingLinked;
    var s := Order(key);
    OrderMembers(key);
    var i, j := Index(s, a), Index(s, b);
    if Steps(|s|, i, j) <= d * h {
      RingStride(g, s, h, i, j, d);
    } else {
      RingStride(g, s, h, j, i, d);
      BallIsSymmetric(g, b, a, d);
    }
  }

  lemma StrideCovers(d: nat, h: nat)
    requires 1 <= h
    ensures d <= d * h
  {
    assert d * h == d + d * (h - 1);
  }

  lemma RingLinkedIsConnected(g: Graph, key: Keys, h: nat)
    requires g.Keys == key.Keys && 1 <= h && RingLinked(g, Order(key), h)
    ensures Connected(g)
  {
    hide Ball, Order, IsOrder, RingLinked, Distinct, Index, Steps, Near;
    var s := Order(key);
    OrderMembers(key);
    forall a, b | a in g && b in g ensures Reachable(g, a, b) {
      var i, j := Index(s, a), Index(s, b);
      var d := Steps(|s|, i, j);
      StrideCovers(d, h);
      RingStride(g, s, h, i, j, d);
    }
  }
}
