/**
 * The capped ring mesh whose nodes subscribe to zones: the ring-local links of the gossip mesh, the other links filled
 * with nodes that share zones, and gossip that stays inside a zone.
 */
module ZoneMesh {
  import opened Sets
  import opened StableOrder
  import opened Ring
  import opened Links
  import opened Search
  import opened CappedMesh
  import opened MailboxStore

  ghost predicate Registered(ids: set<nat>, zones: map<nat, set<nat>>, nextId: nat) {
    zones.Keys == ids && forall id :: id in ids ==> id < nextId
  }

  lemma RegisterNode(ids: set<nat>, zones: map<nat, set<nat>>, id: nat, z: set<nat>)
    requires Registered(ids, zones, id)
    ensures id !in ids && Registered(ids + {id}, zones[id := z], id + 1)
  {
  }

  lemma UnregisterNode(ids: set<nat>, zones: map<nat, set<nat>>, next: nat, id: nat)
    requires Registered(ids, zones, next)
    ensures Registered(ids - {id}, zones - {id}, next)
    ensures id !in ids ==> zones - {id} == zones
  {
    if id !in ids { assert zones - {id} == zones; }
  }

  /** Those with a zone in common, the more in common the earlier. */
  function ByShared(g: Graph, ids: set<nat>, zones: map<nat, set<nat>>, id: nat, cap: nat): Keys
    requires id in g && id in zones
  {
    map x | x in Free(g, ids, id, cap) && x in zones && zones[id] * zones[x] != {} :: -(|zones[id] * zones[x]| as real)
  }

  /** The free slots of a node go to zone mates, then to random far nodes. */
  ghost predicate IsFill(
    g: Graph, g': Graph, position: map<nat, real>, zones: map<nat, set<nat>>, id: nat, cap: nat, far: set<nat>)
  {
    && id in g && id in position && id in zones && |g[id]| <= cap
    && var slots := cap - |g[id]|;
    var mates := Members(Nearest(ByShared(g, position.Keys, zones, id, cap), slots));
    var g1 := AddLinks(g, id, mates);
    && |mates| <= slots && IsFarChoice(g1, position, id, cap, far, slots - |mates|) && g' == AddLinks(g1, id, far)
  }

  /** One node repaired: all its ring-local links, then zone mates and far nodes in its free slots. */
  ghost predicate NodeRepaired(
    g: Graph, g': Graph, position: map<nat, real>, zones: map<nat, set<nat>>, h: nat, cap: nat, id: nat)
  {
    exists local: Graph, far: set<nat> ::
      && Repairs(g, local, Order(position), h, cap) && IsFill(local, g', position, zones, id, cap, far)
      && HasLocals(local, Order(position), h, cap, id)
  }

  /** The nodes in some order, repaired one after the other. */
  ghost predicate IsRepairRun(
    states: seq<Graph>, order: seq<nat>, position: map<nat, real>, zones: map<nat, set<nat>>, h: nat, cap: nat)
  {
    && |states| == |order| + 1 && Distinct(order)
    && forall i :: 0 <= i < |order| ==> NodeRepaired(states[i], states[i + 1], position, zones, h, cap, order[i])
  }

  lemma NoRepairs(g: Graph, position: map<nat, real>, zones: map<nat, set<nat>>, h: nat, cap: nat)
    ensures IsRepairRun([g], [], position, zones, h, cap) && Members([]) == {}
  {
  }

  lemma OneMoreRepaired(
    states: seq<Graph>, order: seq<nat>, position: map<nat, real>, zones: map<nat, set<nat>>, h: nat, cap: nat, id: nat,
    local: Graph, far: set<nat>, g': Graph)
    requires IsRepairRun(states, order, position, zones, h, cap) && id !in Members(order)
    requires Repairs(states[|order|], local, Order(position), h, cap) && IsFill(local, g', position, zones, id, cap, far)
    requires HasLocals(local, Order(position), h, cap, id)
    ensures IsRepairRun(states + [g'], order + [id], position, zones, h, cap)
  {
    hide Order, Repairs, HasLocals, IsFill;
    var g := states[|order|];
    assert NodeRepaired(g, g', position, zones, h, cap, id);
    var more, ids := states + [g'], order + [id];
    forall i | 0 <= i < |ids| ensures NodeRepaired(more[i], more[i + 1], position, zones, h, cap, ids[i]) {
      if i < |order| { assert NodeRepaired(states[i], states[i + 1], position, zones, h, cap, order[i]); }
    }
  }

  /** The links along which a packet of a zone travels: into members of the zone only. */
  function ZoneGraph(g: Graph, zones: map<nat, set<nat>>, zone: nat): Graph {
    map u | u in g :: set v | v in g[u] && v in zones && zone in zones[v]
  }

  datatype ZoneReach = ZoneReach(totalInZone: nat, reached: nat, reachRate: real, maxHops: nat, relays: nat)

  /** The nodes of a zone. */
  function InZone(zones: map<nat, set<nat>>, zone: nat): set<nat> {
    set id | id in zones && zone in zones[id]
  }

  /** What zoneGossip counts as reached: everyone the packet got to, but for an author from outside the zone. */
  function Reached(seen: nat, authorInZone: bool): int {
    seen - (if authorInZone then 0 else 1)
  }

  /** What it expects: everyone in the zone but the author. */
  function Expected(members: nat, authorInZone: bool): int {
    members - (if authorInZone then 1 else 0)
  }

  /** The rate it returns, one if nobody is expected. */
  function ReachRate(seen: nat, members: nat, authorInZone: bool): real {
    if Expected(members, authorInZone) > 0
    then Reached(seen, authorInZone) as real / Expected(members, authorInZone) as real else 1.0
  }

  class ZoneRingMesh {
    const ring: CappedRing
    var nextId: nat
    var zones: map<nat, set<nat>>

    constructor (ringLocal: nat, maxDegree: nat)
      ensures fresh(ring) && ring.localLinks == ringLocal && ring.maxDegree == maxDegree
      ensures Valid() && ring.RingIntact() && ring.position == map[] && nextId == 0
    {
      ring := new CappedRing(ringLocal, maxDegree);
      nextId, zones := 0, map[];
    }

    ghost predicate Valid()
      reads this, ring
    {
      ring.Valid() && Registered(ring.position.Keys, zones, nextId)
    }

    /** Strangers with a free slot and a zone in common, the more in common the earlier. */
    method ZoneMates(id: nat) returns (key: Keys)
      requires id in zones && id in ring.neighbors
      ensures key == ByShared(ring.neighbors, ring.position.Keys, zones, id, ring.maxDegree)
    {
      key := map x | x in ring.position.Keys && x != id && x in zones && x in ring.neighbors && x !in ring.neighbors[id]
        && |ring.neighbors[x]| < ring.maxDegree && |zones[id] * zones[x]| > 0 :: 0.0 - |zones[id] * zones[x]| as real;
    }

    /** Zone mates first, the closest ones by shared zones; then random nodes from far away, while slots are left. */
    method FillZoneConnections(id: nat) returns (ghost far: set<nat>)
      requires Valid() && id in ring.position && id in ring.neighbors && |ring.neighbors[id]| <= ring.maxDegree
      modifies ring`neighbors
      ensures Valid() && KeepsNear(old(ring.neighbors), ring.neighbors, Order(ring.position), ring.Half())
      ensures IsFill(old(ring.neighbors), ring.neighbors, ring.position, zones, id, ring.maxDegree, far)
    {
      hide Registered, Near, Order, IsOrder, HalfOf, KeepsNear, MeshOk, AddLinks, Free, RingDist, Far, IsFarChoice,
        ByShared, Members;
      ghost var g, s, h := ring.neighbors, Order(ring.position), ring.Half();
      HasZones(ring.position.Keys, zones, nextId, id);
      var remaining := ring.maxDegree - ring.Degree(id);
      var byShared := ZoneMates(id);
      var candidates := Sort(byShared);
      var mates := if remaining <= |candidates| then candidates[..remaining] else candidates;
      MatesAreFree(g, ring.position.Keys, zones, id, ring.maxDegree, remaining);
      ring.LinkFree(id, Members(mates));
      ghost var g1 := ring.neighbors;
      far := ring.FillFar(id, remaining - |mates|);
      KeepsNearTwice(g, g1, ring.neighbors, s, h);
    }

    /** Ring-local links first, then zone mates and far nodes. */
    method LinkNode(id: nat) returns (ghost local: Graph, ghost far: set<nat>)
      requires Valid() && id in ring.position
      modifies ring`neighbors
      ensures Valid() && KeepsNear(old(ring.neighbors), ring.neighbors, Order(ring.position), ring.Half())
      ensures Repairs(old(ring.neighbors), local, Order(ring.position), ring.Half(), ring.maxDegree)
      ensures IsFill(local, ring.neighbors, ring.position, zones, id, ring.maxDegree, far)
      ensures HasLocals(local, Order(ring.position), ring.Half(), ring.maxDegree, id)
      ensures HasLocals(ring.neighbors, Order(ring.position), ring.Half(), ring.maxDegree, id)
    {
      hide Registered, Near, Order, IsOrder, HalfOf, KeepsNear, Repairs, MeshOk, IsFill, HasLocals, Locals;
      ghost var s, h, g := Order(ring.position), ring.Half(), ring.neighbors;
      ring.LinkLocals(id);
      local := ring.neighbors;
      MeshIds(local, ring.position.Keys, ring.maxDegree);
      far := FillZoneConnections(id);
      RepairsKeep(g, local, s, h, ring.maxDegree);
      KeepsNearTwice(g, local, ring.neighbors, s, h);
      HasLocalsKept(local, ring.neighbors, s, h, ring.position.Keys, ring.maxDegree, id);
    }

    /** A node joins; the very first has nobody to link to. */
    method AddNode(place: real, subscribed: set<nat>) returns (id: nat, ghost local: Graph, ghost far: set<nat>)
      requires Valid()
      modifies ring, this`nextId, this`zones
      ensures Valid() && id == old(nextId) && nextId == id + 1
      ensures ring.position == old(ring.position)[id := place] && zones == old(zones)[id := subscribed]
      ensures Repairs(old(ring.neighbors)[id := {}], local, Order(ring.position), ring.Half(), ring.maxDegree)
      ensures IsFill(local, ring.neighbors, ring.position, zones, id, ring.maxDegree, far)
      ensures HasLocals(ring.neighbors, Order(ring.position), ring.Half(), ring.maxDegree, id)
      ensures ring.Roomy() ==> LinkedToAll(ring.neighbors, id, Locals(Order(ring.position), ring.Half(), id))
      ensures ring.Roomy() && old(ring.RingIntact()) ==> ring.RingIntact()
    {
      hide Distinct, LinkedToAll, Registered, Near, Order, IsOrder, HalfOf, KeepsNear, Repairs, MeshOk, Mutual,
        AddLinks, IsFill, Free, HasLocals, RingLinked, Locals;
      ghost var key, g := ring.position, ring.neighbors;
      id := nextId;
      RegisterNode(ring.position.Keys, zones, id, subscribed);
      ring.Enter(id, place);
      assert ring.position.Keys == key.Keys + {id};
      nextId, zones := nextId + 1, zones[id := subscribed];
      ghost var g0 := ring.neighbors;
      local, far := g0, {};
      if |ring.position| <= 1 {
        RepairsNothing(g0, Order(ring.position), ring.Half(), ring.maxDegree);
        NothingLost(g0, Order(ring.position), ring.Half());
        MeshIds(g0, ring.position.Keys, ring.maxDegree);
        LonelyNode(ring.position, id, g0, ring.Half());
        NothingToFill(g0, ring.position, zones, id, ring.maxDegree);
      } else {
        local, far := LinkNode(id);
      }
      if ring.Roomy() {
        OrderIsDistinct(ring.position, Order(ring.position));
        AllLocalsIfRoomy(
          ring.neighbors, Order(ring.position), ring.Half(), ring.position.Keys, ring.maxDegree, id);
      }
      if ring.Roomy() && RingLinked(g, Order(key), ring.Half()) {
        MeshIsMutual(ring.neighbors, ring.position.Keys, ring.maxDegree);
        RingAfterAdd(key, ring.Half(), id, place, g, ring.neighbors);
      }
    }

    /** A node leaves, and its ring-local nodes link up again. */
    method RemoveNode(id: nat)
      requires Valid()
      modifies ring, this`zones
      ensures Valid() && ring.position == old(ring.position) - {id} && zones == old(zones) - {id}
      ensures Repairs(DropNode(old(ring.neighbors), id), ring.neighbors, Order(ring.position), ring.Half(), ring.maxDegree)
      ensures HaveLocals(ring.neighbors, ring.position, ring.Half(), ring.maxDegree,
        Locals(old(Order(ring.position)), ring.Half(), id))
      ensures ring.Roomy() && old(ring.RingIntact()) ==> ring.RingIntact()
    {
      hide HaveLocals, Registered, Near, Order, IsOrder, HalfOf, KeepsNear, Repairs, MeshOk, RingLinked, Repaired,
        Locals, DropNode;
      ghost var key, g, h := ring.position, ring.neighbors, ring.Half();
      UnregisterNode(key.Keys, zones, nextId, id);
      if id !in ring.position {
        assert key - {id} == key;
        DropUnknown(g, key.Keys, ring.maxDegree, id);
        RepairsNothing(g, Order(key), h, ring.maxDegree);
        NoLocalsOfUnknown(g, ring.position, h, h, ring.maxDegree, id);
        return;
      }
      var repair := LocalNodes(ring.position, ring.Half(), id);
      ring.Forget(id);
      assert ring.position.Keys == key.Keys - {id};
      zones := zones - {id};
      var list := Listed(repair);
      ring.RepairEach(list);
      RepairsKeep(DropNode(g, id), ring.neighbors, Order(ring.position), h, ring.maxDegree);
      if ring.Roomy() && RingLinked(g, Order(key), h) {
        RepairedIfRoomy(ring.neighbors, ring.position, h, ring.maxDegree, Members(list));
        RingAfterRemove(key, h, id, g, ring.neighbors, Members(list));
      }
    }

    /** The members of a set, one after the other. */
    method Listed(ids: set<nat>) returns (list: seq<nat>)
      ensures Members(list) == ids
    {
      list := [];
      var left := ids;
      while left != {}
        invariant left <= ids && Members(list) == ids - left
      {
        var x :| x in left;
        AppendedMembers(list, x);
        list, left := list + [x], left - {x};
      }
    }

    /** Every node in turn; `states` are the links before the first turn and after each. */
    method RepairAll() returns (ghost order: seq<nat>, ghost states: seq<Graph>)
      requires Valid()
      modifies ring`neighbors
      ensures Valid() && KeepsNear(old(ring.neighbors), ring.neighbors, Order(ring.position), ring.Half())
      ensures Members(order) == ring.position.Keys
      ensures HaveLocals(ring.neighbors, ring.position, ring.Half(), ring.maxDegree, ring.position.Keys)
      ensures IsRepairRun(states, order, ring.position, zones, ring.Half(), ring.maxDegree)
      ensures states[0] == old(ring.neighbors) && states[|order|] == ring.neighbors
      ensures ring.Roomy() ==> ring.RingIntact()
    {
      hide HaveLocals, Registered, Near, Order, IsOrder, HalfOf, KeepsNear, Repairs, MeshOk, IsFill, HasLocals,
        RingLinked, Locals, Distinct, NodeRepaired, AddLinks, IsRepairRun, Members;
      ghost var s, h, ids, g0, cap := Order(ring.position), ring.Half(), ring.position.Keys, ring.neighbors, ring.maxDegree;
      order, states := [], [g0];
      NobodyHasLocals(g0, ring.position, h, cap);
      NoRepairs(g0, ring.position, zones, h, cap);
      var todo := ring.position.Keys;
      NothingLost(g0, s, h);
      while todo != {}
        invariant Valid() && todo <= ids && KeepsNear(g0, ring.neighbors, s, h) && Members(order) == ids - todo
        invariant IsRepairRun(states, order, ring.position, zones, h, cap) && |states| == |order| + 1
        invariant states[0] == g0 && states[|order|] == ring.neighbors
        invariant HaveLocals(ring.neighbors, ring.position, h, cap, Members(order))
      {
        var id :| id in todo;
        ghost var g := ring.neighbors;
        ghost var local, far := LinkNode(id);
        KeepsNearTwice(g0, g, ring.neighbors, s, h);
        OneMoreRepaired(states, order, ring.position, zones, h, cap, id, local, far, ring.neighbors);
        HaveLocalsKept(g, ring.neighbors, ring.position, h, cap, Members(order));
        OneMoreHasLocals(ring.neighbors, ring.position, h, cap, Members(order), id);
        AppendedMembers(order, id);
        order, states := order + [id], states + [ring.neighbors];
        todo := todo - {id};
      }
      assert Members(order) == ring.position.Keys;
      if ring.Roomy() {
        RepairedIfRoomy(ring.neighbors, ring.position, h, cap, ring.position.Keys);
        AllRepairedIsIntact(ring.position, h, ring.neighbors);
      }
    }

    /** A packet of a zone spreads breadth-first among the members of the zone. */
    method ZoneGossip(authorId: nat, zoneId: nat) returns (r: ZoneReach, seen: map<nat, nat>)
      requires Valid()
      ensures var members := InZone(zones, zoneId);
        && r.totalInZone == |members|
        && (members == {} ==> r == ZoneReach(0, 0, 1.0, 0, 0))
        && (members != {} ==>
              && (forall v :: v in seen <==> Reachable(ZoneGraph(ring.neighbors, zones, zoneId), authorId, v))
              && (forall v :: v in seen ==> AtDistance(ZoneGraph(ring.neighbors, zones, zoneId), authorId, v, seen[v]))
              && r.relays == |seen| - 1 && IsMaximum(seen, r.maxHops)
              && r.reached == Reached(|seen|, authorId in members)
              && r.reachRate == ReachRate(|seen|, |members|, authorId in members)
              && SpreadInZone(ring.neighbors, zones, zoneId, authorId, seen))
    {
      hide Registered, MeshOk, Reachable, AtDistance, InZone, SpreadInZone, CountsHops;
      var members := ZoneMembers(zoneId);
      seen := map[];
      if members == {} { return ZoneReach(0, 0, 1.0, 0, 0), seen; }
      var dist := Bfs(ZoneGraph(ring.neighbors, zones, zoneId), authorId);
      ReachableSelf(ZoneGraph(ring.neighbors, zones, zoneId), authorId);
      AuthorCounts(dist, authorId);
      var maxHops := LargestHops(dist);
      seen := dist;
      CountedInZone(ring.neighbors, zones, zoneId, authorId, seen);
      var own := if authorId in members then 1 else 0;
      var reached, expectedReach := |dist| - (1 - own), |members| - own;
      var rate := if expectedReach > 0 then reached as real / expectedReach as real else 1.0;
      r := ZoneReach(|members|, reached, rate, maxHops, |dist| - 1);
    }

    method ZoneMembers(zoneId: nat) returns (members: set<nat>)
      ensures members == InZone(zones, zoneId)
    {
      members := set id | id in zones && zoneId in zones[id];
    }
  }

  lemma NothingToFill(g: Graph, position: map<nat, real>, zones: map<nat, set<nat>>, id: nat, cap: nat)
    requires id in g && id in position && id in zones && g[id] == {} && Free(g, position.Keys, id, cap) == {}
    requires AddLinks(g, id, {}) == g
    ensures IsFill(g, g, position, zones, id, cap, {})
  {
    hide AddLinks, Order;
    FarAreFree(g, position, id, cap);
    assert ByShared(g, position.Keys, zones, id, cap).Keys == {};
    MatesAreFree(g, position.Keys, zones, id, cap, cap);
    assert Members(Nearest(ByShared(g, position.Keys, zones, id, cap), cap)) == {};
  }

  /**
   * The packet gets from the author to members of the zone only, each one hop farther than some neighbour it reached,
   * and from everyone it reached to every neighbour in the zone, at most one hop later.
   */
  ghost predicate SpreadInZone(g: Graph, zones: map<nat, set<nat>>, zone: nat, author: nat, seen: map<nat, nat>) {
    && author in seen && seen[author] == 0
    && (forall v :: v in seen && v != author ==> v in zones && zone in zones[v] && CameBy(g, seen, v))
    && (forall u :: u in seen ==> WentOn(g, zones, zone, seen, u))
  }

  ghost predicate WentOn(g: Graph, zones: map<nat, set<nat>>, zone: nat, seen: map<nat, nat>, u: nat)
    requires u in seen
  {
    forall v :: Linked(g, u, v) && v in zones && zone in zones[v] ==> v in seen && seen[v] <= seen[u] + 1
  }

  lemma CountedInZone(g: Graph, zones: map<nat, set<nat>>, zone: nat, author: nat, seen: map<nat, nat>)
    requires CountsHops(ZoneGraph(g, zones, zone), author, seen)
    ensures SpreadInZone(g, zones, zone, author, seen)
  {
    hide ZoneGraph, CountsHops, CameBy, WentOn;
    CountsFromZero(ZoneGraph(g, zones, zone), author, seen);
    forall v | v in seen && v != author ensures v in zones && zone in zones[v] && CameBy(g, seen, v) {
      CameFrom(g, zones, zone, author, seen, v);
    }
    forall u | u in seen ensures WentOn(g, zones, zone, seen, u) {
      GoesOn(g, zones, zone, author, seen, u);
    }
  }

  lemma CountsFromZero(g: Graph, author: nat, seen: map<nat, nat>)
    requires CountsHops(g, author, seen)
    ensures author in seen && seen[author] == 0
  {
  }

  lemma CameFrom(g: Graph, zones: map<nat, set<nat>>, zone: nat, author: nat, seen: map<nat, nat>, v: nat)
    requires CountsHops(ZoneGraph(g, zones, zone), author, seen) && v in seen && v != author
    ensures v in zones && zone in zones[v] && CameBy(g, seen, v)
  {
    hide ZoneGraph, Linked;
    var u :| u in seen && Linked(ZoneGraph(g, zones, zone), u, v) && seen[v] == seen[u] + 1;
    ZoneLink(g, zones, zone, u, v);
  }

  lemma GoesOn(g: Graph, zones: map<nat, set<nat>>, zone: nat, author: nat, seen: map<nat, nat>, u: nat)
    requires CountsHops(ZoneGraph(g, zones, zone), author, seen) && u in seen
    ensures WentOn(g, zones, zone, seen, u)
  {
    hide ZoneGraph, Linked;
    forall v | Linked(g, u, v) && v in zones && zone in zones[v] ensures v in seen && seen[v] <= seen[u] + 1 {
      ZoneLink(g, zones, zone, u, v);
    }
  }

  lemma ZoneLink(g: Graph, zones: map<nat, set<nat>>, zone: nat, u: nat, v: nat)
    ensures Linked(ZoneGraph(g, zones, zone), u, v) <==> Linked(g, u, v) && v in zones && zone in zones[v]
  {
  }

  ghost predicate IsMaximum(hops: map<nat, nat>, max: nat) {
    (forall v :: v in hops ==> hops[v] <= max) && exists v :: v in hops && hops[v] == max
  }

  method LargestHops(hops: map<nat, nat>) returns (max: nat)
    requires hops.Keys != {}
    ensures IsMaximum(hops, max)
  {
    var first :| first in hops;
    max := hops[first];
    var left := hops.Keys;
    while left != {}
      invariant left <= hops.Keys && forall v :: v in hops && v !in left ==> hops[v] <= max
      invariant exists v :: v in hops && hops[v] == max
    {
      var v :| v in left;
      if hops[v] > max { max := hops[v]; }
      left := left - {v};
    }
  }

  lemma AuthorCounts(dist: map<nat, nat>, author: nat)
    requires author in dist
    ensures |dist| >= 1 && dist.Keys != {}
  {
    assert |dist| == |dist.Keys|;
    SubsetSize({author}, dist.Keys);
  }

  lemma HasZones(ids: set<nat>, zones: map<nat, set<nat>>, next: nat, id: nat)
    requires Registered(ids, zones, next) && id in ids
    ensures id in zones
  {
  }

  /** The chosen zone mates are strangers with a free slot, and as many as fit. */
  lemma MatesAreFree(g: Graph, ids: set<nat>, zones: map<nat, set<nat>>, id: nat, cap: nat, slots: nat)
    requires id in g && id in zones
    ensures var mates := Nearest(ByShared(g, ids, zones, id, cap), slots);
      Members(mates) <= Free(g, ids, id, cap) && |Members(mates)| == |mates| <= slots
  {
    hide Nearest, Free;
    var key := ByShared(g, ids, zones, id, cap);
    var mates := Nearest(key, slots);
    NearestIsDistinct(key, slots);
    PrefixSize(mates, |mates|);
    assert mates[..|mates|] == mates;
  }

  /** No zone mate is passed over for one with fewer zones in common. */
  lemma CloserMatesFirst(g: Graph, ids: set<nat>, zones: map<nat, set<nat>>, id: nat, cap: nat, slots: nat, a: nat, b: nat)
    requires id in g && id in zones && a in zones && b in zones
    requires a in ByShared(g, ids, zones, id, cap) && b in ByShared(g, ids, zones, id, cap)
    requires a in Nearest(ByShared(g, ids, zones, id, cap), slots) && b !in Nearest(ByShared(g, ids, zones, id, cap), slots)
    ensures |zones[id] * zones[b]| <= |zones[id] * zones[a]|
  {
    hide Nearest, Free;
    var key := ByShared(g, ids, zones, id, cap);
    NearestIff(key, slots, a);
    NearestIff(key, slots, b);
    if key[b] < key[a] {
      SubsetSize(set x | x in key && StableOrder.Before(key, x, b), set x | x in key && StableOrder.Before(key, x, a));
    }
  }

  /** A packet never gets outside the zone. */
  lemma SeenAreMembers(g: Graph, zones: map<nat, set<nat>>, zone: nat, author: nat, seen: map<nat, nat>)
    requires forall v :: v in seen <==> Reachable(ZoneGraph(g, zones, zone), author, v)
    ensures author in seen && seen.Keys <= InZone(zones, zone) + {author}
  {
    var zg := ZoneGraph(g, zones, zone);
    ReachableSelf(zg, author);
    forall v | v in seen && v != author ensures v in InZone(zones, zone) {
      assert Reachable(zg, author, v);
      var d :| v in Ball(zg, author, d);
      BallInZone(g, zones, zone, author, d);
    }
  }

  lemma {:induction false} BallInZone(g: Graph, zones: map<nat, set<nat>>, zone: nat, author: nat, d: nat)
    ensures forall v :: v in Ball(ZoneGraph(g, zones, zone), author, d) && v != author ==> v in InZone(zones, zone)
  {
    if d > 0 { BallInZone(g, zones, zone, author, d - 1); }
  }

  /**
   * The rate counts an author from the zone among the reached but not among the expected. So it exceeds one exactly
   * when the author is a member with company and every member was reached; otherwise it is at most one.
   */
  lemma RateExceedsOneIff(g: Graph, zones: map<nat, set<nat>>, zone: nat, author: nat, seen: map<nat, nat>)
    requires forall v :: v in seen <==> Reachable(ZoneGraph(g, zones, zone), author, v)
    ensures var members := InZone(zones, zone);
      ReachRate(|seen|, |members|, author in members) > 1.0
      <==> author in members && |members| >= 2 && forall v :: v in members ==> Reachable(ZoneGraph(g, zones, zone), author, v)
  {
    hide Reachable, InZone;
    var members := InZone(zones, zone);
    SeenSizes(g, zones, zone, author, seen);
    var r, e := Reached(|seen|, author in members), Expected(|members|, author in members);
    if e > 0 { QuotientAboveOne(r, e); }
    assert members <= seen.Keys <==> forall v :: v in members ==> v in seen;
  }

  /** For an author from outside it is one exactly if every member was reached. */
  lemma OutsiderRateIsOneIff(g: Graph, zones: map<nat, set<nat>>, zone: nat, author: nat, seen: map<nat, nat>)
    requires forall v :: v in seen <==> Reachable(ZoneGraph(g, zones, zone), author, v)
    requires author !in InZone(zones, zone)
    ensures ReachRate(|seen|, |InZone(zones, zone)|, false) == 1.0
      <==> forall v :: v in InZone(zones, zone) ==> Reachable(ZoneGraph(g, zones, zone), author, v)
  {
    hide Reachable, InZone;
    var members := InZone(zones, zone);
    SeenSizes(g, zones, zone, author, seen);
    if |members| > 0 { QuotientAboveOne(|seen| - 1, |members|); }
    assert members <= seen.Keys <==> forall v :: v in members ==> v in seen;
  }

  lemma SeenSizes(g: Graph, zones: map<nat, set<nat>>, zone: nat, author: nat, seen: map<nat, nat>)
    requires forall v :: v in seen <==> Reachable(ZoneGraph(g, zones, zone), author, v)
    ensures var members := InZone(zones, zone);
      var most := |members| + if author in members then 0 else 1;
      1 <= |seen| <= most && (|seen| == most <==> members <= seen.Keys)
  {
    hide Reachable, InZone;
    var members := InZone(zones, zone);
    SeenAreMembers(g, zones, zone, author, seen);
    assert |seen| == |seen.Keys|;
    SubsetSize({author}, seen.Keys);
    SubsetSize(seen.Keys, members + {author});
    assert |members + {author}| == |members| + if author in members then 0 else 1 by {
      if author in members { assert members + {author} == members; }
    }
    if members <= seen.Keys { assert seen.Keys == members + {author}; }
  }

  lemma QuotientAboveOne(r: int, e: int)
    requires e > 0
    ensures r as real / e as real > 1.0 <==> r > e
    ensures r as real / e as real == 1.0 <==> r == e
  {
    var q := r as real / e as real;
    assert q * e as real == r as real;
    if q > 1.0 {
      assert q * e as real > e as real;
    } else {
      assert q * e as real <= e as real;
    }
  }

  /** Two linked members of a zone: the rate is two. */
  lemma PairReachesTwice(zone: nat, seen: map<nat, nat>)
    requires var g, zones: map<nat, set<nat>> := map[0 := {1}, 1 := {0}], map[0 := {zone}, 1 := {zone}];
      forall v :: v in seen <==> Reachable(ZoneGraph(g, zones, zone), 0, v)
    ensures ReachRate(|seen|, |InZone(map[0 := {zone}, 1 := {zone}], zone)|, true) == 2.0
  {
    hide Ball;
    var g, zones: map<nat, set<nat>> := map[0 := {1}, 1 := {0}], map[0 := {zone}, 1 := {zone}];
    var zg := ZoneGraph(g, zones, zone);
    assert zg[0] == {1};
    ReachableSelf(zg, 0);
    Neighbour(zg, 0, 1);
    assert InZone(zones, zone) == {0, 1};
    SeenSizes(g, zones, zone, 0, seen);
  }

  lemma Neighbour(g: Graph, a: nat, b: nat)
    requires a in g && b in g[a]
    ensures Reachable(g, a, b)
  {
    OneHopFurther(g, a, a, b, 0);
  }

  /** A member without company: the rate is one, as nobody is expected. */
  lemma LonerReachesAll(g: Graph, zones: map<nat, set<nat>>, zone: nat, author: nat, seen: map<nat, nat>)
    requires InZone(zones, zone) == {author}
    ensures ReachRate(|seen|, |InZone(zones, zone)|, true) == 1.0
  {
  }

  datatype Op = Join(place: real, zones: set<nat>) | Leave(id: nat) | Repair

  /** Any run keeps the mesh in order, and the ring with it if the cap leaves room for the ring-local links. */
  method Simulate(ringLocal: nat, maxDegree: nat, ops: seq<Op>) returns (position: map<nat, real>, neighbors: Graph)
    ensures MeshOk(neighbors, position.Keys, maxDegree)
    ensures 2 * HalfOf(ringLocal) <= maxDegree ==> RingLinked(neighbors, Order(position), HalfOf(ringLocal))
    ensures 2 * HalfOf(ringLocal) <= maxDegree && 1 <= ringLocal ==> Connected(neighbors)
  {
    hide RingLinked, MeshOk, Registered, Order, Connected, HalfOf, Repairs, IsFill, HasLocals, IsRepairRun;
    var mesh := new ZoneRingMesh(ringLocal, maxDegree);
    var ring := mesh.ring;
    for i := 0 to |ops|
      invariant mesh.Valid() && (ring.Roomy() ==> ring.RingIntact())
    {
      match ops[i]
      case Join(place, zones) => var id, local, far := mesh.AddNode(place, zones);
      case Leave(id) => mesh.RemoveNode(id);
      case Repair => var order, states := mesh.RepairAll();
    }
    position, neighbors := ring.position, ring.neighbors;
    if ring.Roomy() && 1 <= ringLocal {
      MeshKeys(neighbors, position.Keys, maxDegree);
      assert neighbors.Keys == position.Keys;
      HalfOfSome(ringLocal);
      RingLinkedIsConnected(neighbors, position, HalfOf(ringLocal));
    }
  }
}
