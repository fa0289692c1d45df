/** Mutual links between nodes: adding, cutting and evicting one, and what each does to the links on the ring. */
module Links {
  import opened Sets
  import opened StableOrder
  import opened Ring

  type Graph = map<nat, set<nat>>

  predicate Linked(g: Graph, a: nat, b: nat) {
    a in g && b in g[a]
  }

  /** All links as pairs, each link once in either direction. */
  ghost function Pairs(g: Graph): set<(nat, nat)> {
    set a, b | a in g && b in g[a] :: (a, b)
  }

  /** Both ends of a link hold it, so both ends are live, and no node is linked to itself. */
  ghost predicate Mutual(g: Graph) {
    forall a, b :: Linked(g, a, b) ==> Linked(g, b, a) && a != b
  }

  ghost predicate Capped(g: Graph, cap: nat) {
    forall a :: a in g ==> |g[a]| <= cap
  }

  /** The links of the nodes in `ids`: mutual and within the degree cap. */
  ghost predicate MeshOk(g: Graph, ids: set<nat>, cap: nat) {
    g.Keys == ids && Mutual(g) && Capped(g, cap)
  }

  /** Everyone within h places on the ring s is linked. */
  ghost predicate RingLinked(g: Graph, s: seq<nat>, h: nat) {
    forall a, b :: Near(s, h, a, b) ==> Linked(g, a, b)
  }

  /** g' still has every ring-local link that g has. */
  ghost predicate KeepsNear(g: Graph, g': Graph, s: seq<nat>, h: nat) {
    forall a, b :: Near(s, h, a, b) && Linked(g, a, b) ==> Linked(g', a, b)
  }

  function AddLink(g: Graph, a: nat, b: nat): Graph
    requires a in g && b in g
  {
    g[a := g[a] + {b}][b := g[b] + {a}]
  }

  function CutLink(g: Graph, a: nat, b: nat): Graph
    requires a in g && b in g
  {
    g[a := g[a] - {b}][b := g[b] - {a}]
  }

  /** Everyone in `peers` becomes linked to a. */
  function AddLinks(g: Graph, a: nat, peers: set<nat>): Graph
    requires a in g
  {
    map x | x in g :: if x == a then g[a] + peers else if x in peers then g[x] + {a} else g[x]
  }

  /** Node a leaves and everyone forgets it. */
  function DropNode(g: Graph, a: nat): Graph {
    map x | x in g && x != a :: g[x] - {a}
  }

  lemma AddLinkIsMutual(g: Graph, a: nat, b: nat)
    requires Mutual(g) && a in g && b in g && a != b
    ensures forall x, y :: Linked(AddLink(g, a, b), x, y) <==> Linked(g, x, y) || (x == a && y == b) || (x == b && y == a)
    ensures Mutual(AddLink(g, a, b))
  {
    forall x, y | Linked(AddLink(g, a, b), x, y) ensures Linked(AddLink(g, a, b), y, x) && x != y {
      assert Linked(g, x, y) ==> Linked(g, y, x);
    }
  }

  lemma CutLinkIsMutual(g: Graph, a: nat, b: nat)
    requires Mutual(g) && a in g && b in g && a != b
    ensures forall x, y :: Linked(CutLink(g, a, b), x, y) <==> Linked(g, x, y) && !(x == a && y == b) && !(x == b && y == a)
    ensures Mutual(CutLink(g, a, b))
  {
    forall x, y | Linked(CutLink(g, a, b), x, y) ensures Linked(CutLink(g, a, b), y, x) && x != y {
      assert Linked(g, x, y);
    }
  }

  lemma PairsOfAdd(g: Graph, a: nat, b: nat)
    requires Mutual(g) && a in g && b in g && a != b
    ensures Pairs(AddLink(g, a, b)) == Pairs(g) + {(a, b), (b, a)}
  {
    AddLinkIsMutual(g, a, b);
    forall x: nat, y: nat ensures (x, y) in Pairs(AddLink(g, a, b)) <==> (x, y) in Pairs(g) + {(a, b), (b, a)} {
      assert Linked(AddLink(g, a, b), x, y) <==> Linked(g, x, y) || (x == a && y == b) || (x == b && y == a);
    }
  }

  lemma PairsOfCut(g: Graph, a: nat, b: nat)
    requires Mutual(g) && a in g && b in g && a != b
    ensures Pairs(CutLink(g, a, b)) == Pairs(g) - {(a, b), (b, a)}
  {
    CutLinkIsMutual(g, a, b);
    forall x: nat, y: nat ensures (x, y) in Pairs(CutLink(g, a, b)) <==> (x, y) in Pairs(g) - {(a, b), (b, a)} {
      assert Linked(CutLink(g, a, b), x, y) <==> Linked(g, x, y) && !(x == a && y == b) && !(x == b && y == a);
    }
  }

  lemma DropNodeIsMutual(g: Graph, a: nat)
    requires Mutual(g)
    ensures forall x, y :: Linked(DropNode(g, a), x, y) <==> Linked(g, x, y) && x != a && y != a
    ensures Mutual(DropNode(g, a))
  {
    var g' := DropNode(g, a);
    forall x, y | Linked(g, x, y) && x != a && y != a ensures Linked(g', x, y) {}
    forall x, y | Linked(g', x, y) ensures Linked(g', y, x) && x != y { assert Linked(g, x, y); }
  }

  lemma DropNodeKeepsCap(g: Graph, a: nat, cap: nat)
    requires Capped(g, cap)
    ensures Capped(DropNode(g, a), cap)
  {
    forall x | x in DropNode(g, a) ensures |DropNode(g, a)[x]| <= cap {
      SubsetSize(g[x] - {a}, g[x]);
    }
  }

  lemma MeshKeys(g: Graph, ids: set<nat>, cap: nat)
    requires MeshOk(g, ids, cap)
    ensures forall x :: x in g <==> x in ids
  {
  }

  lemma MeshIsMutual(g: Graph, ids: set<nat>, cap: nat)
    requires MeshOk(g, ids, cap)
    ensures Mutual(g)
  {
  }

  lemma MeshIds(g: Graph, ids: set<nat>, cap: nat)
    requires MeshOk(g, ids, cap)
    ensures g.Keys == ids
    ensures forall a :: a in g ==> |g[a]| <= cap && a !in g[a] && g[a] <= ids
  {
    forall a, b | a in g && b in g[a] ensures a != b && b in ids { assert Linked(g, a, b) && Linked(g, b, a); }
  }

  lemma NothingLost(g: Graph, s: seq<nat>, h: nat)
    ensures KeepsNear(g, g, s, h)
  {
  }

  /** One link of `id` to a node outside `local` is cut. */
  ghost predicate Evicts(g: Graph, g': Graph, local: set<nat>, id: nat) {
    exists v :: Linked(g, id, v) && v in g && v !in local && g' == CutLink(g, id, v)
  }

  /** A slot is free at `id`: it was, or a non-local link was given up for it. */
  ghost predicate MakesRoom(g: Graph, g': Graph, local: set<nat>, id: nat, cap: nat) {
    id in g && if |g[id]| < cap then g' == g else Evicts(g, g', local, id)
  }

  lemma EvictionIsSafe(g: Graph, s: seq<nat>, h: nat, id: nat, v: nat, ids: set<nat>, cap: nat)
    requires MeshOk(g, ids, cap) && id in g && id in s && v in g[id] - Locals(s, h, id)
    ensures v in g && var g' := CutLink(g, id, v);
      && Evicts(g, g', Locals(s, h, id), id)
      && MeshOk(g', ids, cap) && KeepsNear(g, g', s, h) && |g'[id]| < |g[id]|
      && (forall x :: x in g ==> g'[x] <= g[x])
      && (forall x :: x in g && Near(s, h, id, x) ==> g'[x] == g[x])
  {
    assert Linked(g, id, v);
    var g' := CutLink(g, id, v);
    CutLinkIsMutual(g, id, v);
    assert g'[id] == g[id] - {v};
    forall x | x in g ensures |g'[x]| <= |g[x]| {
      SubsetSize(g'[x], g[x]);
    }
  }

  /** What RoomIsSafe promises of a step that made room at `id`. */
  ghost predicate SafeStep(g: Graph, g': Graph, s: seq<nat>, h: nat, id: nat, ids: set<nat>, cap: nat) {
    && MeshOk(g', ids, cap) && KeepsNear(g, g', s, h)
    && (forall x :: x in ids && x in g ==> g'[x] <= g[x])
    && (id in g' && 0 < cap ==> |g'[id]| < cap)
  }

  lemma RoomIsSafe(g: Graph, g': Graph, s: seq<nat>, h: nat, id: nat, ids: set<nat>, cap: nat)
    requires MeshOk(g, ids, cap) && id in s && MakesRoom(g, g', Locals(s, h, id), id, cap)
    ensures SafeStep(g, g', s, h, id, ids, cap) && KeepsNear(g, g', s, h)
  {
    if |g[id]| >= cap {
      var v :| Linked(g, id, v) && v in g && v !in Locals(s, h, id) && g' == CutLink(g, id, v);
      EvictionIsSafe(g, s, h, id, v, ids, cap);
    }
  }

  lemma StillUnlinked(g: Graph, g': Graph, s: seq<nat>, h: nat, ids: set<nat>, cap: nat, a: nat, b: nat)
    requires MeshOk(g, ids, cap) && SafeStep(g, g', s, h, a, ids, cap) && !Linked(g, a, b) && b in ids
    ensures (forall x :: x in g' <==> x in ids) && !Linked(g', b, a)
  {
    assert Linked(g, b, a) ==> Linked(g, a, b);
  }

  /**
   * The counting argument: a full node that still misses a ring-local link holds a non-local one, provided the cap
   * leaves room for all 2h local links.
   */
  lemma FullNodeHasVictim(g: Graph, s: seq<nat>, h: nat, a: nat, b: nat, cap: nat)
    requires Distinct(s) && Near(s, h, a, b) && a in g && !Linked(g, a, b)
    requires 2 * h <= cap <= |g[a]|
    ensures g[a] - Locals(s, h, a) != {}
  {
    var local := Locals(s, h, a);
    LocalsAtMost(s, h, a);
    assert |local - {b}| < |local|;
    if g[a] <= local {
      assert g[a] <= local - {b};
      SubsetSize(g[a], local - {b});
    }
  }

  lemma FreeSlotIfNear(g: Graph, s: seq<nat>, h: nat, a: nat, b: nat, cap: nat)
    requires Distinct(s) && a in g && !Linked(g, a, b)
    ensures 2 * h <= cap && Near(s, h, a, b) ==> |g[a]| < cap || g[a] - Locals(s, h, a) != {}
  {
    if 2 * h <= cap <= |g[a]| && Near(s, h, a, b) {
      FullNodeHasVictim(g, s, h, a, b, cap);
    }
  }

  /** What a successful connectLocal(a, b) does when the two were not linked yet. */
  ghost predicate ConnectsLocal(g: Graph, g': Graph, s: seq<nat>, h: nat, cap: nat, a: nat, b: nat) {
    exists g1: Graph, g2: Graph ::
      && MakesRoom(g, g1, Locals(s, h, a), a, cap)
      && MakesRoom(g1, g2, Locals(s, h, b), b, cap)
      && a in g2 && b in g2 && g' == AddLink(g2, a, b)
  }

  lemma LocalConnectionIsSafe(
    g: Graph, g1: Graph, g2: Graph, s: seq<nat>, h: nat, ids: set<nat>, cap: nat, a: nat, b: nat)
    requires MeshOk(g, ids, cap) && a in s && b in s && a != b
    requires MakesRoom(g, g1, Locals(s, h, a), a, cap) && MakesRoom(g1, g2, Locals(s, h, b), b, cap)
    ensures a in g2 && b in g2
    ensures MeshOk(AddLink(g2, a, b), ids, cap)
    ensures !Linked(g, a, b) ==> LocalOutcome(g, AddLink(g2, a, b), s, h, ids, cap, a, b, true)
  {
    RoomIsSafe(g, g1, s, h, a, ids, cap);
    RoomIsSafe(g1, g2, s, h, b, ids, cap);
    assert 0 < cap;
    SubsetSize(g2[a], g1[a]);
    AddLinkIsSafe(g2, s, h, a, b, cap);
  }

  /**
   * What connectLocal(a, b) promises on the ring s. No ring-local link is ever lost. A call that succeeds leaves the
   * link in place, at the price of at most one non-local link per full end; one that fails may have given up a link of
   * a for nothing. A call for two ring-local nodes succeeds whenever the cap leaves room for 2h links.
   */
  ghost predicate LocalOutcome(
    g: Graph, g': Graph, s: seq<nat>, h: nat, ids: set<nat>, cap: nat, a: nat, b: nat, ok: bool)
  {
    && MeshOk(g', ids, cap) && KeepsNear(g, g', s, h)
    && (ok ==> Linked(g', a, b))
    && (Linked(g, a, b) ==> ok && g' == g)
    && (ok && !Linked(g, a, b) ==> ConnectsLocal(g, g', s, h, cap, a, b))
    && (!ok ==> g' == g || MakesRoom(g, g', Locals(s, h, a), a, cap))
    && (2 * h <= cap && Near(s, h, a, b) ==> ok)
    && (!ok && Near(s, h, a, b) ==> Stuck(g', s, h, cap, a) || Stuck(g', s, h, cap, b))
  }

  /** A full node with nothing to give up: all its links are ring-local. */
  ghost predicate Stuck(g: Graph, s: seq<nat>, h: nat, cap: nat, id: nat) {
    id in g && |g[id]| >= cap && g[id] <= Locals(s, h, id)
  }

  /** The node is linked to each of its ring-local nodes, except where one of the two is full of ring-local links. */
  ghost predicate HasLocals(g: Graph, s: seq<nat>, h: nat, cap: nat, id: nat) {
    forall b :: Near(s, h, id, b) ==> HasLocal(g, s, h, cap, id, b)
  }

  ghost predicate HasLocal(g: Graph, s: seq<nat>, h: nat, cap: nat, a: nat, b: nat) {
    Linked(g, a, b) || Stuck(g, s, h, cap, a) || Stuck(g, s, h, cap, b)
  }

  /** What is full of ring-local links stays as it is while none of those is lost. */
  lemma StuckStays(g: Graph, g': Graph, s: seq<nat>, h: nat, ids: set<nat>, cap: nat, id: nat)
    requires MeshOk(g, ids, cap) && MeshOk(g', ids, cap) && KeepsNear(g, g', s, h) && Stuck(g, s, h, cap, id)
    ensures Stuck(g', s, h, cap, id)
  {
    hide Near, Mutual;
    forall b | b in g[id] ensures b in g'[id] {
      assert b in Locals(s, h, id);
      assert Linked(g, id, b);
      assert Linked(g', id, b);
    }
    SubsetSize(g[id], g'[id]);
    SameSize(g[id], g'[id]);
  }

  lemma SameSize(a: set<nat>, b: set<nat>)
    requires a <= b && |b| <= |a|
    ensures a == b
  {
    forall x | x in b ensures x in a {
      if x !in a { SubsetSize(a, b - {x}); }
    }
  }

  lemma HasLocalKept(g: Graph, g': Graph, s: seq<nat>, h: nat, ids: set<nat>, cap: nat, a: nat, b: nat)
    requires MeshOk(g, ids, cap) && MeshOk(g', ids, cap) && KeepsNear(g, g', s, h)
    requires Near(s, h, a, b) && HasLocal(g, s, h, cap, a, b)
    ensures HasLocal(g', s, h, cap, a, b)
  {
    hide Near, MeshOk, Stuck;
    if !Linked(g, a, b) {
      if Stuck(g, s, h, cap, a) {
        StuckStays(g, g', s, h, ids, cap, a);
      } else {
        StuckStays(g, g', s, h, ids, cap, b);
      }
    }
  }

  lemma HasLocalsKept(g: Graph, g': Graph, s: seq<nat>, h: nat, ids: set<nat>, cap: nat, id: nat)
    requires MeshOk(g, ids, cap) && MeshOk(g', ids, cap) && KeepsNear(g, g', s, h) && HasLocals(g, s, h, cap, id)
    ensures HasLocals(g', s, h, cap, id)
  {
    hide Near, MeshOk, HasLocal, KeepsNear;
    forall b | Near(s, h, id, b) ensures HasLocal(g', s, h, cap, id, b) {
      HasLocalKept(g, g', s, h, ids, cap, id, b);
    }
  }

  /** With room for all ring-local links that means all of them. */
  lemma AllLocalsIfRoomy(g: Graph, s: seq<nat>, h: nat, ids: set<nat>, cap: nat, id: nat)
    requires MeshOk(g, ids, cap) && Distinct(s) && 2 * h <= cap && HasLocals(g, s, h, cap, id)
    ensures LinkedToAll(g, id, Locals(s, h, id))
  {
    hide Near, Distinct, Capped;
    forall b | b in Locals(s, h, id) ensures Linked(g, id, b) {
      if !Linked(g, id, b) {
        assert HasLocal(g, s, h, cap, id, b);
        assert !Linked(g, b, id);
        NearMeans(s, h, id, b);
        if Stuck(g, s, h, cap, id) {
          FullNodeHasVictim(g, s, h, id, b, cap);
        } else {
          FullNodeHasVictim(g, s, h, b, id, cap);
        }
      }
    }
  }

  lemma KeepsNearTwice(g: Graph, g1: Graph, g2: Graph, s: seq<nat>, h: nat)
    requires KeepsNear(g, g1, s, h) && KeepsNear(g1, g2, s, h)
    ensures KeepsNear(g, g2, s, h)
  {
    forall a, b | Near(s, h, a, b) && Linked(g, a, b) ensures Linked(g2, a, b) {
      assert Linked(g1, a, b);
    }
  }

  /**
   * Repair work on the ring s: no ring-local link is lost, only ring-local links are new, and if the cap leaves room for
   * 2h links at most two others are given up for each new one. A link is given up only where an end has more links than
   * fit besides its ring-local ones.
   */
  ghost predicate Repairs(g: Graph, g': Graph, s: seq<nat>, h: nat, cap: nat) {
    && KeepsNear(g, g', s, h)
    && (forall a, b :: Linked(g', a, b) && !Linked(g, a, b) ==> Near(s, h, a, b))
    && (2 * h <= cap ==> |Pairs(g) - Pairs(g')| <= 2 * |Pairs(g') - Pairs(g)|)
    && (forall a, b :: Linked(g, a, b) && !Linked(g', a, b) ==> Tight(g, s, h, cap, a) || Tight(g, s, h, cap, b))
  }

  /** The links of the node and those it should have on the ring do not fit together. */
  ghost predicate Tight(g: Graph, s: seq<nat>, h: nat, cap: nat, id: nat) {
    |Held(g, id) + Locals(s, h, id)| > cap
  }

  /** The neighbours of the node, none for an unknown one. */
  ghost function Held(g: Graph, id: nat): set<nat> {
    if id in g then g[id] else {}
  }

  lemma RepairsNothing(g: Graph, s: seq<nat>, h: nat, cap: nat)
    ensures Repairs(g, g, s, h, cap)
  {
    assert Pairs(g) - Pairs(g) == {};
  }

  lemma RepairsKeep(g: Graph, g': Graph, s: seq<nat>, h: nat, cap: nat)
    requires Repairs(g, g', s, h, cap)
    ensures KeepsNear(g, g', s, h)
  {
  }

  lemma PairsAreLinks(g: Graph)
    ensures forall a: nat, b: nat :: (a, b) in Pairs(g) <==> Linked(g, a, b)
  {
  }

  lemma RepairsTwice(g: Graph, g1: Graph, g2: Graph, s: seq<nat>, h: nat, cap: nat)
    requires Repairs(g, g1, s, h, cap) && Repairs(g1, g2, s, h, cap)
    ensures Repairs(g, g2, s, h, cap)
  {
    hide Near, Linked, Pairs, Tight;
    KeepsNearTwice(g, g1, g2, s, h);
    forall a, b | Linked(g, a, b) && !Linked(g2, a, b) ensures Tight(g, s, h, cap, a) || Tight(g, s, h, cap, b) {
      if Linked(g1, a, b) {
        TightBefore(g, g1, s, h, cap, a);
        TightBefore(g, g1, s, h, cap, b);
      }
    }
    PairsAreLinks(g);
    PairsAreLinks(g1);
    PairsAreLinks(g2);
    forall q | q in Pairs(g1) - Pairs(g) ensures q in Pairs(g2) {
      assert Linked(g1, q.0, q.1) && !Linked(g, q.0, q.1);
      assert Linked(g2, q.0, q.1);
    }
    forall q | q in Pairs(g2) - Pairs(g1) ensures q !in Pairs(g) {
      assert Linked(g2, q.0, q.1) && !Linked(g1, q.0, q.1);
      assert !Linked(g, q.0, q.1);
    }
    TradeTwice(Pairs(g), Pairs(g1), Pairs(g2));
  }

  /** What is too much after ring-local links were gained was too much before. */
  lemma TightBefore(g: Graph, g': Graph, s: seq<nat>, h: nat, cap: nat, id: nat)
    requires forall b :: Linked(g', id, b) && !Linked(g, id, b) ==> Near(s, h, id, b)
    ensures Tight(g', s, h, cap, id) ==> Tight(g, s, h, cap, id)
  {
    hide Near;
    if Tight(g', s, h, cap, id) {
      forall b | b in Held(g', id) ensures b in Held(g, id) + Locals(s, h, id) {
        assert Linked(g', id, b);
        NearMeans(s, h, id, b);
      }
      SubsetSize(Held(g', id) + Locals(s, h, id), Held(g, id) + Locals(s, h, id));
    }
  }

  /** What is gained is neither lost again nor was there before, so gains and losses add up. */
  lemma TradeTwice(p: set<(nat, nat)>, p1: set<(nat, nat)>, p2: set<(nat, nat)>)
    requires (p1 - p) <= p2 && (p2 - p1) !! p
    ensures |p - p2| <= |p - p1| + |p1 - p2| && |p2 - p| == |p1 - p| + |p2 - p1|
  {
    SubsetSize(p - p2, (p - p1) + (p1 - p2));
    assert |(p - p1) + (p1 - p2)| == |p - p1| + |p1 - p2|;
    assert p2 - p == (p1 - p) + (p2 - p1);
  }

  /** A ring-local link costs at most two others. */
  lemma LocalLinkRepairs(g: Graph, g': Graph, s: seq<nat>, h: nat, ids: set<nat>, cap: nat, a: nat, b: nat, ok: bool)
    requires MeshOk(g, ids, cap) && Near(s, h, a, b) && LocalOutcome(g, g', s, h, ids, cap, a, b, ok)
    ensures Repairs(g, g', s, h, cap)
  {
    hide Near, Locals, Pairs, AddLink, Capped;
    PairsAreLinks(g);
    PairsAreLinks(g');
    if g' == g {
      RepairsNothing(g, s, h, cap);
    } else if !ok {
      var _ := RoomCosts(g, g', Locals(s, h, a), a, cap);
      LostIsTight(g, g, g', s, h, cap, a, b);
    } else {
      NearMeans(s, h, a, b);
      LocalLinkTight(g, g', s, h, cap, a, b);
      LocalLinkCosts(g, g', s, h, cap, a, b);
      forall x: nat, y: nat | Linked(g', x, y) && !Linked(g, x, y) ensures Near(s, h, x, y) {
        assert (x, y) in Pairs(g') - Pairs(g);
      }
    }
  }

  lemma LocalLinkCosts(g: Graph, g': Graph, s: seq<nat>, h: nat, cap: nat, a: nat, b: nat)
    requires Mutual(g) && a != b && !Linked(g, a, b) && ConnectsLocal(g, g', s, h, cap, a, b)
    ensures |Pairs(g) - Pairs(g')| <= 4 && Pairs(g') - Pairs(g) == {(a, b), (b, a)} && |Pairs(g') - Pairs(g)| == 2
  {
    hide Near, Locals, Pairs, AddLink, MakesRoom;
    var g1: Graph, g2: Graph :| MakesRoom(g, g1, Locals(s, h, a), a, cap) && MakesRoom(g1, g2, Locals(s, h, b), b, cap)
      && a in g2 && b in g2 && g' == AddLink(g2, a, b);
    var l1 := RoomCosts(g, g1, Locals(s, h, a), a, cap);
    var l2 := RoomCosts(g1, g2, Locals(s, h, b), b, cap);
    PairsOfAdd(g2, a, b);
    PairsAreLinks(g);
    assert (a, b) !in Pairs(g) && (b, a) !in Pairs(g);
    assert Pairs(g') - Pairs(g) == {(a, b), (b, a)};
    SubsetSize(Pairs(g) - Pairs(g'), l1 + l2);
  }

  /** The end that gives up a link for a ring-local one is full, so its links and the new one do not fit. */
  lemma LostIsTight(g: Graph, g1: Graph, g2: Graph, s: seq<nat>, h: nat, cap: nat, a: nat, b: nat)
    requires Mutual(g1) && MakesRoom(g1, g2, Locals(s, h, a), a, cap) && Near(s, h, a, b) && !Linked(g, a, b)
    requires a in g && g1[a] <= g[a]
    ensures forall x, y :: Linked(g1, x, y) && !Linked(g2, x, y) ==> (x == a || y == a) && Tight(g, s, h, cap, a)
  {
    hide Near;
    if |g1[a]| >= cap {
      NearMeans(s, h, a, b);
      assert b in Locals(s, h, a) && b !in g[a];
      SubsetSize(g1[a] + {b}, Held(g, a) + Locals(s, h, a));
      assert b !in g1[a] && |g1[a] + {b}| == |g1[a]| + 1;
      var v :| Linked(g1, a, v) && v in g1 && v !in Locals(s, h, a) && g2 == CutLink(g1, a, v);
      OthersLinked(g1, a, v);
      CutLinkIsMutual(g1, a, v);
    }
  }

  lemma LocalLinkTight(g: Graph, g': Graph, s: seq<nat>, h: nat, cap: nat, a: nat, b: nat)
    requires Mutual(g) && !Linked(g, a, b) && Near(s, h, a, b) && Near(s, h, b, a) && ConnectsLocal(g, g', s, h, cap, a, b)
    ensures forall x, y :: Linked(g, x, y) && !Linked(g', x, y) ==> Tight(g, s, h, cap, x) || Tight(g, s, h, cap, y)
  {
    hide Near, Locals, MakesRoom, Tight;
    var g1: Graph, g2: Graph :| MakesRoom(g, g1, Locals(s, h, a), a, cap) && MakesRoom(g1, g2, Locals(s, h, b), b, cap)
      && a in g2 && b in g2 && g' == AddLink(g2, a, b);
    MadeRoomMeans(g, g1, Locals(s, h, a), a, cap);
    MadeRoomMeans(g1, g2, Locals(s, h, b), b, cap);
    LostIsTight(g, g, g1, s, h, cap, a, b);
    assert !Linked(g, b, a) by { if Linked(g, b, a) { OthersLinked(g, b, a); } }
    LostIsTight(g, g1, g2, s, h, cap, b, a);
    forall x, y | Linked(g, x, y) && !Linked(g', x, y) ensures Tight(g, s, h, cap, x) || Tight(g, s, h, cap, y) {
      assert !Linked(g2, x, y);
    }
  }

  lemma MadeRoomMeans(g: Graph, g': Graph, local: set<nat>, id: nat, cap: nat)
    requires Mutual(g) && MakesRoom(g, g', local, id, cap)
    ensures id in g && Mutual(g') && g'.Keys == g.Keys && forall x :: x in g' ==> g'[x] <= g[x]
  {
    hide Mutual;
    if g' != g {
      var v :| Linked(g, id, v) && v in g && v !in local && g' == CutLink(g, id, v);
      OthersLinked(g, id, v);
      CutLinkIsMutual(g, id, v);
    }
  }

  lemma RoomCosts(g: Graph, g': Graph, local: set<nat>, id: nat, cap: nat) returns (lost: set<(nat, nat)>)
    requires Mutual(g) && MakesRoom(g, g', local, id, cap)
    ensures Mutual(g') && Pairs(g') == Pairs(g) - lost && |lost| <= 2
  {
    hide Pairs, Mutual;
    lost := {};
    if g' != g {
      var v :| Linked(g, id, v) && v in g && v !in local && g' == CutLink(g, id, v);
      OthersLinked(g, id, v);
      CutLinkIsMutual(g, id, v);
      PairsOfCut(g, id, v);
      lost := {(id, v), (v, id)};
    }
  }

  lemma OthersLinked(g: Graph, a: nat, b: nat)
    requires Mutual(g) && Linked(g, a, b)
    ensures Linked(g, b, a) && a != b
  {
  }

  /** Node `id` is linked to everyone in `who`. */
  ghost predicate LinkedToAll(g: Graph, id: nat, who: set<nat>) {
    forall b :: b in who ==> Linked(g, id, b)
  }

  /** More ring-local links were kept or gained: the nodes of `done` still have all of theirs. */
  lemma LinkedToAllKept(g: Graph, g': Graph, s: seq<nat>, h: nat, id: nat, who: set<nat>)
    requires KeepsNear(g, g', s, h) && LinkedToAll(g, id, who) && who <= Locals(s, h, id)
    ensures LinkedToAll(g', id, who)
  {
    forall b | b in who ensures Linked(g', id, b) {
      assert b in Locals(s, h, id);
      assert Linked(g, id, b);
    }
  }

  lemma AddLinksKeepsAll(g: Graph, s: seq<nat>, h: nat, ids: set<nat>, cap: nat, id: nat, peers: set<nat>)
    requires MeshOk(g, ids, cap) && id in ids && peers <= ids && id !in peers && peers !! g[id]
    requires |g[id]| + |peers| <= cap && forall p :: p in peers ==> p in g && |g[p]| < cap
    ensures id in g && MeshOk(AddLinks(g, id, peers), ids, cap) && KeepsNear(g, AddLinks(g, id, peers), s, h)
  {
    AddLinksIsMutual(g, id, peers);
  }

  lemma DropNodeIsSafe(g: Graph, ids: set<nat>, cap: nat, x: nat)
    requires MeshOk(g, ids, cap)
    ensures MeshOk(DropNode(g, x), ids - {x}, cap)
  {
    DropNodeIsMutual(g, x);
    DropNodeKeepsCap(g, x, cap);
    forall a ensures a in DropNode(g, x) <==> a in ids - {x} {}
  }

  lemma DropUnknown(g: Graph, ids: set<nat>, cap: nat, x: nat)
    requires MeshOk(g, ids, cap) && x !in ids
    ensures DropNode(g, x) == g
  {
    MeshIds(g, ids, cap);
    forall a | a in g ensures DropNode(g, x)[a] == g[a] {
      assert x !in g[a];
    }
  }

  lemma NewNodeIsSafe(g: Graph, ids: set<nat>, cap: nat, x: nat)
    requires MeshOk(g, ids, cap) && x !in ids
    ensures MeshOk(g[x := {}], ids + {x}, cap)
  {
    var g' := g[x := {}];
    forall a, b | Linked(g', a, b) ensures Linked(g', b, a) && a != b {
      assert Linked(g, a, b);
    }
  }

  lemma AloneHasNoLocals(key: Keys, h: nat, x: nat)
    requires key.Keys <= {x}
    ensures Locals(Order(key), h, x) == {}
  {
    forall b | b in Order(key) ensures !Near(Order(key), h, x, b) {}
  }

  /** Linking every node to its ring-local nodes makes the ring intact. */
  lemma AllLinkedIsIntact(key: Keys, h: nat, g: Graph)
    requires forall a :: a in key ==> LinkedToAll(g, a, Locals(Order(key), h, a))
    ensures RingLinked(g, Order(key), h)
  {
    hide Near, Order;
    var s := Order(key);
    forall a, b | Near(s, h, a, b) ensures Linked(g, a, b) {
      NearMeans(s, h, a, b);
      assert b in Locals(s, h, a);
    }
  }

  /** Everyone of `who` who is still on the ring is linked to all its ring-local nodes. */
  ghost predicate Repaired(g: Graph, key: Keys, h: nat, who: set<nat>) {
    forall a :: a in who && a in key ==> LinkedToAll(g, a, Locals(Order(key), h, a))
  }

  /** Everyone of `who` who is still on the ring has its ring-local links as far as they fit. */
  ghost predicate HaveLocals(g: Graph, key: Keys, h: nat, cap: nat, who: set<nat>) {
    forall a :: a in who && a in key ==> HasLocals(g, Order(key), h, cap, a)
  }

  lemma HaveLocalsKept(g: Graph, g': Graph, key: Keys, h: nat, cap: nat, who: set<nat>)
    requires MeshOk(g, key.Keys, cap) && MeshOk(g', key.Keys, cap) && KeepsNear(g, g', Order(key), h)
    requires HaveLocals(g, key, h, cap, who)
    ensures HaveLocals(g', key, h, cap, who)
  {
    hide HasLocals, MeshOk, KeepsNear, Order;
    forall a | a in who && a in key ensures HasLocals(g', Order(key), h, cap, a) {
      HasLocalsKept(g, g', Order(key), h, key.Keys, cap, a);
    }
  }

  lemma OneMoreHasLocals(g: Graph, key: Keys, h: nat, cap: nat, who: set<nat>, a: nat)
    requires HaveLocals(g, key, h, cap, who) && (a in key ==> HasLocals(g, Order(key), h, cap, a))
    ensures HaveLocals(g, key, h, cap, who + {a})
  {
  }

  lemma NobodyHasLocals(g: Graph, key: Keys, h: nat, cap: nat)
    ensures HaveLocals(g, key, h, cap, {})
  {
  }

  lemma RepairedIfRoomy(g: Graph, key: Keys, h: nat, cap: nat, who: set<nat>)
    requires MeshOk(g, key.Keys, cap) && HaveLocals(g, key, h, cap, who) && 2 * h <= cap
    ensures Repaired(g, key, h, who)
  {
    hide HasLocals, MeshOk, Order, IsOrder, Locals, LinkedToAll, Distinct;
    OrderIsDistinct(key, Order(key));
    forall a | a in who && a in key ensures LinkedToAll(g, a, Locals(Order(key), h, a)) {
      AllLocalsIfRoomy(g, Order(key), h, key.Keys, cap, a);
    }
  }

  lemma AllRepairedIsIntact(key: Keys, h: nat, g: Graph)
    requires Repaired(g, key, h, key.Keys)
    ensures RingLinked(g, Order(key), h)
  {
    hide LinkedToAll, RingLinked, Order, Locals;
    AllLinkedIsIntact(key, h, g);
  }

  /** Nobody is near a node that is not there. */
  lemma NoLocalsOfUnknown(g: Graph, key: Keys, h: nat, h': nat, cap: nat, x: nat)
    requires x !in key
    ensures HaveLocals(g, key, h, cap, Locals(Order(key), h', x))
  {
    hide Order, IsOrder, HasLocals, Near;
    OrderMembers(key);
    assert Locals(Order(key), h', x) == {} by {
      forall b | b in Order(key) ensures !Near(Order(key), h', x, b) { NearMeans(Order(key), h', x, b); }
    }
  }

  lemma NobodyToRepair(g: Graph, key: Keys, h: nat)
    ensures Repaired(g, key, h, {})
  {
  }

  lemma RepairedKept(g: Graph, g': Graph, key: Keys, h: nat, who: set<nat>)
    requires Repaired(g, key, h, who) && KeepsNear(g, g', Order(key), h)
    ensures Repaired(g', key, h, who)
  {
    forall a | a in who && a in key ensures LinkedToAll(g', a, Locals(Order(key), h, a)) {
      LinkedToAllKept(g, g', Order(key), h, a, Locals(Order(key), h, a));
    }
  }

  lemma RepairedOneMore(g: Graph, key: Keys, h: nat, who: set<nat>, a: nat)
    requires Repaired(g, key, h, who) && (a in key ==> LinkedToAll(g, a, Locals(Order(key), h, a)))
    ensures Repaired(g, key, h, who + {a})
  {
  }

  /** The ring is intact again once every new pair has been linked by one of its ends. */
  lemma RingAfterRemove(key: Keys, h: nat, x: nat, g: Graph, g': Graph, who: set<nat>)
    requires x in key && RingLinked(g, Order(key), h) && KeepsNear(DropNode(g, x), g', Order(key - {x}), h)
    requires Locals(Order(key), h, x) <= who && Repaired(g', key - {x}, h, who)
    ensures RingLinked(g', Order(key - {x}), h)
  {
    hide Near, Order, Index;
    var s, s' := Order(key), Order(key - {x});
    forall a, b | Near(s', h, a, b) ensures Linked(g', a, b) {
      NearMeans(s', h, a, b);
      OrderMembers(key - {x});
      OrderMembers(key);
      NewPairsKnewTheLeaver(key, h, x, a, b);
      if Near(s, h, a, b) {
        assert Linked(g, a, b);
        assert Linked(DropNode(g, x), a, b);
      } else {
        assert a in Locals(s, h, x);
        assert b in Locals(s', h, a);
      }
    }
  }

  lemma RingAfterAdd(key: Keys, h: nat, x: nat, v: real, g: Graph, g': Graph)
    requires x !in key && RingLinked(g, Order(key), h) && Mutual(g')
    requires KeepsNear(g[x := {}], g', Order(key[x := v]), h)
    requires LinkedToAll(g', x, Locals(Order(key[x := v]), h, x))
    ensures RingLinked(g', Order(key[x := v]), h)
  {
    hide Near, Order, Index;
    var s, s' := Order(key), Order(key[x := v]);
    forall a, b | Near(s', h, a, b) ensures Linked(g', a, b) {
      NearMeans(s', h, a, b);
      if a == x {
        assert b in Locals(s', h, x);
      } else if b == x {
        assert a in Locals(s', h, x);
        assert Linked(g', x, a);
      } else {
        OldPairsWereNear(key, h, x, v, a, b);
        assert Linked(g[x := {}], a, b);
      }
    }
  }

  lemma LocalLinkIsThereIfPossible(
    g: Graph, g': Graph, s: seq<nat>, h: nat, ids: set<nat>, cap: nat, a: nat, b: nat, ok: bool)
    requires Near(s, h, a, b) && LocalOutcome(g, g', s, h, ids, cap, a, b, ok)
    ensures HasLocal(g', s, h, cap, a, b) && MeshOk(g', ids, cap) && KeepsNear(g, g', s, h)
  {
  }

  lemma NothingToGiveUp(g: Graph, s: seq<nat>, h: nat, cap: nat, id: nat)
    requires id in g && |g[id]| >= cap && g[id] - Locals(s, h, id) == {}
    ensures Stuck(g, s, h, cap, id)
  {
    forall b | b in g[id] ensures b in Locals(s, h, id) {
      assert b !in g[id] - Locals(s, h, id);
    }
  }

  lemma OutcomeUnchanged(g: Graph, s: seq<nat>, h: nat, ids: set<nat>, cap: nat, a: nat, b: nat)
    requires MeshOk(g, ids, cap) && forall x :: x in s ==> x in ids
    requires a != b && a in ids && b in ids ==> Linked(g, a, b)
    ensures LocalOutcome(g, g, s, h, ids, cap, a, b, Linked(g, a, b))
    ensures a == b || a !in ids || b !in ids ==> !Linked(g, a, b)
  {
    MeshIds(g, ids, cap);
  }

  lemma OutcomeNoSlot(g: Graph, g': Graph, s: seq<nat>, h: nat, ids: set<nat>, cap: nat, a: nat, b: nat)
    requires MeshOk(g', ids, cap) && KeepsNear(g, g', s, h) && !Linked(g, a, b)
    requires !(2 * h <= cap && Near(s, h, a, b)) && (g' == g || MakesRoom(g, g', Locals(s, h, a), a, cap))
    requires Stuck(g', s, h, cap, a) || Stuck(g', s, h, cap, b)
    ensures LocalOutcome(g, g', s, h, ids, cap, a, b, false)
  {
  }

  lemma AddLinkIsSafe(g: Graph, s: seq<nat>, h: nat, a: nat, b: nat, cap: nat)
    requires Mutual(g) && Capped(g, cap) && a in g && b in g && a != b && |g[a]| < cap && |g[b]| < cap
    ensures var g' := AddLink(g, a, b);
      g'.Keys == g.Keys && Mutual(g') && Capped(g', cap) && KeepsNear(g, g', s, h) && Linked(g', a, b)
  {
    AddLinkIsMutual(g, a, b);
  }

  lemma AddLinksIsMutual(g: Graph, a: nat, peers: set<nat>)
    requires Mutual(g) && a in g && a !in peers && peers <= g.Keys
    ensures forall x, y :: (Linked(AddLinks(g, a, peers), x, y)
      <==> Linked(g, x, y) || (x == a && y in peers) || (y == a && x in peers))
    ensures Mutual(AddLinks(g, a, peers))
  {
    var g' := AddLinks(g, a, peers);
    forall x, y ensures Linked(g', x, y) <==> Linked(g, x, y) || (x == a && y in peers) || (y == a && x in peers) {}
    forall x, y | Linked(g', x, y) ensures Linked(g', y, x) && x != y {}
  }

  lemma AddLinksAt(g: Graph, a: nat, peers: set<nat>, c: nat)
    requires a in g && c in g && a !in peers && c !in peers && c != a
    ensures var g' := AddLinks(g, a, peers); a in g' && c in g' && g'[a] == g[a] + peers && g'[c] == g[c]
    ensures |g[a] + peers| <= |g[a]| + |peers|
  {
  }

  lemma AddLinksNobody(g: Graph, a: nat)
    requires a in g
    ensures AddLinks(g, a, {}) == g
  {
    forall x | x in g ensures AddLinks(g, a, {})[x] == g[x] {}
  }

  lemma AddLinksOneMore(g: Graph, a: nat, peers: set<nat>, p: nat)
    requires a in g && p in g && a !in peers && p != a
    ensures AddLink(AddLinks(g, a, peers), a, p) == AddLinks(g, a, peers + {p})
  {
    var l, r := AddLink(AddLinks(g, a, peers), a, p), AddLinks(g, a, peers + {p});
    forall x | x in g ensures l[x] == r[x] {}
  }

  /** Pairs that are near on the ring after a departure were near before, or the leaver was near both of them. */
  lemma NewPairsKnewTheLeaver(key: Keys, h: nat, x: nat, a: nat, b: nat)
    requires x in key && a != x && b != x && Near(Order(key - {x}), h, a, b)
    ensures Near(Order(key), h, a, b) || (Near(Order(key), h, x, a) && Near(Order(key), h, x, b))
  {
    var k := OrderAfterRemove(key, x);
    OrderIsDistinct(key, Order(key));
    NearAfterRemove(Order(key), k, h, a, b);
  }

  /** Old pairs that are near after an arrival were near before. */
  lemma OldPairsWereNear(key: Keys, h: nat, x: nat, v: real, a: nat, b: nat)
    requires x !in key && a != x && b != x && Near(Order(key[x := v]), h, a, b)
    ensures Near(Order(key), h, a, b)
  {
    var k := OrderAfterAdd(key, x, v);
    OrderIsDistinct(key, Order(key));
    NearAfterAdd(Order(key), k, x, h, a, b);
  }

  /**
   * The cap can be met together with the ring links exactly when it covers the ring-local neighbourhood: with more
   * than 2h nodes a mesh of cap below 2h cannot hold all ring-local links.
   */
  lemma CapBelowNeighbourhoodFails(g: Graph, key: Keys, h: nat, cap: nat)
    requires key != map[] && g.Keys == key.Keys && cap < 2 * h < |key|
    requires RingLinked(g, Order(key), h)
    ensures !Capped(g, cap)
  {
    var s := Order(key);
    OrderIsDistinct(key, s);
    var a :| a in key;
    LocalsExactly(s, h, a);
    SubsetSize(Locals(s, h, a), g[a]);
  }
}
