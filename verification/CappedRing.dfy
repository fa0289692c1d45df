/**
 * What the gossip mesh and the zone mesh have in common: positions on the circle and links under a hard degree cap,
 * where a ring-local link may push out one that is not.
 */
module CappedMesh {
  import opened Sets
  import opened StableOrder
  import opened Ring
  import opened Links
  import opened MailboxStore

  /** Strangers of a node with a free slot. */
  function Free(g: Graph, ids: set<nat>, id: nat, cap: nat): set<nat>
    requires id in g
  {
    set x | x in ids && x in g && x != id && x !in g[id] && |g[x]| < cap
  }

  /** Whom `id` may take as a long-range peer: a stranger with a free slot, far away on the ring. */
  function Far(g: Graph, position: map<nat, real>, id: nat, cap: nat): set<nat>
    requires id in g && id in position
  {
    set x | x in Free(g, position.Keys, id, cap) && x in position && RingDist(position[id], position[x]) >= 0.2
  }

  /** As many of them as there are, up to a limit. */
  ghost predicate IsFarChoice(g: Graph, position: map<nat, real>, id: nat, cap: nat, far: set<nat>, limit: nat) {
    && id in position && id in g
    && far <= Far(g, position, id, cap) && |far| == Min(limit, |Far(g, position, id, cap)|)
  }

  lemma FarAreFree(g: Graph, position: map<nat, real>, id: nat, cap: nat)
    requires id in g && id in position
    ensures Far(g, position, id, cap) <= Free(g, position.Keys, id, cap)
  {
  }

  lemma FarChoiceIs(g: Graph, position: map<nat, real>, id: nat, cap: nat, far: set<nat>, limit: nat)
    requires id in position && id in g
    requires far <= Far(g, position, id, cap) && |far| == Min(limit, |Far(g, position, id, cap)|)
    ensures IsFarChoice(g, position, id, cap, far, limit)
  {
  }

  /** One more of the strangers is linked: both ends still had a free slot. */
  lemma FreeLinkFits(g: Graph, ids: set<nat>, id: nat, cap: nat, peers: set<nat>, c: nat)
    requires id in g && peers <= Free(g, ids, id, cap) && c in Free(g, ids, id, cap) && c !in peers
    requires |g[id]| + |peers| < cap
    ensures var g' := AddLinks(g, id, peers);
      && id in g' && c in g' && |g'[id]| < cap && |g'[c]| < cap && id != c && c in ids
      && AddLink(g', id, c) == AddLinks(g, id, peers + {c})
  {
    AddLinksAt(g, id, peers, c);
    AddLinksOneMore(g, id, peers, c);
  }

  lemma FreeLinksAreSafe(g: Graph, s: seq<nat>, h: nat, ids: set<nat>, id: nat, cap: nat, peers: set<nat>)
    requires id in g && MeshOk(g, ids, cap) && id in ids && peers <= Free(g, ids, id, cap) && |g[id]| + |peers| <= cap
    ensures MeshOk(AddLinks(g, id, peers), ids, cap) && KeepsNear(g, AddLinks(g, id, peers), s, h)
    ensures var g' := AddLinks(g, id, peers); id in g' && |g'[id]| == |g[id]| + |peers|
  {
    AddLinksKeepsAll(g, s, h, ids, cap, id, peers);
    assert AddLinks(g, id, peers)[id] == g[id] + peers;
    assert g[id] !! peers;
  }

  /** The first node of all has nobody to link to. */
  lemma LonelyNode(position: map<nat, real>, id: nat, g: Graph, h: nat)
    requires |position| <= 1 && id in position && id in g && g.Keys <= position.Keys
    ensures forall cap: nat :: HasLocals(g, Order(position), h, cap, id)
    ensures forall cap: nat :: Free(g, position.Keys, id, cap) == {}
    ensures AddLinks(g, id, {}) == g
  {
    hide Order, IsOrder, Near;
    assert position.Keys == {id} by {
      SubsetSize(position.Keys - {id}, position.Keys);
      assert |position| == |position.Keys| && |position.Keys - {id}| == |position.Keys| - 1;
    }
    AloneHasNoLocals(position, h, id);
    forall b ensures !Near(Order(position), h, id, b) {
      NearMeans(Order(position), h, id, b);
      assert b in Order(position) && Near(Order(position), h, id, b) ==> b in Locals(Order(position), h, id);
    }
    AddLinksNobody(g, id);
  }

  /** The first few of the shuffled candidates: which ones is up to the shuffle. */
  method PickSome(candidates: set<nat>, limit: nat) returns (chosen: set<nat>)
    ensures chosen <= candidates && |chosen| == Min(limit, |candidates|)
  {
    chosen := {};
    var left := candidates;
    while |chosen| < limit && left != {}
      invariant left + chosen == candidates && left !! chosen && |chosen| <= limit
    {
      var c :| c in left;
      left, chosen := left - {c}, chosen + {c};
    }
    SubsetSize(chosen, candidates);
  }

  class CappedRing {
    const localLinks: nat
    const maxDegree: nat
    var position: map<nat, real>
    var neighbors: map<nat, set<nat>>

    constructor (localLinks: nat, maxDegree: nat)
      ensures this.localLinks == localLinks && this.maxDegree == maxDegree
      ensures Valid() && RingIntact() && position == map[] && neighbors == map[]
    {
      this.localLinks, this.maxDegree, position, neighbors := localLinks, maxDegree, map[], map[];
    }

    /** ceil(localLinks / 2) */
    function Half(): nat { HalfOf(localLinks) }

    /** The cap leaves room for all ring-local links. */
    predicate Roomy() { 2 * Half() <= maxDegree }

    ghost predicate Valid()
      reads this
    {
      MeshOk(neighbors, position.Keys, maxDegree)
    }

    /** Every node is linked to the Half() nodes on either side of it. */
    ghost predicate RingIntact()
      reads this
    {
      RingLinked(neighbors, Order(position), Half())
    }

    function Degree(id: nat): nat
      reads this
    {
      if id in neighbors then |neighbors[id]| else 0
    }

    /** The record of a new node. */
    method Enter(id: nat, place: real)
      requires Valid() && id !in position
      modifies this
      ensures Valid() && position == old(position)[id := place] && neighbors == old(neighbors)[id := {}]
    {
      hide MeshOk;
      NewNodeIsSafe(neighbors, position.Keys, maxDegree, id);
      assert position[id := place].Keys == position.Keys + {id};
      position, neighbors := position[id := place], neighbors[id := {}];
    }

    method Forget(id: nat)
      requires Valid()
      modifies this
      ensures Valid() && position == old(position) - {id} && neighbors == DropNode(old(neighbors), id)
    {
      hide MeshOk, DropNode;
      DropNodeIsSafe(neighbors, position.Keys, maxDegree, id);
      assert (position - {id}).Keys == position.Keys - {id};
      position, neighbors := position - {id}, DropNode(neighbors, id);
    }

    /** An ordinary link: refused at a full node, between a node and itself, or to an absent node. */
    method Connect(a: nat, b: nat) returns (ok: bool)
      requires Valid()
      modifies this`neighbors
      ensures Valid()
      ensures ok <==> old(Degree(a)) < maxDegree && old(Degree(b)) < maxDegree && a != b && a in position && b in position
      ensures neighbors == if ok then AddLink(old(neighbors), a, b) else old(neighbors)
    {
      if Degree(a) >= maxDegree || Degree(b) >= maxDegree { return false; }
      if a == b { return false; }
      if a !in neighbors || b !in neighbors { return false; }
      AddLinkIsMutual(neighbors, a, b);
      if b in neighbors[a] {
        assert Linked(neighbors, b, a);
        assert neighbors[a] + {b} == neighbors[a] && neighbors[b] + {a} == neighbors[b];
        return true;
      }
      neighbors := neighbors[a := neighbors[a] + {b}];
      neighbors := neighbors[b := neighbors[b] + {a}];
      return true;
    }

    /** One non-local link of a node is cut, whichever one; with none left nothing happens. */
    method EvictNonLocal(id: nat) returns (ok: bool)
      requires Valid()
      modifies this`neighbors
      ensures Valid()
      ensures ok <==> id in position && old(neighbors)[id] - Locals(Order(position), Half(), id) != {}
      ensures if ok then Evicts(old(neighbors), neighbors, Locals(Order(position), Half(), id), id)
              else neighbors == old(neighbors)
    {
      hide Near, Locals, MeshOk, KeepsNear, Order, IsOrder, Evicts, CutLink;
      OrderMembers(position);
      MeshKeys(neighbors, position.Keys, maxDegree);
      if id !in neighbors { return false; }
      var localIds := LocalNodes(position, Half(), id);
      var nonLocal := neighbors[id] - localIds;
      if nonLocal == {} { return false; }
      var victim :| victim in nonLocal;
      EvictionIsSafe(neighbors, Order(position), Half(), id, victim, position.Keys, maxDegree);
      neighbors := CutLink(neighbors, id, victim);
      return true;
    }

    /** Keep going if the node has a free slot, or once a non-local link has been given up for one. */
    method FreeSlot(id: nat) returns (ok: bool)
      requires Valid() && id in position
      modifies this`neighbors
      ensures Valid()
      ensures ok <==> |old(neighbors)[id]| < maxDegree || old(neighbors)[id] - Locals(Order(position), Half(), id) != {}
      ensures if ok then MakesRoom(old(neighbors), neighbors, Locals(Order(position), Half(), id), id, maxDegree)
              else neighbors == old(neighbors)
    {
      hide Near, Locals, MeshOk, Order, Evicts;
      MeshKeys(neighbors, position.Keys, maxDegree);
      ok := true;
      if Degree(id) >= maxDegree {
        ok := EvictNonLocal(id);
      }
    }

    /** A ring-local link, for which a full end gives up one of its non-local links. */
    method ConnectLocal(a: nat, b: nat) returns (ok: bool)
      requires Valid()
      modifies this`neighbors
      ensures Valid()
      ensures LocalOutcome(old(neighbors), neighbors, Order(position), Half(), position.Keys, maxDegree, a, b, ok)
    {
      hide Near, Locals, MeshOk, KeepsNear, LocalOutcome, MakesRoom, Distinct, SafeStep, Order, IsOrder, AddLink,
        Half, Stuck;
      ghost var s, h, g, ids := Order(position), Half(), neighbors, position.Keys;
      OrderMembers(position);
      MeshKeys(g, ids, maxDegree);
      if a == b || a !in neighbors || b !in neighbors {
        OutcomeUnchanged(g, s, h, ids, maxDegree, a, b);
        return false;
      }
      if b in neighbors[a] {
        OutcomeUnchanged(g, s, h, ids, maxDegree, a, b);
        return true;
      }
      FreeSlotIfNear(g, s, h, a, b, maxDegree);
      NothingLost(g, s, h);
      ok := FreeSlot(a);
      if !ok {
        NothingToGiveUp(g, s, h, maxDegree, a);
        OutcomeNoSlot(g, g, s, h, ids, maxDegree, a, b);
        return;
      }
      ghost var g1 := neighbors;
      RoomIsSafe(g, g1, s, h, a, ids, maxDegree);
      StillUnlinked(g, g1, s, h, ids, maxDegree, a, b);
      FreeSlotIfNear(g1, s, h, b, a, maxDegree);
      NearMeans(s, h, a, b);
      ok := FreeSlot(b);
      if !ok {
        NothingToGiveUp(g1, s, h, maxDegree, b);
        OutcomeNoSlot(g, g1, s, h, ids, maxDegree, a, b);
        return;
      }
      LocalConnectionIsSafe(g, g1, neighbors, s, h, ids, maxDegree, a, b);
      neighbors := AddLink(neighbors, a, b);
    }

    /** connectLocal to every ring-local node, in whatever order the set yields them. */
    method LinkLocals(id: nat)
      requires Valid() && id in position
      modifies this`neighbors
      ensures Valid() && Repairs(old(neighbors), neighbors, Order(position), Half(), maxDegree)
      ensures HasLocals(neighbors, Order(position), Half(), maxDegree, id)
    {
      hide Near, MeshOk, KeepsNear, Repairs, HasLocal, LocalOutcome, Distinct, Order, IsOrder, Half, Index;
      ghost var s, h := Order(position), Half();
      var localIds := LocalNodes(position, Half(), id);
      var todo := localIds;
      RepairsNothing(neighbors, s, h, maxDegree);
      while todo != {}
        invariant Valid() && Repairs(old(neighbors), neighbors, s, h, maxDegree) && todo <= localIds
        invariant forall b :: b in localIds - todo ==> HasLocal(neighbors, s, h, maxDegree, id, b)
      {
        var lid :| lid in todo;
        ghost var g := neighbors;
        var ok := ConnectLocal(id, lid);
        LocalLinkRepairs(g, neighbors, s, h, position.Keys, maxDegree, id, lid, ok);
        RepairsTwice(old(neighbors), g, neighbors, s, h, maxDegree);
        LocalLinkIsThereIfPossible(g, neighbors, s, h, position.Keys, maxDegree, id, lid, ok);
        forall b | b in localIds - todo ensures HasLocal(neighbors, s, h, maxDegree, id, b) {
          HasLocalKept(g, neighbors, s, h, position.Keys, maxDegree, id, b);
        }
        todo := todo - {lid};
      }
      forall b | Near(s, h, id, b) ensures HasLocal(neighbors, s, h, maxDegree, id, b) {
        NearMeans(s, h, id, b);
        assert b in localIds;
      }
    }

    /** The nodes of a list in turn, those that are still there. */
    method RepairEach(repair: seq<nat>)
      requires Valid()
      modifies this`neighbors
      ensures Valid() && Repairs(old(neighbors), neighbors, Order(position), Half(), maxDegree)
      ensures HaveLocals(neighbors, position, Half(), maxDegree, Members(repair))
    {
      hide Near, Order, IsOrder, Half, KeepsNear, Repairs, MeshOk, HasLocals, HaveLocals, Locals;
      ghost var g0, s, h := neighbors, Order(position), Half();
      RepairsNothing(g0, s, h, maxDegree);
      NobodyHasLocals(g0, position, h, maxDegree);
      assert Members(repair[..0]) == {};
      for i := 0 to |repair|
        invariant Valid() && Repairs(g0, neighbors, s, h, maxDegree)
        invariant HaveLocals(neighbors, position, h, maxDegree, Members(repair[..i]))
      {
        ghost var g := neighbors;
        assert repair[..i + 1] == repair[..i] + [repair[i]];
        AppendedMembers(repair[..i], repair[i]);
        RepairsNothing(g, s, h, maxDegree);
        if repair[i] in position {
          LinkLocals(repair[i]);
          RepairsTwice(g0, g, neighbors, s, h, maxDegree);
        }
        RepairsKeep(g, neighbors, s, h, maxDegree);
        HaveLocalsKept(g, neighbors, position, h, maxDegree, Members(repair[..i]));
        OneMoreHasLocals(neighbors, position, h, maxDegree, Members(repair[..i]), repair[i]);
      }
      assert repair[..|repair|] == repair;
    }

    /** Link to a few strangers with a free slot; the chosen ones are as good as any order they come in. */
    method LinkFree(id: nat, chosen: set<nat>)
      requires Valid() && id in position && id in neighbors && chosen <= Free(neighbors, position.Keys, id, maxDegree)
      requires |neighbors[id]| + |chosen| <= maxDegree
      modifies this`neighbors
      ensures Valid() && KeepsNear(old(neighbors), neighbors, Order(position), Half())
      ensures neighbors == AddLinks(old(neighbors), id, chosen)
      ensures id in neighbors && |neighbors[id]| == |old(neighbors)[id]| + |chosen|
    {
      hide Near, Order, IsOrder, Half, KeepsNear, MeshOk, AddLinks, AddLink, Free;
      ghost var g := neighbors;
      ghost var done: set<nat> := {};
      var left := chosen;
      AddLinksNobody(g, id);
      while left != {}
        invariant Valid() && left + done == chosen && left !! done && |left| + |done| == |chosen|
        invariant neighbors == AddLinks(g, id, done)
      {
        var c :| c in left;
        FreeLinkFits(g, position.Keys, id, maxDegree, done, c);
        var ok := Connect(id, c);
        left := left - {c};
        done := done + {c};
      }
      assert done == chosen;
      FreeLinksAreSafe(g, Order(position), Half(), position.Keys, id, maxDegree, chosen);
    }

    method FarCandidates(id: nat) returns (candidates: set<nat>)
      requires id in position && id in neighbors
      ensures candidates == Far(neighbors, position, id, maxDegree)
    {
      hide RingDist;
      candidates := set x | x in position && x != id && x in neighbors && x !in neighbors[id]
        && |neighbors[x]| < maxDegree && RingDist(position[id], position[x]) >= 0.2;
    }

    /** The first `limit` of the shuffled far-away strangers with a free slot. */
    method FillFar(id: nat, limit: nat) returns (ghost far: set<nat>)
      requires Valid() && id in position && id in neighbors && |neighbors[id]| + limit <= maxDegree
      modifies this`neighbors
      ensures Valid() && KeepsNear(old(neighbors), neighbors, Order(position), Half())
      ensures IsFarChoice(old(neighbors), position, id, maxDegree, far, limit)
      ensures neighbors == AddLinks(old(neighbors), id, far)
    {
      hide Near, Order, IsOrder, Half, KeepsNear, MeshOk, AddLinks, Far, IsFarChoice, Free;
      FarAreFree(neighbors, position, id, maxDegree);
      var candidates := FarCandidates(id);
      var chosen := PickSome(candidates, limit);
      far := chosen;
      FarChoiceIs(neighbors, position, id, maxDegree, far, limit);
      LinkFree(id, chosen);
    }
  }
}
