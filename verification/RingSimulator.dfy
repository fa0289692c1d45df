/** The ring mesh without a degree cap: local links, long-range links, and a bounded passive view per node. */
module RingSimulator {
  import opened Sets
  import opened StableOrder
  import opened Ring
  import opened Links
  import opened Search
  import opened MailboxStore

  type Views = map<nat, seq<nat>>

  ghost predicate OnIds(g: Graph, ids: set<nat>) {
    g.Keys == ids && Mutual(g)
  }

  /** A passive view lists live other nodes, without repeats, within its size limit. */
  ghost predicate ViewOk(view: seq<nat>, id: nat, ids: set<nat>, size: nat) {
    Distinct(view) && |view| <= size && id !in view && forall p :: p in view ==> p in ids
  }

  ghost predicate ViewsOk(views: Views, ids: set<nat>, size: nat) {
    views.Keys == ids && forall id :: id in ids ==> ViewOk(views[id], id, ids, size)
  }

  /** Every link of g is still in g'. */
  ghost predicate Keeps(g: Graph, g': Graph) {
    forall a, b :: Linked(g, a, b) ==> Linked(g', a, b)
  }

  /** Set.add on an insertion-ordered Set. */
  function Added(view: seq<nat>, p: nat): seq<nat> {
    if p in view then view else view + [p]
  }

  /** Set.delete. */
  function Deleted(view: seq<nat>, p: nat): seq<nat> {
    if p in view then view[..Index(view, p)] + view[Index(view, p) + 1..] else view
  }

  lemma DeletedView(view: seq<nat>, p: nat, id: nat, ids: set<nat>, size: nat)
    requires ViewOk(view, id, ids, size)
    ensures ViewOk(Deleted(view, p), id, ids - {p}, size) && ViewOk(Deleted(view, p), id, ids, size)
    ensures forall q :: q in Deleted(view, p) <==> q in view && q != p
    ensures p in view ==> |Deleted(view, p)| + 1 == |view|
  {
    hide Index;
    if p in view {
      DroppedMembers(view, Index(view, p));
      DroppedDistinct(view, Index(view, p));
    }
  }

  lemma DroppedDistinct(s: seq<nat>, k: nat)
    requires Distinct(s) && k < |s|
    ensures Distinct(s[..k] + s[k + 1..])
  {
    var t := s[..k] + s[k + 1..];
    forall i, j | 0 <= i < j < |t| ensures t[i] != t[j] {
      var i', j' := if i < k then i else i + 1, if j < k then j else j + 1;
      assert t[i] == s[i'] && t[j] == s[j'];
    }
  }

  lemma AddedView(view: seq<nat>, p: nat, id: nat, ids: set<nat>, size: nat)
    requires ViewOk(view, id, ids, size) && p in ids && p != id
    ensures p in view || |view| < size ==> ViewOk(Added(view, p), id, ids, size)
    ensures forall q :: q in Added(view, p) <==> q in view || q == p
    ensures p !in view ==> |Added(view, p)| == |view| + 1
  {
  }

  /** Adding one and, if that is one too many, dropping the oldest. */
  function Rotated(view: seq<nat>, p: nat, size: nat): seq<nat> {
    var grown := Added(view, p);
    if |grown| > size then grown[1..] else grown
  }

  lemma RotatedView(view: seq<nat>, p: nat, id: nat, ids: set<nat>, size: nat)
    requires ViewOk(view, id, ids, size) && p in ids && p != id
    ensures ViewOk(Rotated(view, p, size), id, ids, size)
  {
    var grown, r := Added(view, p), Rotated(view, p, size);
    assert Distinct(grown) && id !in grown && forall q :: q in grown ==> q in ids;
    if |grown| > size {
      forall i, j | 0 <= i < j < |r| ensures r[i] != r[j] {
        assert r[i] == grown[i + 1] && r[j] == grown[j + 1];
      }
    }
  }

  /** The nodes 1 to i places to the left, and to the right, of the one at place k. */
  ghost function Lefts(s: seq<nat>, k: nat, i: nat): set<nat>
    requires k < |s| && i < |s|
  {
    if i == 0 then {} else Lefts(s, k, i - 1) + {s[Left(|s|, k, i)]}
  }

  ghost function Rights(s: seq<nat>, k: nat, i: nat): set<nat>
    requires k < |s| && i < |s|
  {
    if i == 0 then {} else Rights(s, k, i - 1) + {s[Right(|s|, k, i)]}
  }

  lemma NoSides(s: seq<nat>, k: nat)
    requires k < |s|
    ensures Lefts(s, k, 0) == {} && Rights(s, k, 0) == {} && Lefts(s, k, 0) + Rights(s, k, 0) == {}
  {
  }

  /** One more round: the node on either side joins its list. */
  lemma SidesGrow(s: seq<nat>, a: nat, i: nat, lefts: seq<nat>, rights: seq<nat>)
    requires Distinct(s) && a in s && 1 <= i < |s|
    requires Members(lefts) == Lefts(s, Index(s, a), i - 1) && Members(rights) == Rights(s, Index(s, a), i - 1)
    ensures var k := Index(s, a);
      var l, r := s[Left(|s|, k, i)], s[Right(|s|, k, i)];
      l != a && r != a && Members(lefts + [l]) == Lefts(s, k, i) && Members(rights + [r]) == Rights(s, k, i)
  {
    hide Index, Members, Left, Right;
    var k := Index(s, a);
    PlacesDiffer(s, a, i);
    AppendedMembers(lefts, s[Left(|s|, k, i)]);
    AppendedMembers(rights, s[Right(|s|, k, i)]);
  }

  lemma {:induction false} BothSidesAreLocal(s: seq<nat>, a: nat, i: nat)
    requires Distinct(s) && a in s && i < |s|
    ensures Lefts(s, Index(s, a), i) + Rights(s, Index(s, a), i) == Locals(s, i, a)
  {
    hide Index, Near;
    if i == 0 {
      LocalsOfZero(s, a);
    } else {
      BothSidesAreLocal(s, a, i - 1);
      LocalsGrow(s, a, i);
    }
  }

  lemma {:induction false} SidesAreOthers(s: seq<nat>, a: nat, i: nat, ids: set<nat>)
    requires Distinct(s) && a in s && i < |s| && forall x :: x in s ==> x in ids
    ensures var k := Index(s, a); Lefts(s, k, i) <= ids - {a} && Rights(s, k, i) <= ids - {a}
  {
    hide Index;
    if i > 0 {
      SidesAreOthers(s, a, i - 1, ids);
      PlacesDiffer(s, a, i);
    }
  }

  /** One step of either loop around node a, which is linked to `done` so far. */
  lemma LeftStep(g: Graph, ids: set<nat>, s: seq<nat>, a: nat, i: nat)
    requires OnIds(g, ids) && Distinct(s) && a in s && a in ids && 1 <= i < |s| && forall x :: x in s ==> x in ids
    ensures var k := Index(s, a);
      var done, p := Lefts(s, k, i - 1), s[Left(|s|, k, i)];
      a in g && p != a && p in ids && AddLinks(g, a, done).Keys == ids
      && AddLink(AddLinks(g, a, done), a, p) == AddLinks(g, a, Lefts(s, k, i))
  {
    hide Index, AddLinks, AddLink, Left;
    var k := Index(s, a);
    SidesAreOthers(s, a, i - 1, ids);
    PlacesDiffer(s, a, i);
    FanGrows(g, ids, a, Lefts(s, k, i - 1), s[Left(|s|, k, i)]);
  }

  lemma RightStep(g: Graph, ids: set<nat>, s: seq<nat>, a: nat, i: nat, left: set<nat>)
    requires OnIds(g, ids) && Distinct(s) && a in s && a in ids && 1 <= i < |s| && forall x :: x in s ==> x in ids
    requires left <= ids - {a}
    ensures var k := Index(s, a);
      var done, p := left + Rights(s, k, i - 1), s[Right(|s|, k, i)];
      a in g && p != a && p in ids && AddLinks(g, a, done).Keys == ids
      && AddLink(AddLinks(g, a, done), a, p) == AddLinks(g, a, left + Rights(s, k, i))
  {
    hide Index, AddLinks, AddLink, Right;
    var k := Index(s, a);
    SidesAreOthers(s, a, i - 1, ids);
    PlacesDiffer(s, a, i);
    FanGrows(g, ids, a, left + Rights(s, k, i - 1), s[Right(|s|, k, i)]);
    assert left + Rights(s, k, i - 1) + {s[Right(|s|, k, i)]} == left + Rights(s, k, i);
  }

  /** One round of the repair loop: the node on either side, if the link is missing. */
  lemma BothStep(g: Graph, ids: set<nat>, s: seq<nat>, a: nat, i: nat)
    requires OnIds(g, ids) && Distinct(s) && a in s && a in ids && 1 <= i < |s| && forall x :: x in s ==> x in ids
    ensures var k := Index(s, a);
      var done, l, r := Lefts(s, k, i - 1) + Rights(s, k, i - 1), s[Left(|s|, k, i)], s[Right(|s|, k, i)];
      && a in g && l != a && r != a && l in ids && r in ids
      && var g1, g2, g3 := AddLinks(g, a, done), AddLinks(g, a, done + {l}), AddLinks(g, a, Lefts(s, k, i) + Rights(s, k, i));
      && a in g1 && a in g2 && l in g1 && r in g2
      && g2 == (if l in g1[a] then g1 else AddLink(g1, a, l))
      && g3 == (if r in g2[a] then g2 else AddLink(g2, a, r))
  {
    hide Index, AddLinks, AddLink, Left, Right, OnIds;
    var k := Index(s, a);
    var done, l, r := Lefts(s, k, i - 1) + Rights(s, k, i - 1), s[Left(|s|, k, i)], s[Right(|s|, k, i)];
    SidesAreOthers(s, a, i - 1, ids);
    PlacesDiffer(s, a, i);
    FanGrows(g, ids, a, done, l);
    FanGrows(g, ids, a, done + {l}, r);
    assert done + {l} + {r} == Lefts(s, k, i) + Rights(s, k, i);
  }

  /** The loops stop at `half` or once around the circle, whichever comes first: all local nodes are covered. */
  lemma ReachedAround(s: seq<nat>, a: nat, half: nat)
    requires Distinct(s) && a in s
    ensures var i := Min(half, |s| - 1);
      i < |s| && Lefts(s, Index(s, a), i) + Rights(s, Index(s, a), i) == Locals(s, half, a)
  {
    hide Index, Near, Locals;
    var i := Min(half, |s| - 1);
    BothSidesAreLocal(s, a, i);
    if i != half {
      LocalsSaturate(s, a, i);
      LocalsSaturate(s, a, half);
    }
  }

  lemma NewLinkIsOk(g: Graph, ids: set<nat>, a: nat, b: nat)
    requires OnIds(g, ids) && a in ids && b in ids && a != b
    ensures a in g && b in g && OnIds(AddLink(g, a, b), ids) && Keeps(g, AddLink(g, a, b)) && Linked(AddLink(g, a, b), a, b)
    ensures Linked(g, a, b) ==> AddLink(g, a, b) == g
  {
    AddLinkIsMutual(g, a, b);
    if Linked(g, a, b) {
      assert Linked(g, b, a);
      assert g[a] + {b} == g[a] && g[b] + {a} == g[b];
    }
  }

  lemma IdsOf(g: Graph, ids: set<nat>)
    requires OnIds(g, ids)
    ensures forall x :: x in g <==> x in ids
  {
  }

  lemma KeepsTwice(g: Graph, g1: Graph, g2: Graph)
    requires Keeps(g, g1) && Keeps(g1, g2)
    ensures Keeps(g, g2)
  {
  }

  lemma KeepsSelf(g: Graph)
    ensures Keeps(g, g)
  {
  }

  lemma KeepsIsNear(g: Graph, g': Graph, s: seq<nat>, h: nat)
    requires Keeps(g, g')
    ensures KeepsNear(g, g', s, h)
  {
  }

  lemma NewLinksAreOk(g: Graph, ids: set<nat>, a: nat, peers: set<nat>)
    requires OnIds(g, ids) && a in ids && a !in peers && peers <= ids
    ensures a in g && OnIds(AddLinks(g, a, peers), ids) && Keeps(g, AddLinks(g, a, peers))
    ensures LinkedToAll(AddLinks(g, a, peers), a, peers)
  {
    AddLinksIsMutual(g, a, peers);
  }

  /** One more link of the growing fan around a node, whether or not it was there already. */
  lemma FanGrows(g: Graph, ids: set<nat>, a: nat, peers: set<nat>, p: nat)
    requires OnIds(g, ids) && a in ids && a !in peers && p in ids && p != a && peers <= ids
    ensures a in g && p in AddLinks(g, a, peers) && a in AddLinks(g, a, peers)
    ensures AddLink(AddLinks(g, a, peers), a, p) == AddLinks(g, a, peers + {p})
    ensures p in AddLinks(g, a, peers)[a] ==> AddLinks(g, a, peers) == AddLinks(g, a, peers + {p})
    ensures OnIds(AddLinks(g, a, peers), ids)
  {
    NewLinksAreOk(g, ids, a, peers);
    AddLinksOneMore(g, a, peers, p);
    NewLinkIsOk(AddLinks(g, a, peers), ids, a, p);
  }

  /** Whom a newcomer may take as long-range peers: far-away strangers or, failing those, all strangers. */
  function Shortcuts(g: Graph, position: map<nat, real>, id: nat): set<nat>
    requires id in position && id in g
  {
    var others := set x | x in position && x != id && x !in g[id];
    var far := set x | x in others && RingDist(position[id], position[x]) >= 0.2;
    if far != {} then far else others
  }

  ghost predicate IsShortcutChoice(g: Graph, position: map<nat, real>, id: nat, far: set<nat>, limit: nat) {
    id in position && id in g && far <= Shortcuts(g, position, id) && |far| == Min(limit, |Shortcuts(g, position, id)|)
  }

  lemma ShortcutsAreOthers(g: Graph, position: map<nat, real>, id: nat)
    requires id in position && id in g
    ensures Shortcuts(g, position, id) <= position.Keys - {id}
  {
  }

  function Strangers(g: Graph, position: map<nat, real>, id: nat): set<nat>
    requires id in g
  {
    set p | p in position && p != id && p !in g[id]
  }

  lemma StrangersAreOthers(g: Graph, position: map<nat, real>, id: nat)
    requires id in g
    ensures Strangers(g, position, id) <= position.Keys - {id}
  {
  }

  /** A newcomer's view holds strangers, as many as there are or as fit. */
  ghost predicate IsFirstView(g: Graph, position: map<nat, real>, id: nat, view: seq<nat>, size: nat) {
    && id in g && Distinct(view) && Members(view) <= Strangers(g, position, id)
    && |view| == Min(size, |Strangers(g, position, id)|)
  }

  lemma FirstViewIs(g: Graph, position: map<nat, real>, id: nat, view: seq<nat>, size: nat, taken: set<nat>)
    requires id in g && ViewOk(view, id, position.Keys, size) && |view| == |taken| && Members(view) == taken
    requires taken <= Strangers(g, position, id) && |taken| == Min(size, |Strangers(g, position, id)|)
    ensures IsFirstView(g, position, id, view, size)
  {
  }

  lemma OneMoreInView(view: seq<nat>, ids: set<nat>, size: nat, id: nat, p: nat, taken: set<nat>)
    requires ViewOk(view, id, ids, size) && p in ids && p != id && p !in taken && |view| < size && Members(view) == taken
    ensures ViewOk(Added(view, p), id, ids, size) && |Added(view, p)| == |view| + 1 && Members(Added(view, p)) == taken + {p}
  {
    hide ViewOk, Added;
    assert p !in view by { assert p !in Members(view); }
    AddedView(view, p, id, ids, size);
  }

  lemma OnlyNode(position: map<nat, real>, g: Graph, h: nat, id: nat, limit: nat)
    requires |position| <= 1 && id in position && OnIds(g, position.Keys)
    ensures AddLinks(g, id, Locals(Order(position), h, id)) == g && AddLinks(g, id, {}) == g
    ensures IsShortcutChoice(g, position, id, {}, limit)
    ensures forall size: nat :: IsFirstView(g, position, id, [], size)
  {
    hide Order, IsOrder, Near;
    assert position.Keys == {id} by {
      SubsetSize(position.Keys - {id}, position.Keys);
      assert |position.Keys - {id}| == 0;
    }
    AloneHasNoLocals(position, h, id);
    AddLinksNobody(g, id);
    assert Shortcuts(g, position, id) == {};
    assert Strangers(g, position, id) == {};
  }

  lemma NewNodeIsOk(g: Graph, views: Views, ids: set<nat>, size: nat, id: nat)
    requires OnIds(g, ids) && ViewsOk(views, ids, size) && id !in ids
    ensures OnIds(g[id := {}], ids + {id}) && ViewsOk(views[id := []], ids + {id}, size)
  {
    var g' := g[id := {}];
    forall a, b | Linked(g', a, b) ensures Linked(g', b, a) && a != b {
      assert Linked(g, a, b);
    }
    forall x | x in ids ensures ViewOk(views[x], x, ids + {id}, size) {
      assert ViewOk(views[x], x, ids, size);
    }
  }

  lemma ChoiceIsOthers(g: Graph, position: map<nat, real>, id: nat, far: set<nat>, limit: nat)
    requires IsShortcutChoice(g, position, id, far, limit)
    ensures far <= position.Keys - {id}
  {
  }

  /** A newcomer has all its ring-local links and nobody has lost any. */
  lemma NewcomerIsLinked(
    g0: Graph, local: Graph, g': Graph, position: map<nat, real>, h: nat, id: nat, far: set<nat>)
    requires OnIds(g0, position.Keys) && OnIds(g', position.Keys) && id in position && id in g0
    requires local == AddLinks(g0, id, Locals(Order(position), h, id)) && g' == AddLinks(local, id, far)
    requires far <= position.Keys - {id}
    ensures Mutual(g') && KeepsNear(g0, g', Order(position), h) && LinkedToAll(g', id, Locals(Order(position), h, id))
  {
    hide Order, Near, AddLinks;
    var locals := Locals(Order(position), h, id);
    LocalsAreOthers(position, h, id);
    NewLinksAreOk(g0, position.Keys, id, locals);
    NewLinksAreOk(local, position.Keys, id, far);
    KeepsTwice(g0, local, g');
    KeepsIsNear(g0, g', Order(position), h);
    forall b | b in locals ensures Linked(g', id, b) {
      assert Linked(local, id, b);
    }
  }

  lemma LocalsAreOthers(position: map<nat, real>, h: nat, id: nat)
    ensures Locals(Order(position), h, id) <= position.Keys - {id}
  {
    hide Order, Index;
    OrderMembers(position);
  }

  /** No link of g is lost, and every link that g' has on top has an end in `who`. */
  ghost predicate GrowsAround(g: Graph, g': Graph, who: set<nat>) {
    && Keeps(g, g')
    && forall a, b :: Linked(g', a, b) && !Linked(g, a, b) ==> a in who || b in who
  }

  lemma GrowsNowhere(g: Graph, who: set<nat>)
    ensures GrowsAround(g, g, who)
  {
  }

  lemma GrowsTwice(g: Graph, g1: Graph, g2: Graph, who: set<nat>, more: set<nat>)
    requires GrowsAround(g, g1, who) && GrowsAround(g1, g2, more) && more <= who
    ensures GrowsAround(g, g2, who)
  {
    forall a, b | Linked(g, a, b) ensures Linked(g2, a, b) { assert Linked(g1, a, b); }
    forall a, b | Linked(g2, a, b) && !Linked(g, a, b) ensures a in who || b in who {
      assert !Linked(g1, a, b) || Linked(g1, a, b);
    }
  }

  lemma GrowthKeepsNear(g: Graph, g': Graph, who: set<nat>, s: seq<nat>, h: nat)
    requires GrowsAround(g, g', who)
    ensures KeepsNear(g, g', s, h) && Keeps(g, g')
  {
  }

  lemma FanIsAround(g: Graph, ids: set<nat>, id: nat, peers: set<nat>)
    requires OnIds(g, ids) && id in ids && id !in peers && peers <= ids && id in g
    ensures GrowsAround(g, AddLinks(g, id, peers), {id})
  {
    AddLinksIsMutual(g, id, peers);
  }

  /** Everyone's passive view without one node. */
  function ViewsWithout(views: Views, id: nat): Views {
    map p | p in views && p != id :: Deleted(views[p], id)
  }

  lemma DepartureIsOk(g: Graph, views: Views, ids: set<nat>, size: nat, id: nat)
    requires OnIds(g, ids) && ViewsOk(views, ids, size)
    ensures OnIds(DropNode(g, id), ids - {id}) && ViewsOk(ViewsWithout(views, id), ids - {id}, size)
  {
    hide ViewOk, Deleted;
    DropNodeIsMutual(g, id);
    forall x ensures x in DropNode(g, id) <==> x in ids - {id} {}
    forall x ensures x in ViewsWithout(views, id) <==> x in ids - {id} {}
    forall x | x in ids - {id} ensures ViewOk(ViewsWithout(views, id)[x], x, ids - {id}, size) {
      DeletedView(views[x], id, x, ids, size);
    }
  }

  lemma NobodyLeaves(position: map<nat, real>, g: Graph, id: nat)
    requires OnIds(g, position.Keys) && id !in position
    ensures position - {id} == position && DropNode(g, id) == g
  {
    forall x | x in g ensures DropNode(g, id)[x] == g[x] {
      assert Linked(g, x, id) ==> Linked(g, id, x);
    }
  }

  lemma NoMembers()
    ensures Members([]) == {}
  {
  }

  lemma InMembers(s: seq<nat>, i: nat)
    requires i < |s|
    ensures {s[i]} <= Members(s)
  {
  }

  lemma BothLists(a: seq<nat>, b: seq<nat>)
    ensures Members(a + b) == Members(a) + Members(b)
  {
  }

  lemma ViewIds(views: Views, ids: set<nat>, size: nat, id: nat)
    requires ViewsOk(views, ids, size) && id in ids
    ensures id in views && ViewOk(views[id], id, ids, size) && id !in views[id]
    ensures forall p :: p in views[id] ==> p in ids
  {
    assert ViewOk(views[id], id, ids, size);
  }

  /** One entry less in one view. */
  lemma ShrunkView(views: Views, ids: set<nat>, size: nat, id: nat, p: nat)
    requires ViewsOk(views, ids, size) && id in ids
    ensures id in views && ViewsOk(views[id := Deleted(views[id], p)], ids, size)
    ensures forall q :: q in Deleted(views[id], p) <==> q in views[id] && q != p
    ensures p in views[id] ==> |Deleted(views[id], p)| + 1 == |views[id]| && p != id
  {
    assert ViewOk(views[id], id, ids, size);
    DeletedView(views[id], p, id, ids, size);
  }

  /** A node with enough links, or whose view holds nobody else to link to. */
  ghost predicate Sated(g: Graph, views: Views, id: nat, target: nat) {
    id in g && id in views && (|g[id]| >= target || forall p :: p in views[id] ==> p in g[id])
  }

  predicate InView(views: Views, id: nat, p: nat) {
    id in views && p in views[id]
  }

  lemma SatedNow(
    g: Graph, g': Graph, view: seq<nat>, views: Views, ids: set<nat>, id: nat, chosen: set<nat>, target: nat)
    requires OnIds(g, ids) && id in ids && id in g && id in views && g' == AddLinks(g, id, chosen) && id !in chosen
    requires (forall p :: p in view ==> p in ids) && forall p :: p in views[id] <==> p in view && p !in chosen
    requires var cands := set p | p in view && p in ids && p !in g[id];
      chosen <= cands && |chosen| == if |g[id]| < target then Min(target - |g[id]|, |cands|) else 0
    ensures Sated(g', views, id, target) && (chosen != {} ==> |g'[id]| <= target)
  {
    assert g'[id] == g[id] + chosen;
    SubsetSize(chosen, set p | p in view && p in ids && p !in g[id]);
  }

  lemma SatedKept(
    g: Graph, g': Graph, views: Views, views': Views, ids: set<nat>, id: nat, a: nat, target: nat)
    requires OnIds(g, ids) && OnIds(g', ids) && Keeps(g, g') && Sated(g, views, a, target) && a != id && id in views'
    requires views' == views[id := views'[id]]
    ensures Sated(g', views', a, target)
  {
    forall p | p in g[a] ensures p in g'[a] {
      assert Linked(g, a, p);
      assert Linked(g', a, p);
    }
    SubsetSize(g[a], g'[a]);
  }

  lemma UpdatedTwice(views: Views, views1: Views, id: nat, view: seq<nat>)
    requires id in views1 && views1 == views[id := views1[id]]
    ensures views1[id := view] == views[id := view]
  {
  }

  function PairsWith(id: nat, chosen: set<nat>): set<(nat, nat)> {
    set p | p in chosen :: (id, p)
  }

  lemma {:induction false} PairsWithSize(id: nat, chosen: set<nat>)
    ensures |PairsWith(id, chosen)| == |chosen|
  {
    if chosen != {} {
      var p :| p in chosen;
      PairsWithSize(id, chosen - {p});
      assert PairsWith(id, chosen) == PairsWith(id, chosen - {p}) + {(id, p)};
    }
  }

  lemma TakenGrow(
    g: Graph, g1: Graph, g': Graph, views0: Views, views: Views, views': Views, ids: set<nat>, id: nat,
    chosen: set<nat>, taken: set<(nat, nat)>, todo: set<nat>)
    requires OnIds(g1, ids) && id in g1 && id in ids && Keeps(g, g') && g' == AddLinks(g1, id, chosen)
    requires id in views && id in views' && views' == views[id := views'[id]] && id in todo
    requires forall p :: p in views'[id] <==> p in views[id] && p !in chosen
    requires forall p :: p in chosen ==> p in views[id] && p in ids && p != id
    requires forall a: nat, p: nat :: (a, p) in taken ==> a !in todo && Linked(g, a, p)
    requires forall a: nat, p: nat :: InView(views, a, p) <==> InView(views0, a, p) && (a, p) !in taken
    ensures var more := taken + PairsWith(id, chosen);
      && |more| == |taken| + |chosen|
      && (forall a: nat, p: nat :: (a, p) in more ==> a !in todo - {id} && Linked(g', a, p))
      && (forall a: nat, p: nat :: InView(views', a, p) <==> InView(views0, a, p) && (a, p) !in more)
  {
    PairsWithSize(id, chosen);
    assert taken !! PairsWith(id, chosen);
    NewLinksAreOk(g1, ids, id, chosen);
    forall p | p in chosen ensures Linked(g', id, p) { }
    forall a: nat, p: nat ensures InView(views', a, p) <==> InView(views0, a, p) && (a, p) !in taken + PairsWith(id, chosen) {
      assert (a, p) in PairsWith(id, chosen) <==> a == id && p in chosen;
      assert a != id ==> (InView(views', a, p) <==> InView(views, a, p));
    }
  }

  lemma PairsAfterAdd(g: Graph, ids: set<nat>, a: nat, b: nat)
    requires OnIds(g, ids) && a in g && b in g && a != b && !Linked(g, a, b)
    ensures |Pairs(AddLink(g, a, b))| == |Pairs(g)| + 2
  {
    PairsOfAdd(g, a, b);
    assert !Linked(g, b, a) by { assert Linked(g, b, a) ==> Linked(g, a, b); }
    assert (a, b) !in Pairs(g) && (b, a) !in Pairs(g);
    assert Pairs(g) + {(a, b), (b, a)} == Pairs(g) + {(a, b)} + {(b, a)};
  }

  lemma PairsAfterCut(g: Graph, ids: set<nat>, a: nat, b: nat)
    requires OnIds(g, ids) && a in g && b in g && Linked(g, a, b)
    ensures |Pairs(CutLink(g, a, b))| + 2 == |Pairs(g)|
  {
    assert Linked(g, b, a) && a != b;
    PairsOfCut(g, a, b);
    assert (a, b) in Pairs(g) && (b, a) in Pairs(g);
    assert Pairs(g) == Pairs(g) - {(a, b), (b, a)} + {(a, b)} + {(b, a)};
  }

  /** Strangers far away on the ring that a node has in its view. */
  function FarInView(g: Graph, views: Views, position: map<nat, real>, id: nat): set<nat>
    requires id in g && id in views && id in position
  {
    set p | p in views[id] && p in position && p !in g[id] && RingDist(position[id], position[p]) >= 0.2
  }

  /**
   * One long-range link of `id` is exchanged for a link to a far-away stranger from its view, and the two change places
   * in the view. Nothing happens exactly if there is no such link or no such stranger.
   */
  ghost predicate Exchanged(
    g: Graph, g': Graph, views: Views, views': Views, position: map<nat, real>, local: set<nat>, id: nat)
  {
    && id in g && id in views && id in position
    && if g[id] - local == {} || FarInView(g, views, position, id) == {} then g' == g && views' == views
       else exists p, q ::
         && p in FarInView(g, views, position, id) && q in g[id] - local && p in g && q in g
         && g' == CutLink(AddLink(g, id, p), id, q)
         && views' == views[id := Added(Deleted(views[id], p), q)]
  }

  /** What a round of exchanges goes through: after as many nodes as have had their turn, the links and the views. */
  ghost predicate IsShuffleRun(
    states: seq<(Graph, Views)>, order: seq<nat>, position: map<nat, real>, s: seq<nat>, h: nat)
  {
    && |states| == |order| + 1 && Distinct(order)
    && forall i :: 0 <= i < |order| ==>
         Exchanged(states[i].0, states[i + 1].0, states[i].1, states[i + 1].1, position, Locals(s, h, order[i]), order[i])
  }

  lemma NoExchanges(g: Graph, views: Views, position: map<nat, real>, s: seq<nat>, h: nat)
    ensures IsShuffleRun([(g, views)], [], position, s, h)
  {
  }

  lemma OneMoreExchanged(
    states: seq<(Graph, Views)>, order: seq<nat>, position: map<nat, real>, s: seq<nat>, h: nat, id: nat,
    g': Graph, views': Views)
    requires IsShuffleRun(states, order, position, s, h) && id !in order
    requires var (g, views) := states[|order|]; Exchanged(g, g', views, views', position, Locals(s, h, id), id)
    ensures IsShuffleRun(states + [(g', views')], order + [id], position, s, h)
  {
    hide Exchanged, Locals;
    var more, ids := states + [(g', views')], order + [id];
    forall i | 0 <= i < |ids| ensures
      Exchanged(more[i].0, more[i + 1].0, more[i].1, more[i + 1].1, position, Locals(s, h, ids[i]), ids[i])
    {
      if i < |order| {
        assert Exchanged(
          states[i].0, states[i + 1].0, states[i].1, states[i + 1].1, position, Locals(s, h, order[i]), order[i]);
      }
    }
  }

  lemma FarInViewMeans(g: Graph, views: Views, position: map<nat, real>, id: nat, p: nat)
    requires id in g && id in views && id in position && p in FarInView(g, views, position, id)
    ensures p in views[id] && p in position && !Linked(g, id, p)
  {
  }

  lemma ExchangeIsSafe(g: Graph, ids: set<nat>, s: seq<nat>, h: nat, id: nat, p: nat, q: nat)
    requires OnIds(g, ids) && id in ids && p in ids && p != id && !Linked(g, id, p)
    requires Linked(g, id, q) && q !in Locals(s, h, id) && id in s && forall x :: x in s <==> x in ids
    ensures q in ids && q != id && id in g && p in g && q in g
    ensures var g1 := AddLink(g, id, p); var g2 := CutLink(g1, id, q);
      OnIds(g1, ids) && OnIds(g2, ids) && KeepsNear(g, g2, s, h) && |Pairs(g2)| == |Pairs(g)|
  {
    hide Pairs, Locals, Near, Index;
    assert Linked(g, q, id) && q != id;
    var g1 := AddLink(g, id, p);
    NewLinkIsOk(g, ids, id, p);
    PairsAfterAdd(g, ids, id, p);
    PairsAfterCut(g1, ids, id, q);
    CutLinkIsMutual(g1, id, q);
    forall a, b | Near(s, h, a, b) && Linked(g, a, b) ensures Linked(CutLink(g1, id, q), a, b) {
      NearMeans(s, h, a, b);
      LocalsMeans(s, h, a, b);
      LocalsMeans(s, h, b, a);
    }
  }

  lemma LocalsMeans(s: seq<nat>, h: nat, a: nat, b: nat)
    requires Near(s, h, a, b)
    ensures b in Locals(s, h, a)
  {
  }

  lemma KeptRingIsIntact(g: Graph, g': Graph, s: seq<nat>, h: nat)
    requires RingLinked(g, s, h) && KeepsNear(g, g', s, h)
    ensures RingLinked(g', s, h)
  {
  }

  /** The new peer leaves the view and the old one enters it, so it does not grow. */
  lemma ExchangedView(views: Views, ids: set<nat>, size: nat, id: nat, p: nat, q: nat)
    requires ViewsOk(views, ids, size) && id in ids && id in views && p in views[id] && q in ids && q != id
    ensures ViewsOk(views[id := Added(Deleted(views[id], p), q)], ids, size)
    ensures ViewsOk(views[id := Deleted(views[id], p)], ids, size)
  {
    hide Deleted, Added;
    assert ViewOk(views[id], id, ids, size);
    DeletedView(views[id], p, id, ids, size);
    AddedView(Deleted(views[id], p), q, id, ids, size);
  }

  function FirstEight(view: seq<nat>): seq<nat> {
    if |view| <= 8 then view else view[..8]
  }

  /** The view after taking in the entries of another view, the useful ones among them. */
  function TakeIn(view: seq<nat>, entries: seq<nat>, id: nat, links: set<nat>, ids: set<nat>, size: nat): seq<nat> {
    if entries == [] then view else
      var before := TakeIn(view, entries[..|entries| - 1], id, links, ids, size);
      var e := entries[|entries| - 1];
      if e != id && e !in links && e in ids then Rotated(before, e, size) else before
  }

  lemma {:induction false} TakeInIsOk(
    view: seq<nat>, entries: seq<nat>, id: nat, links: set<nat>, ids: set<nat>, size: nat)
    requires ViewOk(view, id, ids, size)
    ensures ViewOk(TakeIn(view, entries, id, links, ids, size), id, ids, size)
  {
    hide ViewOk, Rotated;
    if entries != [] {
      var before, e := TakeIn(view, entries[..|entries| - 1], id, links, ids, size), entries[|entries| - 1];
      TakeInIsOk(view, entries[..|entries| - 1], id, links, ids, size);
      if e != id && e in ids { RotatedView(before, e, id, ids, size); }
    }
  }

  /** A live id that is neither the owner of the view nor linked to it. */
  ghost predicate Useful(e: nat, id: nat, links: set<nat>, ids: set<nat>) {
    e != id && e !in links && e in ids
  }

  /**
   * What becomes of a view that is offered some entries: useful ones come in at the end and the oldest make room. A
   * useful entry that was not there before is there afterwards.
   */
  ghost predicate TookIn(
    view: seq<nat>, view': seq<nat>, offered: seq<nat>, id: nat, links: set<nat>, ids: set<nat>, size: nat)
  {
    && (exists news: seq<nat> ::
          && (forall e :: e in news ==> e in offered && Useful(e, id, links, ids))
          && view' == Newest(view + news, size))
    && forall e :: e in offered && e !in view && Useful(e, id, links, ids) ==> e in view'
  }

  function Newest(view: seq<nat>, size: nat): seq<nat> {
    if |view| <= size then view else view[|view| - size..]
  }

  lemma NewestOf(view: seq<nat>, size: nat)
    ensures |Newest(view, size)| <= size && (|view| <= size ==> Newest(view, size) == view)
  {
  }

  lemma RotatedIsNewest(all: seq<nat>, e: nat, size: nat)
    requires e !in Newest(all, size)
    ensures Rotated(Newest(all, size), e, size) == Newest(all + [e], size)
  {
    var kept := Newest(all, size);
    if |all| >= size {
      assert kept == all[|all| - size..];
      assert (kept + [e])[1..] == (all + [e])[|all| + 1 - size..];
    }
  }

  lemma RotatedKept(view: seq<nat>, e: nat, size: nat)
    requires e in view && |view| <= size
    ensures Rotated(view, e, size) == view
  {
  }

  lemma {:induction false} TakeInIsNewest(
    view: seq<nat>, entries: seq<nat>, id: nat, links: set<nat>, ids: set<nat>, size: nat) returns (news: seq<nat>)
    requires |view| <= size
    ensures forall e :: e in news ==> e in entries && Useful(e, id, links, ids)
    ensures TakeIn(view, entries, id, links, ids, size) == Newest(view + news, size)
  {
    hide Newest, Rotated;
    news := [];
    NewestOf(view, size);
    if entries == [] {
      assert view + news == view;
    } else {
      var n := |entries| - 1;
      news := TakeInIsNewest(view, entries[..n], id, links, ids, size);
      var before, e := TakeIn(view, entries[..n], id, links, ids, size), entries[n];
      NewestOf(view + news, size);
      if Useful(e, id, links, ids) {
        if e in before {
          RotatedKept(before, e, size);
        } else {
          RotatedIsNewest(view + news, e, size);
          assert view + (news + [e]) == view + news + [e];
          news := news + [e];
        }
      }
    }
  }

  /** One more entry moves the ones before it at most one place. */
  lemma StillThere(view: seq<nat>, e: nat, size: nat, k: nat, d: nat) returns (k': nat)
    requires k < |view| <= size && |view| <= k + d && d < size
    ensures var r := Rotated(view, e, size); k' < |r| <= k' + d + 1 && r[k'] == view[k]
  {
    hide Rotated;
    RotatedIs(view, e, size);
    k' := if e !in view && |view| == size then k - 1 else k;
  }

  lemma JustIn(view: seq<nat>, e: nat, size: nat)
    requires e !in view && |view| <= size && 0 < size
    ensures var r := Rotated(view, e, size); r != [] && r[|r| - 1] == e
  {
  }

  /** An entry that comes in goes no farther from the end of the view than entries come after it. */
  lemma {:induction false} TakeInKeeps(
    view: seq<nat>, entries: seq<nat>, id: nat, links: set<nat>, ids: set<nat>, size: nat, i: nat) returns (k: nat)
    requires |view| <= size && Distinct(entries) && |entries| <= size && i < |entries|
    requires entries[i] !in view && Useful(entries[i], id, links, ids)
    ensures var r := TakeIn(view, entries, id, links, ids, size); k < |r| <= k + |entries| - i && r[k] == entries[i]
  {
    hide TakeIn, Rotated, Useful, Newest, Distinct;
    var n := |entries| - 1;
    var first, e := entries[..n], entries[n];
    FirstOfDistinct(entries, n);
    TakeInLast(view, entries, id, links, ids, size);
    TakeInFits(view, first, id, links, ids, size);
    var before := TakeIn(view, first, id, links, ids, size);
    if i == n {
      if e in before {
        TakenInFrom(view, first, id, links, ids, size, e);
        NotAmongEarlier(entries, n);
      }
      JustIn(before, e, size);
      k := |Rotated(before, e, size)| - 1;
    } else {
      assert first[i] == entries[i];
      k := TakeInKeeps(view, first, id, links, ids, size, i);
      if Useful(e, id, links, ids) { k := StillThere(before, e, size, k, n - i); }
    }
  }

  lemma TakeInFits(view: seq<nat>, entries: seq<nat>, id: nat, links: set<nat>, ids: set<nat>, size: nat)
    requires |view| <= size
    ensures |TakeIn(view, entries, id, links, ids, size)| <= size
  {
    hide TakeIn;
    var news := TakeInIsNewest(view, entries, id, links, ids, size);
  }

  lemma TakeInLast(view: seq<nat>, entries: seq<nat>, id: nat, links: set<nat>, ids: set<nat>, size: nat)
    requires entries != []
    ensures var before, e := TakeIn(view, entries[..|entries| - 1], id, links, ids, size), entries[|entries| - 1];
      TakeIn(view, entries, id, links, ids, size) == if Useful(e, id, links, ids) then Rotated(before, e, size) else before
  {
  }

  lemma RotatedIs(view: seq<nat>, e: nat, size: nat)
    requires |view| <= size
    ensures e in view ==> Rotated(view, e, size) == view
    ensures e !in view && |view| < size ==> Rotated(view, e, size) == view + [e]
    ensures e !in view && 0 < |view| == size ==> Rotated(view, e, size) == view[1..] + [e]
  {
  }

  lemma TakeInTakes(view: seq<nat>, entries: seq<nat>, id: nat, links: set<nat>, ids: set<nat>, size: nat)
    requires |view| <= size && Distinct(entries) && |entries| <= size
    ensures TookIn(view, TakeIn(view, entries, id, links, ids, size), entries, id, links, ids, size)
  {
    hide TakeIn, Distinct;
    var news := TakeInIsNewest(view, entries, id, links, ids, size);
    forall e | e in entries && e !in view && Useful(e, id, links, ids)
      ensures e in TakeIn(view, entries, id, links, ids, size)
    {
      var i :| 0 <= i < |entries| && entries[i] == e;
      var k := TakeInKeeps(view, entries, id, links, ids, size, i);
    }
  }

  /** Each of the two took in what the other offered: its oldest eight entries. Other views stay. */
  ghost predicate Offered(views: Views, views': Views, id: nat, target: nat, g: Graph, ids: set<nat>, size: nat) {
    && id in views && target in views && id in g && target in g && views'.Keys == views.Keys
    && TookIn(views[id], views'[id], views[target][..Min(8, |views[target]|)], id, g[id], ids, size)
    && TookIn(views[target], views'[target], views[id][..Min(8, |views[id]|)], target, g[target], ids, size)
    && forall x :: x in views && x != id && x != target ==> views'[x] == views[x]
  }

  lemma SwapIsAnOffer(views: Views, id: nat, target: nat, g: Graph, ids: set<nat>, size: nat)
    requires ViewsOk(views, ids, size) && OnIds(g, ids) && Linked(g, id, target)
    ensures Offered(views, Swapped(views, id, target, g, ids, size), id, target, g, ids, size)
    ensures ViewsOk(Swapped(views, id, target, g, ids, size), ids, size)
  {
    hide TakeIn, TookIn, Distinct, Mutual;
    LinkedIsOther(g, ids, id, target);
    var mine, theirs := FirstEight(views[id]), FirstEight(views[target]);
    assert mine == views[id][..Min(8, |views[id]|)] && theirs == views[target][..Min(8, |views[target]|)];
    FirstOfDistinct(views[id], |mine|);
    FirstOfDistinct(views[target], |theirs|);
    TakeInTakes(views[id], theirs, id, g[id], ids, size);
    TakeInTakes(views[target], mine, target, g[target], ids, size);
    TakeInIsOk(views[id], theirs, id, g[id], ids, size);
    TakeInIsOk(views[target], mine, target, g[target], ids, size);
  }

  lemma FirstOfDistinct(s: seq<nat>, n: nat)
    requires Distinct(s) && n <= |s|
    ensures Distinct(s[..n])
  {
  }

  /** In a run of swaps each one is such an exchange, from the views that the ones before it left. */
  lemma {:induction false} SwapsAreOffers(
    views: Views, swaps: seq<(nat, nat)>, g: Graph, ids: set<nat>, size: nat)
    requires ViewsOk(views, ids, size) && OnIds(g, ids)
    requires forall k :: 0 <= k < |swaps| ==> Linked(g, swaps[k].0, swaps[k].1)
    ensures ViewsOk(AfterSwaps(views, swaps, g, ids, size), ids, size)
    ensures AfterSwaps(views, swaps[..0], g, ids, size) == views
    ensures forall k :: 0 <= k < |swaps| ==> Offered(AfterSwaps(views, swaps[..k], g, ids, size),
      AfterSwaps(views, swaps[..k + 1], g, ids, size), swaps[k].0, swaps[k].1, g, ids, size)
  {
    hide ViewsOk, OnIds, Offered, Swapped, Linked;
    if swaps != [] {
      var n := |swaps| - 1;
      var first, last := swaps[..n], swaps[n];
      SwapsAreOffers(views, first, g, ids, size);
      SwapIsAnOffer(AfterSwaps(views, first, g, ids, size), last.0, last.1, g, ids, size);
      assert swaps[..n + 1] == swaps;
      forall k | 0 <= k < |swaps| ensures Offered(AfterSwaps(views, swaps[..k], g, ids, size),
        AfterSwaps(views, swaps[..k + 1], g, ids, size), swaps[k].0, swaps[k].1, g, ids, size)
      {
        if k < n { assert swaps[..k] == first[..k] && swaps[..k + 1] == first[..k + 1]; }
      }
    }
  }

  lemma OneViewChanges(views: Views, ids: set<nat>, size: nat, id: nat, view: seq<nat>)
    requires ViewsOk(views, ids, size) && id in ids && ViewOk(view, id, ids, size)
    ensures ViewsOk(views[id := view], ids, size)
  {
  }

  lemma LinkedIsOther(g: Graph, ids: set<nat>, a: nat, b: nat)
    requires OnIds(g, ids) && a in g && b in g[a]
    ensures b in ids && b != a && b in g
  {
    assert Linked(g, a, b) && Linked(g, b, a);
  }

  lemma TakenViewIsOk(views: Views, ids: set<nat>, size: nat, id: nat, links: set<nat>, entries: seq<nat>)
    requires ViewsOk(views, ids, size) && id in ids && id in views
    ensures ViewsOk(views[id := TakeIn(views[id], entries, id, links, ids, size)], ids, size)
  {
    hide ViewOk, TakeIn;
    assert ViewOk(views[id], id, ids, size);
    TakeInIsOk(views[id], entries, id, links, ids, size);
  }

  /** Both views after an exchange of their oldest eight entries. */
  function Swapped(views: Views, id: nat, target: nat, g: Graph, ids: set<nat>, size: nat): Views {
    if id !in views || target !in views || id !in g || target !in g then views else
      views
        [id := TakeIn(views[id], FirstEight(views[target]), id, g[id], ids, size)]
        [target := TakeIn(views[target], FirstEight(views[id]), target, g[target], ids, size)]
  }

  function AfterSwaps(views: Views, swaps: seq<(nat, nat)>, g: Graph, ids: set<nat>, size: nat): Views {
    if swaps == [] then views else
      var (id, target) := swaps[|swaps| - 1];
      Swapped(AfterSwaps(views, swaps[..|swaps| - 1], g, ids, size), id, target, g, ids, size)
  }

  lemma NoSwaps(views: Views, g: Graph, ids: set<nat>, size: nat)
    ensures AfterSwaps(views, [], g, ids, size) == views
  {
  }

  lemma OneMoreSwap(views: Views, swaps: seq<(nat, nat)>, id: nat, target: nat, g: Graph, ids: set<nat>, size: nat)
    ensures AfterSwaps(views, swaps + [(id, target)], g, ids, size) ==
      Swapped(AfterSwaps(views, swaps, g, ids, size), id, target, g, ids, size)
  {
    assert (swaps + [(id, target)])[..|swaps|] == swaps;
  }

  ghost predicate Known(views: Views, p: nat) {
    exists id :: InView(views, id, p)
  }

  lemma {:induction false} TakenInFrom(view: seq<nat>, entries: seq<nat>, id: nat, links: set<nat>, ids: set<nat>, size: nat, p: nat)
    requires p in TakeIn(view, entries, id, links, ids, size)
    ensures p in view || p in entries
  {
    if entries != [] {
      var before := TakeIn(view, entries[..|entries| - 1], id, links, ids, size);
      assert p in before || p == entries[|entries| - 1];
      if p in before { TakenInFrom(view, entries[..|entries| - 1], id, links, ids, size, p); }
    }
  }

  /** Shuffling only passes ids around: nobody ends up with an id that was in no view before. */
  lemma {:induction false} ShuffleInventsNothing(
    views: Views, swaps: seq<(nat, nat)>, g: Graph, ids: set<nat>, size: nat, p: nat)
    requires Known(AfterSwaps(views, swaps, g, ids, size), p)
    ensures Known(views, p)
  {
    hide TakeIn;
    if swaps != [] {
      var (id, target) := swaps[|swaps| - 1];
      var before := AfterSwaps(views, swaps[..|swaps| - 1], g, ids, size);
      var x :| InView(Swapped(before, id, target, g, ids, size), x, p);
      SwapInventsNothing(before, id, target, g, ids, size, x, p);
      ShuffleInventsNothing(views, swaps[..|swaps| - 1], g, ids, size, p);
    }
  }

  lemma SwapInventsNothing(
    views: Views, id: nat, target: nat, g: Graph, ids: set<nat>, size: nat, x: nat, p: nat)
    requires InView(Swapped(views, id, target, g, ids, size), x, p)
    ensures Known(views, p)
  {
    hide TakeIn;
    if InView(views, x, p) {
    } else if x == target {
      TakenInFrom(views[target], FirstEight(views[id]), target, g[target], ids, size, p);
      assert InView(views, id, p);
    } else {
      TakenInFrom(views[id], FirstEight(views[target]), id, g[id], ids, size, p);
      assert InView(views, target, p);
    }
  }

  /** Every node is linked to the next one clockwise. */
  ghost predicate CircleClosed(g: Graph, s: seq<nat>) {
    forall j :: 0 <= j < |s| ==> Linked(g, s[j], s[Wrap(j + 1, |s|)])
  }

  lemma CircleBroken(g: Graph, s: seq<nat>, i: nat)
    requires i < |s| && !Linked(g, s[i], s[Wrap(i + 1, |s|)])
    ensures !CircleClosed(g, s)
  {
    hide Linked, Wrap;
  }

  lemma OnIdsIsMutual(g: Graph, ids: set<nat>)
    requires OnIds(g, ids)
    ensures Mutual(g)
  {
  }

  lemma EmptyCircle(g: Graph, key: Keys)
    requires key == map[]
    ensures CircleClosed(g, Order(key))
  {
  }

  lemma NoComponents(g: Graph)
    requires g == map[]
    ensures Partition(g, [])
  {
  }

  lemma NobodyIsConnected(g: Graph)
    ensures g == map[] ==> Connected(g)
  {
  }

  lemma SomeComponent(g: Graph, ids: set<nat>, comps: seq<seq<nat>>)
    requires Partition(g, comps) && g.Keys == ids && ids != {}
    ensures comps != []
  {
    hide IsComponent, Members;
    var v :| v in ids;
    assert v in g;
  }

  lemma LinksAreOthers(g: Graph, ids: set<nat>, a: nat)
    requires OnIds(g, ids) && a in g
    ensures g[a] <= ids - {a}
  {
    forall b | b in g[a] ensures b in ids - {a} { LinkedIsOther(g, ids, a, b); }
  }

  lemma {:induction false} StuckBall(g: Graph, a: nat, d: nat)
    requires Out(g, a) == {}
    ensures Ball(g, a, d) == {a}
  {
    if d > 0 { StuckBall(g, a, d - 1); }
  }

  /** In a connected graph of two or more nodes nobody is without links. */
  lemma NobodyIsolated(g: Graph, ids: set<nat>)
    requires OnIds(g, ids)
    ensures Connected(g) && |ids| >= 2 ==> (set id | id in ids && id in g && g[id] == {}) == {}
    ensures |ids| == 1 ==> (set id | id in ids && id in g && g[id] == {}) == ids
  {
    hide Ball;
    if Connected(g) && |ids| >= 2 {
      forall a | a in ids ensures g[a] != {} {
        if g[a] == {} {
          assert ids - {a} != {} by { assert ids == (ids - {a}) + {a}; }
          var b :| b in ids - {a};
          assert Reachable(g, a, b);
          var d: nat :| b in Ball(g, a, d);
          StuckBall(g, a, d);
        }
      }
    }
    if |ids| == 1 {
      forall a | a in ids ensures g[a] == {} {
        assert |ids - {a}| == 0;
        LinksAreOthers(g, ids, a);
        SubsetSize(g[a], ids - {a});
      }
    }
  }

  /** The next node clockwise is a ring-local one. */
  lemma NextIsNear(s: seq<nat>, h: nat, j: nat)
    requires Distinct(s) && 1 <= h && j < |s| && |s| >= 2
    ensures Near(s, h, s[j], s[Wrap(j + 1, |s|)])
  {
    hide Index, Wrap;
    PlacesAround(|s|, j, 1);
    IndexOfDistinct(s, j);
    IndexOfDistinct(s, Right(|s|, j, 1));
  }

  /** Ring-local links close the circle, unless there is only one node, who is never linked to itself. */
  lemma CircleIffNotAlone(g: Graph, key: Keys, h: nat)
    requires OnIds(g, key.Keys) && 1 <= h && RingLinked(g, Order(key), h)
    ensures CircleClosed(g, Order(key)) <==> |key| != 1
  {
    hide Order, Index, Wrap, Near;
    var s := Order(key);
    OrderMembers(key);
    if |s| == 1 {
      assert !Linked(g, s[0], s[0]);
      assert !Linked(g, s[0], s[Wrap(0 + 1, |s|)]);
    } else {
      forall j | 0 <= j < |s| ensures Linked(g, s[j], s[Wrap(j + 1, |s|)]) {
        NextIsNear(s, h, j);
      }
    }
  }

  /** a is up to r places to the left of id: at most r steps clockwise lead from a to id. */
  predicate LeftOf(s: seq<nat>, r: nat, id: nat, a: nat) {
    a in s && id in s && a != id && Gap(s, a, id) <= r
  }

  /** b is up to r places to the right. */
  predicate RightOf(s: seq<nat>, r: nat, id: nat, b: nat) {
    b in s && id in s && b != id && Gap(s, id, b) <= r
  }

  lemma {:induction false} SidesAre(s: seq<nat>, id: nat, i: nat, x: nat)
    requires Distinct(s) && id in s && i < |s|
    ensures x in Lefts(s, Index(s, id), i) <==> LeftOf(s, i, id, x)
    ensures x in Rights(s, Index(s, id), i) <==> RightOf(s, i, id, x)
  {
    hide Index;
    if x in s && x != id { assert Index(s, x) != Index(s, id); }
    if i > 0 {
      SidesAre(s, id, i - 1, x);
      IndexOfDistinct(s, Left(|s|, Index(s, id), i));
      IndexOfDistinct(s, Right(|s|, Index(s, id), i));
      PlacesDiffer(s, id, i);
    }
  }

  /** Going once around the circle reaches everybody. */
  lemma SidesEverywhere(s: seq<nat>, id: nat, r: nat)
    requires Distinct(s) && id in s
    ensures var i := Min(r, |s| - 1);
      && (forall x :: x in Lefts(s, Index(s, id), i) <==> LeftOf(s, r, id, x))
      && (forall x :: x in Rights(s, Index(s, id), i) <==> RightOf(s, r, id, x))
  {
    hide Index, Lefts, Rights;
    var i := Min(r, |s| - 1);
    forall x ensures x in Lefts(s, Index(s, id), i) <==> LeftOf(s, r, id, x) { SidesAre(s, id, i, x); }
    forall x ensures x in Rights(s, Index(s, id), i) <==> RightOf(s, r, id, x) { SidesAre(s, id, i, x); }
  }

  /** The links of g, and one between the two of each pair, as long as both are live and differ. */
  ghost predicate LinksPlus(g: Graph, g': Graph, ids: set<nat>, pairs: set<(nat, nat)>) {
    forall a: nat, b: nat :: Linked(g', a, b) <==>
      Linked(g, a, b) || (a != b && a in ids && b in ids && ((a, b) in pairs || (b, a) in pairs))
  }

  lemma NoneMore(g: Graph, ids: set<nat>)
    ensures LinksPlus(g, g, ids, {})
  {
  }

  lemma OneMore(g: Graph, g': Graph, ids: set<nat>, pairs: set<(nat, nat)>, l: nat, r: nat)
    requires OnIds(g', ids) && LinksPlus(g, g', ids, pairs)
    ensures !(l != r && l in ids && r in ids) ==> LinksPlus(g, g', ids, pairs + {(l, r)})
    ensures l != r && l in ids && r in ids ==> l in g' && r in g' && LinksPlus(g, AddLink(g', l, r), ids, pairs + {(l, r)})
  {
    if l != r && l in ids && r in ids {
      AddLinkIsMutual(g', l, r);
      forall a: nat, b: nat ensures Linked(AddLink(g', l, r), a, b) <==>
        Linked(g, a, b)
        || (a != b && a in ids && b in ids && ((a, b) in pairs + {(l, r)} || (b, a) in pairs + {(l, r)})) { }
    }
  }

  function AllPairs(l: set<nat>, r: set<nat>): set<(nat, nat)> {
    set a, b | a in l && b in r :: (a, b)
  }

  lemma NobodyPairs(lefts: seq<nat>, rights: seq<nat>)
    ensures AllPairs(Members(lefts[..0]), Members(rights)) == {}
  {
  }

  lemma NoPairs(l: nat, rights: seq<nat>)
    ensures AllPairs({l}, Members(rights[..0])) == {}
  {
  }

  lemma CrossIsAround(g: Graph, g': Graph, ids: set<nat>, l: set<nat>, r: set<nat>)
    requires LinksPlus(g, g', ids, AllPairs(l, r))
    ensures GrowsAround(g, g', l + r)
  {
  }

  lemma ViewsForget(views: Views, ids: set<nat>, size: nat, id: nat)
    requires ViewsOk(views, ids, size)
    ensures forall p :: p in ViewsWithout(views, id) ==>
      p in views && forall q :: q in ViewsWithout(views, id)[p] <==> q in views[p] && q != id
  {
    hide ViewOk, Deleted;
    forall p | p in ViewsWithout(views, id)
      ensures p in views && forall q :: q in ViewsWithout(views, id)[p] <==> q in views[p] && q != id
    {
      DeletedView(views[p], id, p, ids, size);
    }
  }

  lemma PairsOfNext(l: nat, rights: seq<nat>, j: nat)
    requires j < |rights|
    ensures AllPairs({l}, Members(rights[..j + 1])) == AllPairs({l}, Members(rights[..j])) + {(l, rights[j])}
  {
    assert rights[..j + 1] == rights[..j] + [rights[j]];
  }

  lemma PairsOfRow(lefts: seq<nat>, i: nat, r: set<nat>)
    requires i < |lefts|
    ensures AllPairs(Members(lefts[..i + 1]), r) == AllPairs(Members(lefts[..i]), r) + AllPairs({lefts[i]}, r)
  {
    assert lefts[..i + 1] == lefts[..i] + [lefts[i]];
  }

  /** Only ring-local links are new. */
  ghost predicate GrowsNear(g: Graph, g': Graph, s: seq<nat>, h: nat) {
    Keeps(g, g') && forall a, b :: Linked(g', a, b) && !Linked(g, a, b) ==> Near(s, h, a, b)
  }

  lemma GrowsNearNothing(g: Graph, s: seq<nat>, h: nat)
    ensures GrowsNear(g, g, s, h)
  {
  }

  lemma GrowsNearTwice(g: Graph, g1: Graph, g2: Graph, s: seq<nat>, h: nat)
    requires GrowsNear(g, g1, s, h) && GrowsNear(g1, g2, s, h)
    ensures GrowsNear(g, g2, s, h)
  {
    forall a, b | Linked(g, a, b) ensures Linked(g2, a, b) { assert Linked(g1, a, b); }
    forall a, b | Linked(g2, a, b) && !Linked(g, a, b) ensures Near(s, h, a, b) {
      assert !Linked(g1, a, b) || Linked(g1, a, b);
    }
  }

  lemma FanIsNear(g: Graph, position: map<nat, real>, h: nat, id: nat)
    requires OnIds(g, position.Keys) && id in position && id in g
    ensures GrowsNear(g, AddLinks(g, id, Locals(Order(position), h, id)), Order(position), h)
  {
    hide Order, Near;
    var s := Order(position);
    LocalsAreOthers(position, h, id);
    AddLinksIsMutual(g, id, Locals(s, h, id));
    forall a, b | Linked(AddLinks(g, id, Locals(s, h, id)), a, b) && !Linked(g, a, b) ensures Near(s, h, a, b) {
      NearMeans(s, h, a, b);
    }
  }

  /** The links around the gap: everyone on its left with everyone on its right, and besides only ring-local ones. */
  ghost predicate CrossLinked(g: Graph, g': Graph, s: seq<nat>, s': seq<nat>, h: nat, id: nat) {
    && (forall a, b :: LeftOf(s, h + 1, id, a) && RightOf(s, h + 1, id, b) && a != b ==>
          Linked(g', a, b) && Linked(g', b, a))
    && (forall a, b :: Linked(g', a, b) && !Linked(g, a, b) ==>
          || (LeftOf(s, h + 1, id, a) && RightOf(s, h + 1, id, b))
          || (LeftOf(s, h + 1, id, b) && RightOf(s, h + 1, id, a))
          || Near(s', h, a, b))
  }

  lemma CrossedAndRepaired(
    g: Graph, g1: Graph, g2: Graph, key: Keys, h: nat, id: nat, lefts: seq<nat>, rights: seq<nat>)
    requires id in key && LinksPlus(g, g1, (key - {id}).Keys, AllPairs(Members(lefts), Members(rights)))
    requires forall x :: x in Members(lefts) <==> LeftOf(Order(key), h + 1, id, x)
    requires forall x :: x in Members(rights) <==> RightOf(Order(key), h + 1, id, x)
    requires GrowsNear(g1, g2, Order(key - {id}), h)
    ensures CrossLinked(g, g2, Order(key), Order(key - {id}), h, id)
  {
    hide Near, Gap, Order, Members;
    OrderMembers(key);
    var s := Order(key);
    forall a: nat, b: nat | LeftOf(s, h + 1, id, a) && RightOf(s, h + 1, id, b) && a != b
      ensures Linked(g2, a, b) && Linked(g2, b, a)
    {
      assert (a, b) in AllPairs(Members(lefts), Members(rights));
      assert Linked(g1, a, b) && Linked(g1, b, a);
    }
  }

  class RingMeshSimulator {
    const localLinks: nat
    const longRangeLinks: nat
    const passiveViewSize: nat
    var nextId: nat
    var position: map<nat, real>
    var neighbors: Graph
    var passive: Views

    constructor (localLinks: nat, longRangeLinks: nat, passiveViewSize: nat)
      ensures this.localLinks == localLinks && this.longRangeLinks == longRangeLinks
      ensures this.passiveViewSize == passiveViewSize
      ensures Valid() && RingIntact() && position == map[]
    {
      this.localLinks, this.longRangeLinks, this.passiveViewSize := localLinks, longRangeLinks, passiveViewSize;
      nextId, position, neighbors, passive := 0, map[], map[], map[];
    }

    /** ceil(localLinks / 2) */
    function Half(): nat { HalfOf(localLinks) }

    ghost predicate Valid()
      reads this
    {
      && OnIds(neighbors, position.Keys)
      && ViewsOk(passive, position.Keys, passiveViewSize)
      && forall id :: id in position ==> id < nextId
    }

    ghost predicate RingIntact()
      reads this
    {
      RingLinked(neighbors, Order(position), Half())
    }

    method Connect(a: nat, b: nat)
      requires Valid() && a in position && b in position && a != b
      modifies this`neighbors
      ensures Valid() && a in old(neighbors) && b in old(neighbors) && neighbors == AddLink(old(neighbors), a, b)
    {
      hide ViewsOk, OnIds;
      NewLinkIsOk(neighbors, position.Keys, a, b);
      neighbors := neighbors[a := neighbors[a] + {b}];
      neighbors := neighbors[b := neighbors[b] + {a}];
    }

    /** A newcomer links to its ring-local nodes, all those to the left first. */
    method ConnectLocalLinks(id: nat)
      requires Valid() && id in position
      modifies this`neighbors
      ensures Valid() && id in old(neighbors)
      ensures neighbors == AddLinks(old(neighbors), id, Locals(Order(position), Half(), id))
    {
      hide ViewsOk, OnIds, Order, IsOrder, Index, Near, Locals, AddLinks, Half, Distinct;
      var sorted := Sort(position);
      OrderMembers(position);
      ghost var g, reach := neighbors, Min(Half(), |sorted| - 1);
      LinkLeft(id, sorted);
      LinkRight(id, sorted, g);
      ReachedAround(sorted, id, Half());
    }

    method LinkLeft(id: nat, sorted: seq<nat>)
      requires Valid() && id in position && Distinct(sorted) && forall x :: x in sorted <==> x in position
      modifies this`neighbors
      ensures Valid() && id in old(neighbors)
      ensures neighbors == AddLinks(old(neighbors), id, Lefts(sorted, Index(sorted, id), Min(Half(), |sorted| - 1)))
    {
      hide ViewsOk, OnIds, Index, Wrap, Left, AddLinks, AddLink, Half, Distinct;
      var k, n, i := Index(sorted, id), |sorted|, 1;
      ghost var g := neighbors;
      IdsOf(g, position.Keys);
      AddLinksNobody(g, id);
      while i <= Half() && i < n
        invariant Valid() && 1 <= i <= n && i <= Half() + 1 && id in g
        invariant neighbors == AddLinks(g, id, Lefts(sorted, k, i - 1))
      {
        PlacesAround(n, k, i);
        LeftStep(g, position.Keys, sorted, id, i);
        var target := sorted[Wrap(k - i + n, n)];
        if target != id { Connect(id, target); }
        i := i + 1;
      }
    }

    method LinkRight(id: nat, sorted: seq<nat>, ghost g: Graph)
      requires Valid() && id in position && Distinct(sorted) && forall x :: x in sorted <==> x in position
      requires OnIds(g, position.Keys) && id in g
      requires neighbors == AddLinks(g, id, Lefts(sorted, Index(sorted, id), Min(Half(), |sorted| - 1)))
      modifies this`neighbors
      ensures Valid()
      ensures var k, reach := Index(sorted, id), Min(Half(), |sorted| - 1);
        neighbors == AddLinks(g, id, Lefts(sorted, k, reach) + Rights(sorted, k, reach))
    {
      hide ViewsOk, OnIds, Index, Wrap, Right, AddLinks, AddLink, Half, Distinct, Lefts;
      var k, n, i := Index(sorted, id), |sorted|, 1;
      ghost var left := Lefts(sorted, k, Min(Half(), n - 1));
      SidesAreOthers(sorted, id, Min(Half(), n - 1), position.Keys);
      assert left + Rights(sorted, k, 0) == left;
      while i <= Half() && i < n
        invariant Valid() && 1 <= i <= n && i <= Half() + 1
        invariant neighbors == AddLinks(g, id, left + Rights(sorted, k, i - 1))
      {
        PlacesAround(n, k, i);
        RightStep(g, position.Keys, sorted, id, i, left);
        var target := sorted[Wrap(k + i, n)];
        if target != id { Connect(id, target); }
        i := i + 1;
      }
    }

    method AllOthers(id: nat) returns (others: set<nat>)
      requires id in neighbors
      ensures others == Strangers(neighbors, position, id)
    {
      others := set x | x in position && x != id && x !in neighbors[id];
    }

    method ShortcutCandidates(id: nat) returns (candidates: set<nat>)
      requires id in position && id in neighbors
      ensures candidates == Shortcuts(neighbors, position, id)
    {
      hide RingDist;
      var allOthers := AllOthers(id);
      var longRange := set x | x in allOthers && RingDist(position[id], position[x]) >= 0.2;
      candidates := if |longRange| > 0 then longRange else allOthers;
    }

    /** Up to longRangeLinks far-away strangers, or any strangers if none is far away. */
    method ConnectLongRangeLinks(id: nat) returns (ghost far: set<nat>)
      requires Valid() && id in position && id in neighbors
      modifies this`neighbors
      ensures Valid() && neighbors == AddLinks(old(neighbors), id, far)
      ensures IsShortcutChoice(old(neighbors), position, id, far, longRangeLinks)
    {
      hide ViewsOk, OnIds, AddLinks, AddLink, Shortcuts;
      ghost var g := neighbors;
      var left := ShortcutCandidates(id);
      var i := 0;
      ghost var cands := left;
      far := {};
      IdsOf(g, position.Keys);
      AddLinksNobody(g, id);
      ShortcutsAreOthers(g, position, id);
      while i < longRangeLinks && left != {}
        invariant Valid() && i <= longRangeLinks && left + far == cands && left !! far && |far| == i
        invariant neighbors == AddLinks(g, id, far)
      {
        var c :| c in left;
        FanGrows(g, position.Keys, id, far, c);
        Connect(id, c);
        left, i, far := left - {c}, i + 1, far + {c};
      }
      SubsetSize(far, cands);
    }

    /** Up to passiveViewSize strangers, in random order, make up the view of a newcomer. */
    method BuildPassiveView(id: nat)
      requires Valid() && id in position && passive[id] == []
      modifies this`passive
      ensures Valid() && id in passive && passive == old(passive)[id := passive[id]]
      ensures IsFirstView(neighbors, position, id, passive[id], passiveViewSize)
    {
      hide OnIds, Distinct, ViewsOk, ViewOk, Added, IsFirstView, Members, Strangers;
      IdsOf(neighbors, position.Keys);
      ViewIds(passive, position.Keys, passiveViewSize, id);
      StrangersAreOthers(neighbors, position, id);
      var left := AllOthers(id);
      var i := 0;
      ghost var others, taken: set<nat> := left, {};
      var view: seq<nat> := [];
      NoMembers();
      while i < passiveViewSize && left != {}
        invariant i <= passiveViewSize && left + taken == others && left !! taken && |taken| == i
        invariant passive == old(passive)
        invariant ViewOk(view, id, position.Keys, passiveViewSize) && |view| == i && Members(view) == taken
      {
        var p :| p in left;
        OneMoreInView(view, position.Keys, passiveViewSize, id, p, taken);
        view := Added(view, p);
        left, i, taken := left - {p}, i + 1, taken + {p};
      }
      SubsetSize(taken, others);
      OneViewChanges(passive, position.Keys, passiveViewSize, id, view);
      FirstViewIs(neighbors, position, id, view, passiveViewSize, taken);
      passive := passive[id := view];
    }

    /** A node joins at a random place; the very first one has nobody to link to. */
    method AddNode(place: real) returns (id: nat, ghost local: Graph, ghost far: set<nat>)
      requires Valid()
      modifies this`nextId, this`position, this`neighbors, this`passive
      ensures Valid() && id == old(nextId) && nextId == id + 1 && position == old(position)[id := place]
      ensures id in local && neighbors == AddLinks(local, id, far)
      ensures local == AddLinks(old(neighbors)[id := {}], id, Locals(Order(position), Half(), id))
      ensures IsShortcutChoice(local, position, id, far, longRangeLinks)
      ensures id in passive && passive == old(passive)[id := passive[id]]
      ensures IsFirstView(neighbors, position, id, passive[id], passiveViewSize)
      ensures old(RingIntact()) ==> RingIntact()
    {
      hide ViewsOk, OnIds, Order, IsOrder, Near, Locals, AddLinks, Half, RingLinked, IsShortcutChoice, KeepsNear,
        LinkedToAll, Keeps, Mutual, IsFirstView;
      ghost var key, g := position, neighbors;
      id := Enrol(place);
      ghost var g0 := neighbors;
      local, far := g0, {};
      if |position| <= 1 {
        OnlyNode(position, g0, Half(), id, longRangeLinks);
      } else {
        ConnectLocalLinks(id);
        local := neighbors;
        IdsOf(local, position.Keys);
        far := ConnectLongRangeLinks(id);
        BuildPassiveView(id);
      }
      if RingLinked(g, Order(key), Half()) {
        ChoiceIsOthers(local, position, id, far, longRangeLinks);
        NewcomerIsLinked(g0, local, neighbors, position, Half(), id, far);
        RingAfterAdd(key, Half(), id, place, g, neighbors);
      }
    }

    method Enrol(place: real) returns (id: nat)
      requires Valid()
      modifies this`nextId, this`position, this`neighbors, this`passive
      ensures Valid() && id == old(nextId) && nextId == id + 1 && id !in old(position)
      ensures position == old(position)[id := place] && neighbors == old(neighbors)[id := {}]
      ensures passive == old(passive)[id := []]
    {
      hide ViewsOk, OnIds;
      id := nextId;
      assert position[id := place].Keys == position.Keys + {id};
      NewNodeIsOk(neighbors, passive, position.Keys, passiveViewSize, id);
      nextId := nextId + 1;
      position := position[id := place];
      neighbors := neighbors[id := {}];
      passive := passive[id := []];
    }

    method RepairLocalLinks(id: nat)
      requires Valid()
      modifies this`neighbors
      ensures Valid() && GrowsAround(old(neighbors), neighbors, {id})
      ensures if id in position then id in old(neighbors)
                && neighbors == AddLinks(old(neighbors), id, Locals(Order(position), Half(), id))
              else neighbors == old(neighbors)
      ensures id in position ==> LinkedToAll(neighbors, id, Locals(Order(position), Half(), id))
    {
      hide ViewsOk, OnIds, Order, IsOrder, Near, Locals, AddLinks, Half, GrowsAround, LinkedToAll, Distinct;
      GrowsNowhere(neighbors, {id});
      if id !in position { return; }
      ghost var g, locals := neighbors, Locals(Order(position), Half(), id);
      LocalsAreOthers(position, Half(), id);
      NewLinksAreOk(g, position.Keys, id, locals);
      FanIsAround(g, position.Keys, id, locals);
      LinkBothSides(id);
    }

    /** Left and right alternating, skipping whoever is linked already. */
    method LinkBothSides(id: nat)
      requires Valid() && id in position
      modifies this`neighbors
      ensures Valid() && id in old(neighbors)
      ensures neighbors == AddLinks(old(neighbors), id, Locals(Order(position), Half(), id))
    {
      hide ViewsOk, OnIds, Order, IsOrder, Index, Near, Locals, Wrap, Left, Right, AddLinks, AddLink, Half, Distinct,
        Lefts, Rights;
      var sorted := Sort(position);
      OrderMembers(position);
      var k, n, i := Index(sorted, id), |sorted|, 1;
      ghost var g := neighbors;
      IdsOf(g, position.Keys);
      AddLinksNobody(g, id);
      NoSides(sorted, k);
      while i <= Half() && i < n
        invariant Valid() && 1 <= i <= n && i <= Half() + 1
        invariant neighbors == AddLinks(g, id, Lefts(sorted, k, i - 1) + Rights(sorted, k, i - 1))
      {
        PlacesAround(n, k, i);
        BothStep(g, position.Keys, sorted, id, i);
        var l, r := sorted[Wrap(k - i + n, n)], sorted[Wrap(k + i, n)];
        if l !in neighbors[id] { Connect(id, l); }
        if r !in neighbors[id] { Connect(id, r); }
        i := i + 1;
      }
      ReachedAround(sorted, id, Half());
    }

    method RemoveNode(id: nat)
      requires Valid()
      modifies this`position, this`neighbors, this`passive
      ensures Valid() && position == old(position) - {id}
      ensures passive == if id in old(position) then ViewsWithout(old(passive), id) else old(passive)
      ensures forall p :: p in passive && id in old(position) ==>
        p in old(passive) && forall q :: q in passive[p] <==> q in old(passive)[p] && q != id
      ensures GrowsAround(DropNode(old(neighbors), id), neighbors, Locals(Order(old(position)), Half() + 1, id))
      ensures id in old(position) ==>
        && CrossLinked(DropNode(old(neighbors), id), neighbors, Order(old(position)), Order(position), Half(), id)
        && Repaired(neighbors, position, Half(), Locals(Order(old(position)), Half() + 1, id))
      ensures id !in old(position) ==> neighbors == old(neighbors)
      ensures old(RingIntact()) ==> RingIntact()
    {
      hide ViewsOk, OnIds, Order, IsOrder, Near, Locals, Half, RingLinked, KeepsNear, GrowsAround, Repaired, DropNode,
        LinksPlus, GrowsNear, AllPairs, CrossLinked, Members, LeftOf, RightOf, ViewsWithout;
      ghost var key, g, h := position, neighbors, Half();
      ViewsForget(passive, position.Keys, passiveViewSize, id);
      if id !in position {
        NobodyLeaves(position, neighbors, id);
        GrowsNowhere(neighbors, Locals(Order(position), h + 1, id));
        return;
      }
      var lefts, rights := AroundTheGap(id);
      ghost var around := Members(lefts) + Members(rights);
      Forget(id);
      ghost var g0 := neighbors;
      CrossLink(lefts, rights);
      ghost var g1 := neighbors;
      RepairEach(lefts + rights);
      BothLists(lefts, rights);
      CrossIsAround(g0, g1, position.Keys, Members(lefts), Members(rights));
      GrowsTwice(g0, g1, neighbors, around, Members(lefts + rights));
      GrowthKeepsNear(g0, neighbors, around, Order(position), h);
      CrossedAndRepaired(g0, g1, neighbors, key, h, id, lefts, rights);
      LocalsWiden(Order(key), h, id);
      if RingLinked(g, Order(key), h) {
        RingAfterRemove(key, h, id, g, neighbors, Members(lefts + rights));
      }
    }

    /** The nodes up to Half() + 1 places away on either side, before the node is gone. */
    method AroundTheGap(id: nat) returns (lefts: seq<nat>, rights: seq<nat>)
      requires id in position
      ensures Members(lefts) + Members(rights) == Locals(Order(position), Half() + 1, id)
      ensures forall x :: x in Members(lefts) <==> LeftOf(Order(position), Half() + 1, id, x)
      ensures forall x :: x in Members(rights) <==> RightOf(Order(position), Half() + 1, id, x)
    {
      hide Index, Near, Locals, Wrap, Left, Right, Order, IsOrder, Half, Members, Lefts, Rights, Distinct, LeftOf,
        RightOf;
      var s := Sort(position);
      OrderMembers(position);
      var k, n, i, radius := Index(s, id), |s|, 1, Half() + 1;
      lefts, rights := [], [];
      NoSides(s, k);
      NoMembers();
      while i <= radius && i < n
        invariant 1 <= i <= radius + 1 && i <= n
        invariant Members(lefts) == Lefts(s, k, i - 1) && Members(rights) == Rights(s, k, i - 1)
      {
        PlacesAround(n, k, i);
        SidesGrow(s, id, i, lefts, rights);
        var l, r := s[Wrap(k - i + n, n)], s[Wrap(k + i, n)];
        if l != id { lefts := lefts + [l]; }
        if r != id { rights := rights + [r]; }
        i := i + 1;
      }
      ReachedAround(s, id, radius);
      SidesEverywhere(s, id, radius);
    }

    method Forget(id: nat)
      requires Valid()
      modifies this`position, this`neighbors, this`passive
      ensures Valid() && position == old(position) - {id}
      ensures neighbors == DropNode(old(neighbors), id) && passive == ViewsWithout(old(passive), id)
    {
      hide ViewsOk, OnIds, DropNode;
      DepartureIsOk(neighbors, passive, position.Keys, passiveViewSize, id);
      assert (position - {id}).Keys == position.Keys - {id};
      neighbors := DropNode(neighbors, id);
      position := position - {id};
      passive := ViewsWithout(passive, id);
    }

    /** Everyone on the left of the gap links with everyone on the right, unless they are linked already. */
    method CrossLink(lefts: seq<nat>, rights: seq<nat>)
      requires Valid()
      modifies this`neighbors
      ensures Valid()
      ensures LinksPlus(old(neighbors), neighbors, position.Keys, AllPairs(Members(lefts), Members(rights)))
    {
      hide ViewsOk, OnIds, LinksPlus, AddLink, AllPairs, Members;
      ghost var g, ids := neighbors, position.Keys;
      NoneMore(g, ids);
      assert AllPairs(Members(lefts[..0]), Members(rights)) == {} by { NobodyPairs(lefts, rights); }
      for i := 0 to |lefts|
        invariant Valid() && LinksPlus(g, neighbors, ids, AllPairs(Members(lefts[..i]), Members(rights)))
      {
        ghost var rows := AllPairs(Members(lefts[..i]), Members(rights));
        assert AllPairs({lefts[i]}, Members(rights[..0])) == {} by { NobodyPairs(lefts, rights); NoPairs(lefts[i], rights); }
        assert rows + {} == rows;
        for j := 0 to |rights|
          invariant Valid() && LinksPlus(g, neighbors, ids, rows + AllPairs({lefts[i]}, Members(rights[..j])))
        {
          var left, right := lefts[i], rights[j];
          ghost var done := rows + AllPairs({left}, Members(rights[..j]));
          IdsOf(neighbors, position.Keys);
          OneMore(g, neighbors, ids, done, left, right);
          PairsOfNext(left, rights, j);
          assert rows + AllPairs({left}, Members(rights[..j + 1])) == done + {(left, right)};
          if left != right && left in position && right in position {
            NewLinkIsOk(neighbors, position.Keys, left, right);
            if right !in neighbors[left] { Connect(left, right); }
          }
        }
        assert rights[..|rights|] == rights;
        PairsOfRow(lefts, i, Members(rights));
      }
      assert lefts[..|lefts|] == lefts;
    }

    method RepairEach(repair: seq<nat>)
      requires Valid()
      modifies this`neighbors
      ensures Valid() && GrowsAround(old(neighbors), neighbors, Members(repair))
      ensures GrowsNear(old(neighbors), neighbors, Order(position), Half())
      ensures Repaired(neighbors, position, Half(), Members(repair))
    {
      hide ViewsOk, OnIds, Order, IsOrder, Half, KeepsNear, Repaired, LinkedToAll, Locals, GrowsAround, GrowsNear,
        Members, AddLinks;
      ghost var g0, h, who := neighbors, Half(), Members(repair);
      GrowsNowhere(g0, who);
      GrowsNearNothing(g0, Order(position), h);
      NoMembers();
      assert repair[..0] == [];
      NobodyToRepair(g0, position, h);
      for i := 0 to |repair|
        invariant Valid() && GrowsAround(g0, neighbors, who) && GrowsNear(g0, neighbors, Order(position), h)
        invariant Repaired(neighbors, position, h, Members(repair[..i]))
      {
        var id := repair[i];
        ghost var g := neighbors;
        assert repair[..i + 1] == repair[..i] + [id];
        AppendedMembers(repair[..i], id);
        InMembers(repair, i);
        RepairLocalLinks(id);
        if id in position { FanIsNear(g, position, h, id); } else { GrowsNearNothing(g, Order(position), h); }
        GrowsNearTwice(g0, g, neighbors, Order(position), h);
        GrowthKeepsNear(g, neighbors, {id}, Order(position), h);
        GrowsTwice(g0, g, neighbors, who, {id});
        RepairedKept(g, neighbors, position, h, Members(repair[..i]));
        RepairedOneMore(neighbors, position, h, Members(repair[..i]), id);
      }
      assert repair[..|repair|] == repair;
    }

    /** What repair fills up to. */
    function TargetDegree(): nat { localLinks + longRangeLinks }

    /**
     * Every node links to its ring-local nodes, then fills up to its target degree from its passive view. `taken` are
     * the entries that became links, with the node in whose view they were.
     */
    method RepairAll() returns (count: nat, ghost taken: set<(nat, nat)>)
      requires Valid()
      modifies this`neighbors, this`passive
      ensures Valid() && Keeps(old(neighbors), neighbors) && RingIntact()
      ensures forall id :: id in position ==> Sated(neighbors, passive, id, TargetDegree())
      ensures count == |taken| && forall id: nat, p: nat :: (id, p) in taken ==> Linked(neighbors, id, p)
      ensures forall id: nat, p: nat :: InView(passive, id, p) <==> InView(old(passive), id, p) && (id, p) !in taken
    {
      hide ViewsOk, ViewOk, OnIds, Order, IsOrder, Half, Keeps, LinkedToAll, Locals, GrowsAround, KeepsNear,
        RingLinked, Sated, Linked, AddLinks, InView;
      count, taken := 0, {};
      ghost var g0, views0, s, h, ids := neighbors, passive, Order(position), Half(), position.Keys;
      var todo := position.Keys;
      KeepsSelf(g0);
      while todo != {}
        invariant Valid() && todo <= ids && Keeps(g0, neighbors)
        invariant forall a :: a in ids - todo ==> LinkedToAll(neighbors, a, Locals(s, h, a))
        invariant forall a :: a in ids - todo ==> Sated(neighbors, passive, a, TargetDegree())
        invariant count == |taken| && forall a: nat, p: nat :: (a, p) in taken ==> a !in todo && Linked(neighbors, a, p)
        invariant forall a: nat, p: nat :: InView(passive, a, p) <==> InView(views0, a, p) && (a, p) !in taken
      {
        var id :| id in todo;
        ghost var g, views := neighbors, passive;
        RepairLocalLinks(id);
        ghost var g1 := neighbors;
        GrowthKeepsNear(g, g1, {id}, s, h);
        var added, chosen := FillFromPassive(id);
        KeepsTwice(g, g1, neighbors);
        KeepsTwice(g0, g, neighbors);
        KeepsIsNear(g, neighbors, s, h);
        KeepsIsNear(g1, neighbors, s, h);
        forall a | a in ids - todo
          ensures LinkedToAll(neighbors, a, Locals(s, h, a)) && Sated(neighbors, passive, a, TargetDegree())
        {
          LinkedToAllKept(g, neighbors, s, h, a, Locals(s, h, a));
          SatedKept(g, neighbors, views, passive, ids, id, a, TargetDegree());
        }
        LinkedToAllKept(g1, neighbors, s, h, id, Locals(s, h, id));
        TakenGrow(g, g1, neighbors, views0, views, passive, ids, id, chosen, taken, todo);
        count := count + added;
        taken := taken + PairsWith(id, chosen);
        todo := todo - {id};
      }
      AllLinkedIsIntact(position, h, neighbors);
    }

    method LinkFromView(id: nat, p: nat)
      requires Valid() && id in position && p in position && p != id
      modifies this`neighbors, this`passive
      ensures Valid() && Keeps(old(neighbors), neighbors) && neighbors == AddLink(old(neighbors), id, p)
      ensures id in passive && id in old(passive) && passive == old(passive)[id := passive[id]]
      ensures forall q :: q in passive[id] <==> q in old(passive)[id] && q != p
    {
      hide ViewsOk, ViewOk, OnIds, Keeps, AddLink, Deleted;
      IdsOf(neighbors, position.Keys);
      NewLinkIsOk(neighbors, position.Keys, id, p);
      ShrunkView(passive, position.Keys, passiveViewSize, id, p);
      Connect(id, p);
      passive := passive[id := Deleted(passive[id], p)];
    }

    /** A node below its target degree links to strangers from its passive view, who leave the view. */
    method FillFromPassive(id: nat) returns (added: nat, ghost chosen: set<nat>)
      requires Valid() && id in position
      modifies this`neighbors, this`passive
      ensures Valid() && Keeps(old(neighbors), neighbors)
      ensures id in passive && id in old(passive) && passive == old(passive)[id := passive[id]]
      ensures id in old(neighbors) && neighbors == AddLinks(old(neighbors), id, chosen) && added == |chosen|
      ensures forall p :: p in chosen ==> p in old(passive)[id] && p !in old(neighbors)[id] && p in position && p != id
      ensures forall p :: p in passive[id] <==> p in old(passive)[id] && p !in chosen
      ensures Sated(neighbors, passive, id, TargetDegree())
      ensures chosen != {} ==> |neighbors[id]| <= TargetDegree()
    {
      hide ViewsOk, ViewOk, OnIds, Keeps, AddLinks, Sated;
      added, chosen := 0, {};
      ghost var g, ids, views := neighbors, position.Keys, passive;
      IdsOf(g, ids);
      ViewIds(views, ids, passiveViewSize, id);
      KeepsSelf(g);
      AddLinksNobody(g, id);
      var targetDeg := localLinks + longRangeLinks;
      if |neighbors[id]| < targetDeg {
        var candidates := set p | p in passive[id] && p in position && p !in neighbors[id];
        added, chosen := TakeFromView(id, targetDeg - |neighbors[id]|, candidates);
      }
      SatedNow(g, neighbors, views[id], passive, ids, id, chosen, targetDeg);
    }

    /** Link to the first few of the shuffled candidates from the view. */
    method TakeFromView(id: nat, needed: nat, candidates: set<nat>) returns (added: nat, ghost chosen: set<nat>)
      requires Valid() && id in position && id in passive && id in neighbors
      requires forall p :: p in candidates ==> p in passive[id] && p in position && p != id
      modifies this`neighbors, this`passive
      ensures Valid() && Keeps(old(neighbors), neighbors)
      ensures id in passive && passive == old(passive)[id := passive[id]]
      ensures id in old(neighbors) && neighbors == AddLinks(old(neighbors), id, chosen)
      ensures added == |chosen| == Min(needed, |candidates|) && chosen <= candidates
      ensures forall p :: p in passive[id] <==> p in old(passive)[id] && p !in chosen
    {
      hide ViewsOk, ViewOk, OnIds, Keeps, AddLink, AddLinks, Deleted;
      added, chosen := 0, {};
      ghost var g, ids, views := neighbors, position.Keys, passive;
      KeepsSelf(g);
      AddLinksNobody(g, id);
      assert passive[id := passive[id]] == passive;
      var left := candidates;
      while added < needed && left != {}
        invariant Valid() && added <= needed && Keeps(g, neighbors) && id in passive
        invariant chosen <= candidates && left == candidates - chosen && added == |chosen|
        invariant neighbors == AddLinks(g, id, chosen)
        invariant passive == views[id := passive[id]]
        invariant forall q :: q in passive[id] <==> q in views[id] && q !in chosen
        decreases |left|
      {
        var p :| p in left;
        FanGrows(g, ids, id, chosen, p);
        ghost var g1, views1 := neighbors, passive;
        LinkFromView(id, p);
        KeepsTwice(g, g1, neighbors);
        UpdatedTwice(views, views1, id, passive[id]);
        added, left, chosen := added + 1, left - {p}, chosen + {p};
      }
      SubsetSize(chosen, candidates);
    }

    /** Every node in turn may exchange one long-range link; the number of links stays the same. */
    method ShuffleAll() returns (ghost order: seq<nat>, ghost states: seq<(Graph, Views)>)
      requires Valid()
      modifies this`neighbors, this`passive
      ensures IsShuffleRun(states, order, position, Order(position), Half())
      ensures forall id :: id in order <==> id in position
      ensures states[0] == (old(neighbors), old(passive)) && states[|order|] == (neighbors, passive)
      ensures Valid() && KeepsNear(old(neighbors), neighbors, Order(position), Half())
      ensures |Pairs(neighbors)| == |Pairs(old(neighbors))|
      ensures old(RingIntact()) ==> RingIntact()
    {
      hide ViewsOk, OnIds, Order, IsOrder, Half, KeepsNear, RingLinked, Pairs, Exchanged, IsShuffleRun, Locals;
      var todo := position.Keys;
      order, states := [], [(neighbors, passive)];
      NoExchanges(neighbors, passive, position, Order(position), Half());
      ghost var g0, s, h := neighbors, Order(position), Half();
      NothingLost(g0, s, h);
      while todo != {}
        invariant Valid() && todo <= position.Keys && KeepsNear(g0, neighbors, s, h)
        invariant |Pairs(neighbors)| == |Pairs(g0)|
        invariant IsShuffleRun(states, order, position, s, h) && |states| == |order| + 1
        invariant states[0] == (g0, old(passive)) && states[|order|] == (neighbors, passive)
        invariant forall x :: x in order <==> x in position && x !in todo
      {
        var id :| id in todo;
        ghost var g := neighbors;
        ShuffleOne(id);
        KeepsNearTwice(g0, g, neighbors, s, h);
        OneMoreExchanged(states, order, position, s, h, id, neighbors, passive);
        order, states := order + [id], states + [(neighbors, passive)];
        todo := todo - {id};
      }
      if RingLinked(g0, s, h) { KeptRingIsIntact(g0, neighbors, s, h); }
    }

    method ShuffleOne(id: nat)
      requires Valid() && id in position
      modifies this`neighbors, this`passive
      ensures Valid() && KeepsNear(old(neighbors), neighbors, Order(position), Half())
      ensures |Pairs(neighbors)| == |Pairs(old(neighbors))|
      ensures Exchanged(old(neighbors), neighbors, old(passive), passive, position, Locals(Order(position), Half(), id), id)
    {
      hide ViewsOk, OnIds, Order, IsOrder, Half, KeepsNear, Pairs, Locals, AddLink, CutLink, Deleted, Added, RingDist;
      ghost var s, h, ids := Order(position), Half(), position.Keys;
      OrderMembers(position);
      IdsOf(neighbors, ids);
      ViewIds(passive, ids, passiveViewSize, id);
      NothingLost(neighbors, s, h);
      var localIds := LocalNodes(position, Half(), id);
      var longRange := neighbors[id] - localIds;
      if longRange == {} { return; }
      var pvCandidates := set p | p in passive[id] && p in position && p !in neighbors[id]
        && RingDist(position[id], position[p]) >= 0.2;
      assert pvCandidates == FarInView(neighbors, passive, position, id);
      if pvCandidates == {} { return; }
      var newPeer :| newPeer in pvCandidates;
      var oldPeer :| oldPeer in longRange;
      FarInViewMeans(neighbors, passive, position, id, newPeer);
      ExchangeIsSafe(neighbors, ids, s, h, id, newPeer, oldPeer);
      ExchangedView(passive, ids, passiveViewSize, id, newPeer, oldPeer);
      ghost var view := Deleted(passive[id], newPeer);
      assert passive[id := view][id := Added(view, oldPeer)] == passive[id := Added(view, oldPeer)];
      Connect(id, newPeer);
      IdsOf(neighbors, ids);
      passive := passive[id := Deleted(passive[id], newPeer)];
      Disconnect(id, oldPeer);
      passive := passive[id := Added(passive[id], oldPeer)];
    }

    method Disconnect(a: nat, b: nat)
      requires a in neighbors && b in neighbors && a != b
      modifies this`neighbors
      ensures neighbors == CutLink(old(neighbors), a, b)
    {
      neighbors := neighbors[a := neighbors[a] - {b}];
      neighbors := neighbors[b := neighbors[b] - {a}];
    }

    /** Every node that has neighbours swaps the oldest eight entries of its view with those of one of them, in turn. */
    method ShufflePassiveViews() returns (ghost swaps: seq<(nat, nat)>)
      requires Valid()
      modifies this`passive
      ensures Valid() && passive == AfterSwaps(old(passive), swaps, neighbors, position.Keys, passiveViewSize)
      ensures forall k :: 0 <= k < |swaps| ==> Linked(neighbors, swaps[k].0, swaps[k].1)
      ensures forall j, k :: 0 <= j < k < |swaps| ==> swaps[j].0 != swaps[k].0
      ensures forall id :: id in position && id in neighbors && neighbors[id] != {} ==> exists k :: 0 <= k < |swaps| && swaps[k].0 == id
      ensures forall k :: 0 <= k < |swaps| ==>
        Offered(AfterSwaps(old(passive), swaps[..k], neighbors, position.Keys, passiveViewSize),
          AfterSwaps(old(passive), swaps[..k + 1], neighbors, position.Keys, passiveViewSize),
          swaps[k].0, swaps[k].1, neighbors, position.Keys, passiveViewSize)
    {
      hide OnIds, ViewsOk, AfterSwaps, Swapped, Offered;
      var todo := position.Keys;
      swaps := [];
      NoSwaps(passive, neighbors, position.Keys, passiveViewSize);
      ghost var views0 := passive;
      while todo != {}
        invariant Valid() && todo <= position.Keys
        invariant passive == AfterSwaps(views0, swaps, neighbors, position.Keys, passiveViewSize)
        invariant forall k :: 0 <= k < |swaps| ==> Linked(neighbors, swaps[k].0, swaps[k].1) && swaps[k].0 !in todo
        invariant forall j, k :: 0 <= j < k < |swaps| ==> swaps[j].0 != swaps[k].0
        invariant forall id :: id in position && id !in todo && id in neighbors && neighbors[id] != {} ==>
          exists k :: 0 <= k < |swaps| && swaps[k].0 == id
      {
        var id :| id in todo;
        IdsOf(neighbors, position.Keys);
        if neighbors[id] != {} {
          var target :| target in neighbors[id];
          LinkedIsOther(neighbors, position.Keys, id, target);
          ViewIds(passive, position.Keys, passiveViewSize, id);
          ViewIds(passive, position.Keys, passiveViewSize, target);
          SwapViews(id, target);
          ghost var before := swaps;
          swaps := swaps + [(id, target)];
          OneMoreSwap(views0, before, id, target, neighbors, position.Keys, passiveViewSize);
          assert swaps[|before|].0 == id;
          forall x | x in position && x !in todo && x in neighbors && neighbors[x] != {}
            ensures exists k :: 0 <= k < |swaps| && swaps[k].0 == x
          {
            var k :| 0 <= k < |before| && before[k].0 == x;
            assert swaps[k].0 == x;
          }
        }
        todo := todo - {id};
      }
      SwapsAreOffers(views0, swaps, neighbors, position.Keys, passiveViewSize);
    }

    method SwapViews(id: nat, target: nat)
      requires Valid() && Linked(neighbors, id, target) && id in passive && target in passive && target in neighbors
      modifies this`passive
      ensures Valid() && passive == Swapped(old(passive), id, target, neighbors, position.Keys, passiveViewSize)
      ensures Offered(old(passive), passive, id, target, neighbors, position.Keys, passiveViewSize)
    {
      hide OnIds, ViewsOk, ViewOk, Rotated, Offered;
      LinkedIsOther(neighbors, position.Keys, id, target);
      IdsOf(neighbors, position.Keys);
      SwapIsAnOffer(passive, id, target, neighbors, position.Keys, passiveViewSize);
      var myEntries, theirEntries := FirstEight(passive[id]), FirstEight(passive[target]);
      ghost var before := passive[target];
      TakeAll(id, theirEntries);
      assert passive[target] == before;
      TakeAll(target, myEntries);
    }

    method TakeAll(id: nat, entries: seq<nat>)
      requires Valid() && id in position && id in passive && id in neighbors
      modifies this`passive
      ensures Valid()
      ensures passive == old(passive)
        [id := TakeIn(old(passive)[id], entries, id, neighbors[id], position.Keys, passiveViewSize)]
    {
      hide OnIds, ViewsOk, ViewOk, Rotated;
      ghost var view, ids, links, views := passive[id], position.Keys, neighbors[id], passive;
      TakenViewIsOk(views, ids, passiveViewSize, id, links, entries);
      assert passive[id := passive[id]] == passive;
      for i := 0 to |entries|
        invariant id in passive && passive == views[id := TakeIn(view, entries[..i], id, links, ids, passiveViewSize)]
      {
        assert entries[..i + 1][..i] == entries[..i];
        var e := entries[i];
        if e != id && e !in neighbors[id] && e in position {
          passive := passive[id := Rotated(passive[id], e, passiveViewSize)];
        }
      }
      assert entries[..|entries|] == entries;
    }

    /** The figures that computeMetrics reports about connectivity. A single node counts as neither ring nor connected. */
    method Connectivity()
      returns (ringIntact: bool, components: nat, isFullyConnected: bool, ghost comps: seq<seq<nat>>)
      requires Valid()
      ensures Partition(neighbors, comps) && components == |comps|
      ensures ringIntact <==> CircleClosed(neighbors, Order(position))
      ensures (components <= 1 <==> Connected(neighbors)) && (components == 0 <==> position == map[])
      ensures isFullyConnected <==> Connected(neighbors) && |position| != 1
    {
      hide ViewsOk, OnIds, Order, Connected, Partition, Wrap, Mutual, CircleClosed;
      IdsOf(neighbors, position.Keys);
      OnIdsIsMutual(neighbors, position.Keys);
      OrderMembers(position);
      if position == map[] {
        NobodyIsConnected(neighbors);
        EmptyCircle(neighbors, position);
        NoComponents(neighbors);
        return true, 0, true, [];
      }
      var isolated := set id | id in position && neighbors[id] == {};
      var found := FindComponents(neighbors);
      comps, components := found, |found|;
      ConnectedIffOneComponent(neighbors, comps);
      SomeComponent(neighbors, position.Keys, comps);
      NobodyIsolated(neighbors, position.Keys);
      isFullyConnected := components == 1 && isolated == {};
      ringIntact := CheckCircle();
    }

    method CheckCircle() returns (ringIntact: bool)
      requires Valid()
      ensures ringIntact <==> CircleClosed(neighbors, Order(position))
    {
      hide ViewsOk, OnIds, Order, IsOrder, Wrap;
      var sorted := Sort(position);
      OrderMembers(position);
      IdsOf(neighbors, position.Keys);
      ringIntact := true;
      var i := 0;
      while i < |sorted|
        invariant 0 <= i <= |sorted| && ringIntact
        invariant forall j :: 0 <= j < i ==> Linked(neighbors, sorted[j], sorted[Wrap(j + 1, |sorted|)])
      {
        var next := sorted[Wrap(i + 1, |sorted|)];
        if next !in neighbors[sorted[i]] {
          CircleBroken(neighbors, sorted, i);
          return false;
        }
        i := i + 1;
      }
    }
  }

  datatype Op = Join(place: real) | Leave(id: nat) | Repair | Shuffle | ShuffleViews

  /**
   * Any run whatever keeps everyone within ceil(localLinks / 2) places on the ring linked, links mutual, and passive
   * views live, free of their owner and within their size. With at least one local link the ring closes and there is
   * one component, except that a single node is never reported as a ring.
   */
  method Simulate(localLinks: nat, longRangeLinks: nat, passiveViewSize: nat, ops: seq<Op>)
    returns (position: map<nat, real>, neighbors: Graph, passive: Views, ringIntact: bool, components: nat)
    ensures OnIds(neighbors, position.Keys) && ViewsOk(passive, position.Keys, passiveViewSize)
    ensures RingLinked(neighbors, Order(position), HalfOf(localLinks))
    ensures 1 <= localLinks ==> (ringIntact <==> |position| != 1) && components == Min(|position|, 1)
  {
    hide RingLinked, OnIds, ViewsOk, Order, Connected, CircleClosed, Partition, Sated, InView, Linked, AfterSwaps,
      Keeps, KeepsNear, AddLinks, IsShuffleRun, Offered, GrowsAround, IsShortcutChoice, ViewsWithout;
    var mesh := new RingMeshSimulator(localLinks, longRangeLinks, passiveViewSize);
    for i := 0 to |ops|
      invariant mesh.Valid() && mesh.RingIntact()
      invariant mesh.localLinks == localLinks && mesh.passiveViewSize == passiveViewSize
    {
      match ops[i]
      case Join(place) => var id, local, far := mesh.AddNode(place);
      case Leave(id) => mesh.RemoveNode(id);
      case Repair => var count, taken := mesh.RepairAll();
      case Shuffle => var order, states := mesh.ShuffleAll();
      case ShuffleViews => var swaps := mesh.ShufflePassiveViews();
    }
    var ring, count, full, comps := mesh.Connectivity();
    ringIntact, components := ring, count;
    position, neighbors, passive := mesh.position, mesh.neighbors, mesh.passive;
    if 1 <= localLinks {
      assert neighbors.Keys == position.Keys by { IdsOf(neighbors, position.Keys); }
      RingLinkedIsConnected(neighbors, position, HalfOf(localLinks));
      CircleIffNotAlone(neighbors, position, HalfOf(localLinks));
      if |position| == 0 { assert position == map[]; }
    }
  }
}
