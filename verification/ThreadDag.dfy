/** The posts of one thread and the order in which they are shown. */
module ThreadDag {
  import opened TieBreak

  datatype Post = Post(packetId: string, threadId: string, createdAt: nat, parents: seq<string>, cumulativePow: int)

  type Posts = map<string, Post>

  ghost predicate WellKeyed(nodes: Posts) {
    forall id :: id in nodes ==> nodes[id].packetId == id
  }

  /** The next post to show, of two that are both due. */
  predicate Before(nodes: Posts, a: string, b: string)
    requires a in nodes && b in nodes
  {
    StrLt(TieKey(nodes[a].createdAt, nodes[a].packetId), TieKey(nodes[b].createdAt, nodes[b].packetId))
  }

  lemma BeforeIsTotal(nodes: Posts, a: string, b: string)
    requires WellKeyed(nodes) && a in nodes && b in nodes
    ensures a == b || Before(nodes, a, b) || Before(nodes, b, a)
    ensures !(Before(nodes, a, b) && Before(nodes, b, a)) && !Before(nodes, a, a)
  {
    hide TieKey, StrLt;
    StrTotal(TieKey(nodes[a].createdAt, a), TieKey(nodes[b].createdAt, b));
    StrTotal(TieKey(nodes[a].createdAt, a), TieKey(nodes[a].createdAt, a));
    if TieKey(nodes[a].createdAt, a) == TieKey(nodes[b].createdAt, b) {
      TieKeysDiffer(nodes[a].createdAt, a, nodes[b].createdAt, b);
    }
  }

  lemma BeforeIsTransitive(nodes: Posts, a: string, b: string, c: string)
    requires a in nodes && b in nodes && c in nodes && Before(nodes, a, b) && Before(nodes, b, c)
    ensures Before(nodes, a, c)
  {
    hide TieKey, StrLt;
    StrTransitive(TieKey(nodes[a].createdAt, nodes[a].packetId), TieKey(nodes[b].createdAt, nodes[b].packetId),
                  TieKey(nodes[c].createdAt, nodes[c].packetId));
  }

  /** Posts that may be shown next: not shown yet, and every registered parent shown. */
  ghost function Ready(nodes: Posts, done: set<string>): set<string> {
    set id | id in nodes && id !in done && forall p :: p in nodes[id].parents && p in nodes ==> p in done
  }

  ghost predicate IsLeast(nodes: Posts, who: set<string>, m: string) {
    m in who && forall x :: x in who && x != m ==> x in nodes && m in nodes && Before(nodes, m, x)
  }

  lemma {:induction false} LeastExists(nodes: Posts, who: set<string>) returns (m: string)
    requires WellKeyed(nodes) && who != {} && who <= nodes.Keys
    ensures IsLeast(nodes, who, m)
  {
    hide Before;
    var x :| x in who;
    var rest := who - {x};
    if rest == {} {
      assert who == {x};
      m := x;
    } else {
      var y := LeastExists(nodes, rest);
      BeforeIsTotal(nodes, x, y);
      if Before(nodes, x, y) {
        m := x;
        forall z | z in who && z != x ensures Before(nodes, x, z) {
          if z != y { BeforeIsTransitive(nodes, x, y, z); }
        }
      } else {
        m := y;
      }
    }
  }

  lemma LeastIsUnique(nodes: Posts, who: set<string>, m: string, m': string)
    requires WellKeyed(nodes) && who <= nodes.Keys && IsLeast(nodes, who, m) && IsLeast(nodes, who, m')
    ensures m == m'
  {
    BeforeIsTotal(nodes, m, m');
  }

  ghost function Least(nodes: Posts, who: set<string>): (m: string)
    requires WellKeyed(nodes) && who != {} && who <= nodes.Keys
    ensures IsLeast(nodes, who, m)
  {
    LeastIsThere(nodes, who);
    var m :| IsLeast(nodes, who, m);
    m
  }

  lemma LeastIsThere(nodes: Posts, who: set<string>)
    requires WellKeyed(nodes) && who != {} && who <= nodes.Keys
    ensures exists m :: IsLeast(nodes, who, m)
  {
    var m := LeastExists(nodes, who);
  }

  function Shown(ids: seq<string>): set<string> {
    set id | id in ids
  }

  /** The canonical order of the rest of a thread, once the posts of `done` are shown. */
  ghost function Canon(nodes: Posts, done: set<string>): (s: seq<string>)
    requires WellKeyed(nodes)
    ensures forall id :: id in s ==> id in nodes && id !in done
    decreases |nodes.Keys - done|
  {
    var ready := Ready(nodes, done);
    if ready == {} then [] else
      var m := Least(nodes, ready);
      FewerLeft(nodes, done, m);
      [m] + Canon(nodes, done + {m})
  }

  lemma CanonUnfolds(nodes: Posts, done: set<string>)
    requires WellKeyed(nodes)
    ensures if Ready(nodes, done) == {} then Canon(nodes, done) == [] else
      var m := Least(nodes, Ready(nodes, done));
      && IsLeast(nodes, Ready(nodes, done), m)
      && Canon(nodes, done) == [m] + Canon(nodes, done + {m})
      && m in nodes && m !in done && |nodes.Keys - (done + {m})| < |nodes.Keys - done|
  {
    hide Before;
    if Ready(nodes, done) != {} { FewerLeft(nodes, done, Least(nodes, Ready(nodes, done))); }
  }

  lemma FewerLeft(nodes: Posts, done: set<string>, m: string)
    requires m in nodes && m !in done
    ensures |nodes.Keys - (done + {m})| < |nodes.Keys - done|
  {
    assert nodes.Keys - done == (nodes.Keys - (done + {m})) + {m};
  }

  /** s always goes on with the least post that is ready, and stops only when none is. */
  ghost predicate IsGreedy(nodes: Posts, done: set<string>, s: seq<string>)
    decreases |s|
  {
    if s == [] then Ready(nodes, done) == {}
    else IsLeast(nodes, Ready(nodes, done), s[0]) && IsGreedy(nodes, done + {s[0]}, s[1..])
  }

  lemma {:induction false} CanonIsTheGreedyOrder(nodes: Posts, done: set<string>, s: seq<string>)
    requires WellKeyed(nodes)
    ensures IsGreedy(nodes, done, s) <==> s == Canon(nodes, done)
    decreases |s|, |nodes.Keys - done|
  {
    hide Before, Canon, Least, Ready;
    CanonUnfolds(nodes, done);
    ReadyArePosts(nodes, done);
    var ready := Ready(nodes, done);
    if ready != {} && s != [] {
      var m := Least(nodes, ready);
      if IsLeast(nodes, ready, s[0]) { LeastIsUnique(nodes, ready, m, s[0]); }
      if s[0] == m {
        CanonIsTheGreedyOrder(nodes, done + {m}, s[1..]);
        assert s == [m] + s[1..];
      }
    }
  }

  lemma ReadyArePosts(nodes: Posts, done: set<string>)
    ensures Ready(nodes, done) <= nodes.Keys - done
  {
  }

  /** No repeats, and a registered parent always comes first. */
  lemma {:induction false} CanonParentsFirst(nodes: Posts, done: set<string>, i: nat, p: string)
    requires WellKeyed(nodes) && i < |Canon(nodes, done)|
    ensures var s := Canon(nodes, done);
      && s[i] !in s[..i]
      && (p in nodes && p in nodes[s[i]].parents ==> p in done || p in s[..i])
    decreases |nodes.Keys - done|
  {
    hide Before, Canon, Least;
    CanonUnfolds(nodes, done);
    var s, m := Canon(nodes, done), Least(nodes, Ready(nodes, done));
    var rest := Canon(nodes, done + {m});
    if i > 0 {
      CanonParentsFirst(nodes, done + {m}, i - 1, p);
      assert s[..i] == [m] + rest[..i - 1];
    }
  }

  /**
   * A post that could have been shown already, with all its registered parents shown, comes later by time and id than
   * the one that was. Times have at most 15 digits.
   */
  lemma {:induction false} CanonIsByTime(nodes: Posts, done: set<string>, i: nat, j: nat)
    requires WellKeyed(nodes) && i < j < |Canon(nodes, done)|
    requires var s := Canon(nodes, done);
      && nodes[s[i]].createdAt < 1_000_000_000_000_000 && nodes[s[j]].createdAt < 1_000_000_000_000_000
      && forall p :: p in nodes && p in nodes[s[j]].parents ==> p in done || p in s[..i]
    ensures var a, b := Canon(nodes, done)[i], Canon(nodes, done)[j];
      Earlier(nodes[a].createdAt, a, nodes[b].createdAt, b)
    decreases |nodes.Keys - done|
  {
    hide Canon, Least, Ready, IsLeast, Before, Earlier;
    CanonUnfolds(nodes, done);
    ReadyArePosts(nodes, done);
    var s, m := Canon(nodes, done), Least(nodes, Ready(nodes, done));
    var rest := Canon(nodes, done + {m});
    if i == 0 {
      CanonParentsFirst(nodes, done, j, m);
      WasReady(nodes, done, s, j);
      LeastIsByTime(nodes, Ready(nodes, done), m, s[j]);
    } else {
      assert s[..i] == [m] + rest[..i - 1];
      CanonIsByTime(nodes, done + {m}, i - 1, j - 1);
    }
  }

  lemma WasReady(nodes: Posts, done: set<string>, s: seq<string>, j: nat)
    requires 0 < j < |s| && s[j] !in s[..j] && (forall id :: id in s ==> id in nodes && id !in done)
    requires forall p :: p in nodes && p in nodes[s[j]].parents ==> p in done || p in s[..0]
    ensures s[j] in Ready(nodes, done) && s[j] != s[0]
  {
    assert s[0] in s[..j];
  }

  lemma LeastIsByTime(nodes: Posts, who: set<string>, m: string, x: string)
    requires WellKeyed(nodes) && m in nodes && x in nodes && IsLeast(nodes, who, m) && x in who && x != m
    requires nodes[m].createdAt < 1_000_000_000_000_000 && nodes[x].createdAt < 1_000_000_000_000_000
    ensures Earlier(nodes[m].createdAt, m, nodes[x].createdAt, x)
  {
    hide TieKey, StrLt;
    FifteenDigits();
    TieKeyIsByTime(nodes[m].createdAt, m, nodes[x].createdAt, x);
  }

  lemma FifteenDigits()
    ensures Pow10(WIDTH) == 1_000_000_000_000_000
  {
    assert Pow10(5) == 100_000;
    assert Pow10(10) == 100_000 * Pow10(5);
    assert Pow10(15) == 100_000 * Pow10(10);
  }

  /** In the end nothing is ready any more. */
  lemma {:induction false} CanonIsExhaustive(nodes: Posts, done: set<string>)
    requires WellKeyed(nodes)
    ensures Ready(nodes, done + Shown(Canon(nodes, done))) == {}
    decreases |nodes.Keys - done|
  {
    hide Before, Canon, Least, Ready;
    CanonUnfolds(nodes, done);
    if Ready(nodes, done) == {} {
      assert done + Shown([]) == done;
    } else {
      var m := Least(nodes, Ready(nodes, done));
      var rest := Canon(nodes, done + {m});
      CanonIsExhaustive(nodes, done + {m});
      ShownOneMore(done, m, rest);
    }
  }

  lemma ShownOneMore(done: set<string>, m: string, rest: seq<string>)
    ensures done + Shown([m] + rest) == done + {m} + Shown(rest)
  {
  }

  /** walk[0] has the registered parent walk[1], and so on. */
  ghost predicate IsParentWalk(nodes: Posts, walk: seq<string>) {
    && (forall i :: 0 <= i < |walk| ==> walk[i] in nodes)
    && (forall i :: 0 < i < |walk| ==> walk[i] in nodes[walk[i - 1]].parents)
  }

  /** Going from a post to its parents one can get into a cycle. */
  ghost predicate LeadsToCycle(nodes: Posts, id: string) {
    exists walk: seq<string>, i: nat, j: nat ::
      IsParentWalk(nodes, walk) && i < j < |walk| && walk[0] == id && walk[i] == walk[j]
  }

  /** Only posts on or downstream of a cycle are left out. */
  lemma OmittedLeadsToCycle(nodes: Posts, id: string)
    requires WellKeyed(nodes) && id in nodes && id !in Canon(nodes, {})
    ensures LeadsToCycle(nodes, id)
  {
    hide Canon, IsParentWalk, Ready, WellKeyed;
    var done := Shown(Canon(nodes, {}));
    CanonIsExhaustive(nodes, {});
    assert {} + done == done;
    StartOfWalk(nodes, id);
    var walk := WalkOfOmitted(nodes, done, [id]);
    var i: nat, j: nat :| i < j < |walk| && walk[i] == walk[j];
  }

  lemma StartOfWalk(nodes: Posts, id: string)
    requires id in nodes
    ensures IsParentWalk(nodes, [id])
  {
  }

  /** Extend a walk through posts that never became ready until it repeats itself. */
  lemma {:induction false} WalkOfOmitted(nodes: Posts, done: set<string>, walk: seq<string>) returns (longer: seq<string>)
    requires Ready(nodes, done) == {} && walk != [] && IsParentWalk(nodes, walk)
    requires forall x :: x in walk ==> x !in done
    ensures IsParentWalk(nodes, longer) && longer != [] && longer[0] == walk[0]
    ensures exists i: nat, j: nat :: i < j < |longer| && longer[i] == longer[j]
    decreases |nodes.Keys - Shown(walk)|
  {
    hide Ready, IsParentWalk;
    var last := walk[|walk| - 1];
    WalkStaysIn(nodes, walk);
    var p := StuckParent(nodes, done, last);
    longer := walk + [p];
    WalkOn(nodes, walk, p);
    if p in walk {
      var i :| 0 <= i < |walk| && walk[i] == p;
      assert longer[i] == longer[|walk|];
    } else {
      ShownGrows(walk, p);
      FewerLeft(nodes, Shown(walk), p);
      longer := WalkOfOmitted(nodes, done, longer);
    }
  }

  lemma WalkStaysIn(nodes: Posts, walk: seq<string>)
    requires IsParentWalk(nodes, walk)
    ensures forall x :: x in walk ==> x in nodes
  {
  }

  /** A post that never becomes ready has a registered parent that is never shown. */
  lemma StuckParent(nodes: Posts, done: set<string>, x: string) returns (p: string)
    requires Ready(nodes, done) == {} && x in nodes && x !in done
    ensures p in nodes && p in nodes[x].parents && p !in done
  {
    assert x !in Ready(nodes, done);
    p :| p in nodes[x].parents && p in nodes && p !in done;
  }

  lemma WalkOn(nodes: Posts, walk: seq<string>, p: string)
    requires walk != [] && IsParentWalk(nodes, walk) && p in nodes && p in nodes[walk[|walk| - 1]].parents
    ensures IsParentWalk(nodes, walk + [p])
  {
    var longer := walk + [p];
    assert forall i :: 0 <= i < |walk| ==> longer[i] == walk[i];
  }

  lemma ShownGrows(walk: seq<string>, p: string)
    ensures Shown(walk + [p]) == Shown(walk) + {p}
  {
  }

  /** And all of those are: a shown post has only shown posts upstream, each earlier in the order. */
  lemma CycleIsOmitted(nodes: Posts, id: string)
    requires WellKeyed(nodes) && LeadsToCycle(nodes, id)
    ensures id !in Canon(nodes, {})
  {
    var walk: seq<string>, i: nat, j: nat :|
      IsParentWalk(nodes, walk) && i < j < |walk| && walk[0] == id && walk[i] == walk[j];
    var s := Canon(nodes, {});
    if id in s {
      var k := PlaceAlongWalk(nodes, walk, 0, i);
      var l := PlaceAlongWalk(nodes, walk, i, j);
    }
  }

  /** The place of a post in a sequence. */
  function Place(s: seq<string>, x: string): (i: nat)
    requires x in s
    ensures i < |s| && s[i] == x && x !in s[..i]
  {
    if s[0] == x then 0 else
      var i := 1 + Place(s[1..], x);
      assert s[..i] == [s[0]] + s[1..][..i - 1];
      i
  }

  lemma {:induction false} PlaceAlongWalk(nodes: Posts, walk: seq<string>, i: nat, j: nat) returns (k: nat)
    requires WellKeyed(nodes) && IsParentWalk(nodes, walk) && i <= j < |walk| && walk[i] in Canon(nodes, {})
    ensures var s := Canon(nodes, {});
      && walk[j] in s && k == Place(s, walk[j])
      && (i < j ==> k < Place(s, walk[i])) && (i == j ==> k == Place(s, walk[i]))
  {
    hide Before, Canon, Place;
    var s := Canon(nodes, {});
    if i == j {
      k := Place(s, walk[j]);
    } else {
      var before := PlaceAlongWalk(nodes, walk, i, j - 1);
      CanonParentsFirst(nodes, {}, before, walk[j]);
      assert walk[j] in s[..before];
      k := Place(s, walk[j]);
      var m :| 0 <= m < before && s[..before][m] == walk[j];
      PlaceIsFirst(s, walk[j], m);
    }
  }

  lemma {:induction false} PlaceIsFirst(s: seq<string>, x: string, m: nat)
    requires m < |s| && s[m] == x
    ensures x in s && Place(s, x) <= m
  {
    if s[0] != x { PlaceIsFirst(s[1..], x, m - 1); }
  }

  lemma ShownIffNoCycle(nodes: Posts, id: string)
    requires WellKeyed(nodes) && id in nodes
    ensures id in Canon(nodes, {}) <==> !LeadsToCycle(nodes, id)
  {
    hide Canon, LeadsToCycle;
    if id !in Canon(nodes, {}) { OmittedLeadsToCycle(nodes, id); }
    if LeadsToCycle(nodes, id) { CycleIsOmitted(nodes, id); }
  }
}
