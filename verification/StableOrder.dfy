/**
 * Array.sort by a numeric key over the values of a JavaScript Map. The sort is stable and the Map keeps insertion
 * order, and ids are handed out in insertion order, so the outcome is the order by (key, id).
 */
module StableOrder {

  type Keys = map<nat, real>

  predicate Before(key: Keys, a: nat, b: nat)
    requires a in key && b in key
  {
    key[a] < key[b] || (key[a] == key[b] && a < b)
  }

  lemma SomeMember(s: set<nat>)
    ensures s == {} || exists x :: x in s
  {
    if forall x :: x !in s { assert s == {}; }
  }

  function Members(s: seq<nat>): set<nat> {
    set x | x in s
  }

  ghost predicate Distinct(s: seq<nat>) {
    forall i, j :: 0 <= i < j < |s| ==> s[i] != s[j]
  }

  ghost predicate Ascending(key: Keys, s: seq<nat>)
    requires forall x :: x in s ==> x in key
  {
    forall i, j :: 0 <= i < j < |s| ==> Before(key, s[i], s[j])
  }

  /** s lists exactly the ids of `key`, in sort order. */
  ghost predicate IsOrder(key: Keys, s: seq<nat>) {
    (forall x :: x in s <==> x in key) && Ascending(key, s)
  }

  function Index(s: seq<nat>, x: nat): (i: nat)
    requires x in s
    ensures i < |s| && s[i] == x
    ensures x !in s[..i]
  {
    if s[0] == x then 0 else
      var i := 1 + Index(s[1..], x);
      assert s[..i] == [s[0]] + s[1..][..i - 1];
      i
  }

  lemma IndexOfDistinct(s: seq<nat>, i: nat)
    requires Distinct(s) && i < |s|
    ensures Index(s, s[i]) == i
  {
  }

  function Insert(key: Keys, s: seq<nat>, x: nat): (r: seq<nat>)
    requires x in key && forall y :: y in s ==> y in key
    ensures |r| == |s| + 1
    ensures forall y :: y in r <==> y == x || y in s
  {
    if s == [] then [x]
    else if Before(key, x, s[0]) then [x] + s
    else [s[0]] + Insert(key, s[1..], x)
  }

  /** Insert puts x at one place and keeps the rest; if s was ascending, so is the result. */
  lemma InsertPlaces(key: Keys, s: seq<nat>, x: nat) returns (k: nat)
    requires x in key && x !in s && (forall y :: y in s ==> y in key) && Ascending(key, s)
    ensures k <= |s| && Insert(key, s, x) == s[..k] + [x] + s[k..]
    ensures Ascending(key, Insert(key, s, x))
  {
    hide Ascending, Insert;
    k := InsertAt(key, s, x);
    InsertKeepsOrder(key, s, x);
  }

  lemma {:induction false} InsertAt(key: Keys, s: seq<nat>, x: nat) returns (k: nat)
    requires x in key && forall y :: y in s ==> y in key
    ensures k <= |s| && Insert(key, s, x) == s[..k] + [x] + s[k..]
  {
    hide Before;
    if s == [] || Before(key, x, s[0]) {
      k := 0;
    } else {
      var j := InsertAt(key, s[1..], x);
      k := j + 1;
      assert s[..k] + [x] + s[k..] == [s[0]] + (s[1..][..j] + [x] + s[1..][j..]);
    }
  }

  lemma {:induction false} InsertKeepsOrder(key: Keys, s: seq<nat>, x: nat)
    requires x in key && x !in s && (forall y :: y in s ==> y in key) && Ascending(key, s)
    ensures Ascending(key, Insert(key, s, x))
  {
    if s == [] {
    } else if Before(key, x, s[0]) {
      HeadBeforeRest(key, s);
      assert forall y :: y in s ==> Before(key, x, y);
      PrependKeepsOrder(key, x, s);
    } else {
      InsertKeepsOrder(key, s[1..], x);
      HeadBeforeRest(key, s);
      PrependKeepsOrder(key, s[0], Insert(key, s[1..], x));
    }
  }

  lemma HeadBeforeRest(key: Keys, s: seq<nat>)
    requires s != [] && (forall y :: y in s ==> y in key) && Ascending(key, s)
    ensures forall y :: y in s[1..] ==> Before(key, s[0], y)
  {
    forall y | y in s[1..] ensures Before(key, s[0], y) {
      var i :| 0 <= i < |s[1..]| && s[1..][i] == y;
      assert s[i + 1] == y;
    }
  }

  lemma PrependKeepsOrder(key: Keys, x: nat, s: seq<nat>)
    requires x in key && (forall y :: y in s ==> y in key && Before(key, x, y)) && Ascending(key, s)
    ensures Ascending(key, [x] + s)
  {
  }

  lemma InsertExtendsOrder(done: Keys, s: seq<nat>, key: Keys, x: nat)
    requires IsOrder(done, s) && x !in done && x in key && key == done[x := key[x]]
    ensures IsOrder(key, Insert(key, s, x))
  {
    assert Ascending(key, s) by {
      forall i, j | 0 <= i < j < |s| ensures Before(key, s[i], s[j]) {
        assert Before(done, s[i], s[j]);
      }
    }
    var _ := InsertPlaces(key, s, x);
  }

  ghost function Order(key: Keys): (s: seq<nat>)
    ensures IsOrder(key, s) && |s| == |key|
  {
    if key == map[] then [] else
      SomeMember(key.Keys);
      var x :| x in key;
      var s := Order(key - {x});
      InsertExtendsOrder(key - {x}, s, key, x);
      Insert(key, s, x)
  }

  lemma OrderIsDistinct(key: Keys, s: seq<nat>)
    requires IsOrder(key, s)
    ensures Distinct(s)
  {
    forall i, j | 0 <= i < j < |s| ensures s[i] != s[j] {
      assert Before(key, s[i], s[j]);
    }
  }

  lemma {:induction false} OrderIsUnique(key: Keys, s: seq<nat>, t: seq<nat>)
    requires IsOrder(key, s) && IsOrder(key, t)
    ensures s == t
    decreases |s|
  {
    EmptyOrder(key, s);
    EmptyOrder(key, t);
    if s != [] {
      HeadIsLeast(key, s, t[0]);
      HeadIsLeast(key, t, s[0]);
      RestIsOrder(key, s);
      RestIsOrder(key, t);
      OrderIsUnique(key - {s[0]}, s[1..], t[1..]);
      assert s == [s[0]] + s[1..] && t == [t[0]] + t[1..];
    }
  }

  lemma EmptyOrder(key: Keys, s: seq<nat>)
    requires IsOrder(key, s)
    ensures s == [] <==> key.Keys == {}
  {
    if s != [] { assert s[0] in s; }
    if key.Keys != {} {
      SomeMember(key.Keys);
      var x :| x in key;
      assert x in s;
    }
  }

  lemma HeadIsLeast(key: Keys, s: seq<nat>, y: nat)
    requires IsOrder(key, s) && s != [] && y in key
    ensures y == s[0] || Before(key, s[0], y)
  {
    var i := Index(s, y);
  }

  lemma RestIsOrder(key: Keys, s: seq<nat>)
    requires IsOrder(key, s) && s != []
    ensures IsOrder(key - {s[0]}, s[1..])
  {
    OrderIsDistinct(key, s);
    var rest := key - {s[0]};
    forall x ensures x in s[1..] <==> x in rest {
      if x in rest { var i := Index(s, x); assert s[1..][i - 1] == x; }
    }
    forall i, j | 0 <= i < j < |s[1..]| ensures Before(rest, s[1..][i], s[1..][j]) {
      assert Before(key, s[i + 1], s[j + 1]);
    }
  }

  /** A new id enters the order at one place. */
  lemma OrderAfterAdd(key: Keys, x: nat, v: real) returns (k: nat)
    requires x !in key
    ensures k <= |Order(key)|
    ensures Order(key[x := v]) == Order(key)[..k] + [x] + Order(key)[k..]
  {
    var s, key' := Order(key), key[x := v];
    assert Ascending(key', s) by {
      forall i, j | 0 <= i < j < |s| ensures Before(key', s[i], s[j]) {
        assert Before(key, s[i], s[j]);
      }
    }
    k := InsertPlaces(key', s, x);
    OrderIsUnique(key', Insert(key', s, x), Order(key'));
  }

  lemma OrderMembers(key: Keys)
    ensures Distinct(Order(key)) && forall x :: x in Order(key) <==> x in key
  {
    OrderIsDistinct(key, Order(key));
  }

  lemma DroppedIsOrder(key: Keys, s: seq<nat>, k: nat)
    requires IsOrder(key, s) && k < |s|
    ensures IsOrder(key - {s[k]}, s[..k] + s[k + 1..])
  {
    var key', t := key - {s[k]}, s[..k] + s[k + 1..];
    OrderIsDistinct(key, s);
    DroppedMembers(s, k);
    forall i, j | 0 <= i < j < |t| ensures Before(key', t[i], t[j]) {
      var i', j' := if i < k then i else i + 1, if j < k then j else j + 1;
      assert Before(key, s[i'], s[j']);
    }
  }

  lemma DroppedMembers(s: seq<nat>, k: nat)
    requires Distinct(s) && k < |s|
    ensures forall y :: y in s[..k] + s[k + 1..] <==> y in s && y != s[k]
  {
    var t := s[..k] + s[k + 1..];
    forall y | y in s && y != s[k] ensures y in t {
      var i := Index(s, y);
      assert y == if i < k then t[i] else t[i - 1];
    }
    forall y | y in t ensures y in s && y != s[k] {
      var i := Index(t, y);
      assert y == if i < k then s[i] else s[i + 1];
    }
  }

  /** A removed id leaves the order and nothing else moves. */
  lemma OrderAfterRemove(key: Keys, x: nat) returns (k: nat)
    requires x in key
    ensures k < |Order(key)| && Order(key)[k] == x
    ensures Order(key - {x}) == Order(key)[..k] + Order(key)[k + 1..]
  {
    var s := Order(key);
    k := Index(s, x);
    DroppedIsOrder(key, s, k);
    OrderIsUnique(key - {x}, s[..k] + s[k + 1..], Order(key - {x}));
  }

  /** Array.from(map.values()).sort(...): the model of the library sort, here by insertion. */
  method Sort(key: Keys) returns (s: seq<nat>)
    ensures s == Order(key)
    ensures |s| == |key| && forall x :: x in s <==> x in key
    ensures forall i, j :: 0 <= i < j < |s| ==> key[s[i]] < key[s[j]] || (key[s[i]] == key[s[j]] && s[i] < s[j])
  {
    hide IsOrder, Insert;
    NothingInOrder();
    s := [];
    var todo, done: Keys := key.Keys, map[];
    while todo != {}
      invariant todo !! done.Keys && todo + done.Keys == key.Keys
      invariant forall x :: x in done ==> done[x] == key[x]
      invariant IsOrder(done, s)
    {
      SomeMember(todo);
      var x :| x in todo;
      InsertExtendsOrder(done, s, done[x := key[x]], x);
      todo, done := todo - {x}, done[x := key[x]];
      s := Insert(done, s, x);
    }
    assert done.Keys == key.Keys;
    assert done == key;
    OrderIsUnique(key, s, Order(key));
    OrderMeans(key, s);
  }

  lemma NothingInOrder()
    ensures IsOrder(map[], [])
  {
  }

  /** Nothing is missing, keys go up, and equal keys stand in the order of their ids. */
  lemma OrderMeans(key: Keys, s: seq<nat>)
    requires IsOrder(key, s)
    ensures |s| == |key| && forall x :: x in s <==> x in key
    ensures forall i, j :: 0 <= i < j < |s| ==> key[s[i]] < key[s[j]] || (key[s[i]] == key[s[j]] && s[i] < s[j])
  {
    OrderIsDistinct(key, s);
    PrefixSize(s, |s|);
    assert s[..|s|] == s && Members(s) == key.Keys && |key| == |key.Keys|;
    forall i, j | 0 <= i < j < |s| ensures key[s[i]] < key[s[j]] || (key[s[i]] == key[s[j]] && s[i] < s[j]) {
      assert Before(key, s[i], s[j]);
    }
  }

  /** The first k of the sorted array: slice(0, k). */
  ghost function Nearest(key: Keys, k: nat): (near: seq<nat>)
    ensures |near| <= k
  {
    var s := Order(key);
    if k <= |s| then s[..k] else s
  }

  lemma AppendedMembers(s: seq<nat>, x: nat)
    ensures Members(s + [x]) == Members(s) + {x}
  {
    assert forall y :: y in s + [x] <==> y in s || y == x;
  }

  lemma {:induction false} PrefixSize(s: seq<nat>, i: nat)
    requires Distinct(s) && i <= |s|
    ensures |Members(s[..i])| == i
  {
    if i == 0 {
      assert Members(s[..0]) == {};
    } else {
      PrefixSize(s, i - 1);
      assert s[..i] == s[..i - 1] + [s[i - 1]];
      AppendedMembers(s[..i - 1], s[i - 1]);
      NotAmongEarlier(s, i - 1);
    }
  }

  lemma NotAmongEarlier(s: seq<nat>, i: nat)
    requires Distinct(s) && i < |s|
    ensures s[i] !in s[..i]
  {
  }

  lemma EarlierIsBefore(key: Keys, s: seq<nat>, i: nat, x: nat)
    requires IsOrder(key, s) && i < |s|
    ensures x in s[..i] <==> x in key && Before(key, x, s[i])
  {
    if x in key {
      var j := Index(s, x);
      if j < i { assert s[..i][j] == x; }
      if i < j { assert Before(key, s[i], s[j]); }
    }
    if x in s[..i] {
      var m :| 0 <= m < i && s[..i][m] == x;
      assert s[m] == x;
    }
  }

  /** The place in the sorted array is the number of ids that come before. */
  lemma RankIsCount(key: Keys, v: nat)
    requires v in key
    ensures v in Order(key) && Index(Order(key), v) == |set x | x in key && Before(key, x, v)|
  {
    hide Order;
    var s := Order(key);
    var i := Index(s, v);
    OrderIsDistinct(key, s);
    PrefixSize(s, i);
    forall x ensures x in s[..i] <==> x in key && Before(key, x, v) {
      EarlierIsBefore(key, s, i, x);
    }
    assert (set x | x in key && Before(key, x, v)) == Members(s[..i]);
  }

  /** Being among the first k means exactly that fewer than k ids come before. */
  lemma NearestIff(key: Keys, k: nat, v: nat)
    requires v in key
    ensures v in Nearest(key, k) <==> |set x | x in key && Before(key, x, v)| < k
  {
    hide Order;
    RankIsCount(key, v);
    OrderIsDistinct(key, Order(key));
    var s := Order(key);
    var i := Index(s, v);
    if i < k { assert Nearest(key, k)[i] == v; }
    if v in Nearest(key, k) {
      var j := Index(Nearest(key, k), v);
      assert s[j] == v;
      IndexOfDistinct(s, j);
    }
  }

  lemma BeforeIsTotal(key: Keys, a: nat, b: nat)
    requires a in key && b in key && a != b
    ensures Before(key, a, b) <==> !Before(key, b, a)
  {
  }

  /** No id comes before one that is listed but those listed before it. */
  lemma NearestByKey(key: Keys, k: nat, i: nat, y: nat)
    requires i < |Nearest(key, k)| && y in key && y !in Nearest(key, k)[..i]
    ensures var x := Nearest(key, k)[i]; x in key && (key[x] < key[y] || (key[x] == key[y] && x <= y))
  {
    hide Order;
    var s, near := Order(key), Nearest(key, k);
    assert near[..i] == s[..i] && near[i] == s[i];
    EarlierIsBefore(key, s, i, y);
    if y != s[i] { BeforeIsTotal(key, s[i], y); }
  }

  lemma NearestSize(key: Keys, k: nat)
    ensures |Nearest(key, k)| == if k <= |key| then k else |key|
  {
    hide Order;
  }

  lemma NearestIsDistinct(key: Keys, k: nat)
    ensures Distinct(Nearest(key, k)) && Members(Nearest(key, k)) <= key.Keys
  {
    hide Order;
    OrderIsDistinct(key, Order(key));
    forall x | x in Nearest(key, k) ensures x in key {
      var i := Index(Nearest(key, k), x);
      assert Order(key)[i] == x;
    }
  }
}
