/** The circle of nodes: who is within h places of whom, and how that changes when one node comes or goes. */
module Ring {
  import opened StableOrder

  /** ceil(links / 2) */
  function HalfOf(links: nat): (half: nat)
    ensures links <= 2 * half <= links + 1
  {
    (links + 1) / 2
  }

  lemma HalfOfSome(links: nat)
    requires 1 <= links
    ensures 1 <= HalfOf(links)
  {
  }

  /** Clockwise steps from place i to place j on a circle of n places. */
  function Steps(n: nat, i: nat, j: nat): nat
    requires i < n && j < n
  {
    if i <= j then j - i else j - i + n
  }

  function Gap(s: seq<nat>, a: nat, b: nat): nat
    requires a in s && b in s
  {
    Steps(|s|, Index(s, a), Index(s, b))
  }

  /** a and b are at most h places apart, in one direction or the other. */
  predicate Near(s: seq<nat>, h: nat, a: nat, b: nat) {
    a in s && b in s && a != b && (Gap(s, a, b) <= h || Gap(s, b, a) <= h)
  }

  lemma NearMeans(s: seq<nat>, h: nat, a: nat, b: nat)
    ensures Near(s, h, a, b) ==> a in s && b in s && a != b
    ensures Near(s, h, a, b) <==> Near(s, h, b, a)
  {
  }

  function Locals(s: seq<nat>, h: nat, a: nat): set<nat> {
    set b | b in s && Near(s, h, a, b)
  }

  function Left(n: nat, k: nat, i: nat): (place: nat)
    requires k < n && i < n
    ensures place < n
  {
    if i <= k then k - i else k - i + n
  }

  function Right(n: nat, k: nat, i: nat): (place: nat)
    requires k < n && i < n
    ensures place < n
  {
    if k + i < n then k + i else k + i - n
  }

  /** The source's index arithmetic: the place x steps from the start, taken around the circle. */
  function Wrap(x: int, n: nat): (i: nat)
    requires 0 < n
    ensures i < n
  {
    x % n
  }

  lemma PlacesAround(n: nat, k: nat, i: nat)
    requires k < n && i < n
    ensures Wrap(k - i + n, n) == Left(n, k, i) && Wrap(k + i, n) == Right(n, k, i)
  {
    SmallMod(k + i, n);
    SmallMod(k - i + n, n);
  }

  lemma SmallMod(x: nat, n: nat)
    requires 0 < n && x < 2 * n
    ensures x % n == (if x < n then x else x - n)
  {
    if n <= x { assert x == (x - n) + 1 * n; }
  }

  lemma NearGrows(s: seq<nat>, a: nat, i: nat, b: nat)
    requires Distinct(s) && a in s && b in s && 1 <= i < |s|
    ensures var n, k := |s|, Index(s, a);
      Near(s, i, a, b) <==> Near(s, i - 1, a, b) || b == s[Left(n, k, i)] || b == s[Right(n, k, i)]
  {
    var n, k, j := |s|, Index(s, a), Index(s, b);
    IndexOfDistinct(s, Left(n, k, i));
    IndexOfDistinct(s, Right(n, k, i));
    StepsGrow(n, k, i, j);
    assert b == s[Left(n, k, i)] <==> j == Left(n, k, i);
    assert b == s[Right(n, k, i)] <==> j == Right(n, k, i);
    assert a == b <==> k == j;
  }

  lemma StepsGrow(n: nat, k: nat, i: nat, j: nat)
    requires k < n && j < n && 1 <= i < n
    ensures k != j && (Steps(n, k, j) <= i || Steps(n, j, k) <= i)
      <==> (k != j && (Steps(n, k, j) <= i - 1 || Steps(n, j, k) <= i - 1)) || j == Left(n, k, i) || j == Right(n, k, i)
  {
  }

  /** One more round of the loop adds the two nodes i places away. */
  lemma LocalsGrow(s: seq<nat>, a: nat, i: nat)
    requires Distinct(s) && a in s && 1 <= i < |s|
    ensures var n, k := |s|, Index(s, a);
      Locals(s, i, a) == Locals(s, i - 1, a) + {s[Left(n, k, i)]} + {s[Right(n, k, i)]}
  {
    hide Near, Index;
    var n, k := |s|, Index(s, a);
    forall b | b in s
      ensures b in Locals(s, i, a) <==> b in Locals(s, i - 1, a) || b == s[Left(n, k, i)] || b == s[Right(n, k, i)]
    {
      NearGrows(s, a, i, b);
    }
  }

  lemma LocalsOfZero(s: seq<nat>, a: nat)
    requires Distinct(s)
    ensures Locals(s, 0, a) == {}
  {
    forall b | b in s && a in s && a != b ensures !Near(s, 0, a, b) {
      assert Index(s, a) != Index(s, b);
    }
  }

  lemma PlacesDiffer(s: seq<nat>, a: nat, i: nat)
    requires Distinct(s) && a in s && 1 <= i < |s|
    ensures var n, k := |s|, Index(s, a); s[Left(n, k, i)] != a && s[Right(n, k, i)] != a
  {
  }

  lemma LocalsSaturate(s: seq<nat>, a: nat, h: nat)
    requires |s| <= h + 1
    ensures Locals(s, h, a) == (set b | b in s && a in s && b != a)
  {
  }

  lemma LocalsWiden(s: seq<nat>, h: nat, a: nat)
    ensures Locals(s, h, a) <= Locals(s, h + 1, a)
  {
  }

  /** The nodes up to `half` places to the left and right, found by sorting and counting around the circle. */
  method LocalNodes(position: map<nat, real>, half: nat, id: nat) returns (ids: set<nat>)
    requires id in position
    ensures ids == Locals(Order(position), half, id)
  {
    hide Index, Near, Locals, Wrap, Order;
    var s := Sort(position);
    OrderIsDistinct(position, s);
    var k, n, i := Index(s, id), |s|, 1;
    LocalsOfZero(s, id);
    ids := {};
    while i <= half && i < n
      invariant 1 <= i && i <= half + 1 && i <= n
      invariant ids == Locals(s, i - 1, id)
    {
      PlacesAround(n, k, i);
      LocalsGrow(s, id, i);
      ids := ids + {s[Wrap(k - i + n, n)]};
      ids := ids + {s[Wrap(k + i, n)]};
      i := i + 1;
    }
    if i <= half {
      LocalsSaturate(s, id, i - 1);
      LocalsSaturate(s, id, half);
    }
  }

  lemma {:induction false} LocalsAtMost(s: seq<nat>, h: nat, a: nat)
    requires Distinct(s) && a in s
    ensures |Locals(s, h, a)| <= 2 * h
  {
    hide Index;
    if h == 0 {
      LocalsOfZero(s, a);
    } else {
      LocalsAtMost(s, h - 1, a);
      TwoMoreAtMost(s, h, a);
    }
  }

  lemma TwoMoreAtMost(s: seq<nat>, h: nat, a: nat)
    requires Distinct(s) && a in s && 1 <= h
    ensures |Locals(s, h, a)| <= |Locals(s, h - 1, a)| + 2
  {
    hide Index, Near;
    if h < |s| {
      LocalsGrow(s, a, h);
    } else {
      LocalsSaturate(s, a, h);
      LocalsSaturate(s, a, h - 1);
      assert Locals(s, h, a) == Locals(s, h - 1, a);
    }
  }

  /** While the circle is big enough the two sides do not meet: exactly 2h nodes. */
  lemma {:induction false} LocalsExactly(s: seq<nat>, h: nat, a: nat)
    requires Distinct(s) && a in s && 2 * h < |s|
    ensures |Locals(s, h, a)| == 2 * h
  {
    if h == 0 {
      LocalsOfZero(s, a);
    } else {
      LocalsExactly(s, h - 1, a);
      TwoNewLocals(s, h, a);
    }
  }

  lemma TwoNewLocals(s: seq<nat>, h: nat, a: nat)
    requires Distinct(s) && a in s && 1 <= h && 2 * h < |s|
    ensures |Locals(s, h, a)| == |Locals(s, h - 1, a)| + 2
  {
    var n, k := |s|, Index(s, a);
    var i, j := Left(n, k, h), Right(n, k, h);
    LocalsGrow(s, a, h);
    assert s[i] !in Locals(s, h - 1, a) by { NotYetNear(s, h, a, i); }
    assert s[j] !in Locals(s, h - 1, a) by { NotYetNear(s, h, a, j); }
    assert s[i] != s[j];
  }

  lemma NotYetNear(s: seq<nat>, h: nat, a: nat, i: nat)
    requires Distinct(s) && a in s && 1 <= h && 2 * h < |s|
    requires i == Left(|s|, Index(s, a), h) || i == Right(|s|, Index(s, a), h)
    ensures !Near(s, h - 1, a, s[i])
  {
    IndexOfDistinct(s, i);
  }

  lemma IndexAfterAdd(s: seq<nat>, k: nat, x: nat, a: nat)
    requires Distinct(s) && x !in s && k <= |s| && a in s
    ensures var t := s[..k] + [x] + s[k..];
      a in t && Index(t, a) == if Index(s, a) < k then Index(s, a) else Index(s, a) + 1
  {
    var t := s[..k] + [x] + s[k..];
    var i := Index(s, a);
    var j := if i < k then i else i + 1;
    assert t[j] == a;
    forall p, q | 0 <= p < q < |t| ensures t[p] != t[q] {
      assert t[p] == if p < k then s[p] else if p == k then x else s[p - 1];
      assert t[q] == if q < k then s[q] else if q == k then x else s[q - 1];
    }
    IndexOfDistinct(t, j);
  }

  lemma IndexAfterRemove(s: seq<nat>, k: nat, a: nat)
    requires Distinct(s) && k < |s| && a in s && a != s[k]
    ensures var t := s[..k] + s[k + 1..];
      a in t && Index(t, a) == if Index(s, a) < k then Index(s, a) else Index(s, a) - 1
  {
    var t := s[..k] + s[k + 1..];
    var i := Index(s, a);
    var j := if i < k then i else i - 1;
    assert t[j] == a;
    forall p, q | 0 <= p < q < |t| ensures t[p] != t[q] {
      assert t[p] == if p < k then s[p] else s[p + 1];
      assert t[q] == if q < k then s[q] else s[q + 1];
    }
    IndexOfDistinct(t, j);
  }

  /** A newcomer never brings two old nodes closer. */
  lemma NearAfterAdd(s: seq<nat>, k: nat, x: nat, h: nat, a: nat, b: nat)
    requires Distinct(s) && x !in s && k <= |s| && a in s && b in s
    requires Near(s[..k] + [x] + s[k..], h, a, b)
    ensures Near(s, h, a, b)
  {
    hide Index;
    IndexAfterAdd(s, k, x, a);
    IndexAfterAdd(s, k, x, b);
  }

  /** A departure brings two nodes within reach only if the one who left was within reach of both. */
  lemma NearAfterRemove(s: seq<nat>, k: nat, h: nat, a: nat, b: nat)
    requires Distinct(s) && k < |s| && a in s && b in s && a != s[k] && b != s[k]
    requires Near(s[..k] + s[k + 1..], h, a, b)
    ensures Near(s, h, a, b) || (Near(s, h, s[k], a) && Near(s, h, s[k], b))
  {
    hide Index;
    IndexAfterRemove(s, k, a);
    IndexAfterRemove(s, k, b);
    IndexOfDistinct(s, k);
  }
}
