/** The tie-breaking string of a post, "<created_at padded to 15 digits>_<packet_id>", and the order of such strings. */
module TieBreak {

  /** String order by code unit, which is how localeCompare orders digits, '_' and lower-case hex. */
  predicate StrLt(a: string, b: string) {
    b != [] && (a == [] || a[0] < b[0] || (a[0] == b[0] && StrLt(a[1..], b[1..])))
  }

  lemma {:induction false} StrTotal(a: string, b: string)
    ensures a == b || StrLt(a, b) || StrLt(b, a)
    ensures !(StrLt(a, b) && StrLt(b, a)) && !StrLt(a, a)
    decreases |a|
  {
    if a != [] {
      StrIrreflexive(a);
      if b != [] && a[0] == b[0] {
        StrTotal(a[1..], b[1..]);
        assert a == [a[0]] + a[1..] && b == [b[0]] + b[1..];
      }
    }
  }

  lemma {:induction false} StrIrreflexive(a: string)
    ensures !StrLt(a, a)
  {
    if a != [] { StrIrreflexive(a[1..]); }
  }

  lemma {:induction false} StrTransitive(a: string, b: string, c: string)
    requires StrLt(a, b) && StrLt(b, c)
    ensures StrLt(a, c)
    decreases |a|
  {
    if a != [] && a[0] == b[0] == c[0] {
      StrTransitive(a[1..], b[1..], c[1..]);
    }
  }

  /** A common prefix does not matter. */
  lemma {:induction false} StrPrefix(p: string, a: string, b: string)
    ensures StrLt(p + a, p + b) <==> StrLt(a, b)
  {
    if p == [] {
      assert p + a == a && p + b == b;
    } else {
      StrPrefix(p[1..], a, b);
      assert (p + a)[1..] == p[1..] + a && (p + b)[1..] == p[1..] + b;
    }
  }

  /** Two different prefixes of the same length decide. */
  lemma {:induction false} StrDecided(p: string, q: string, a: string, b: string)
    requires |p| == |q| && p != q
    ensures StrLt(p + a, q + b) <==> StrLt(p, q)
  {
    assert p == [p[0]] + p[1..] && q == [q[0]] + q[1..];
    if p[0] == q[0] {
      StrDecided(p[1..], q[1..], a, b);
      assert (p + a)[1..] == p[1..] + a && (q + b)[1..] == q[1..] + b;
    }
  }

  function Digit(d: nat): char
    requires d < 10
  {
    '0' + d as char
  }

  /** Number.toString of a whole number. */
  function Decimal(n: nat): (s: string)
    ensures s != []
  {
    if n < 10 then [Digit(n)] else Decimal(n / 10) + [Digit(n % 10)]
  }

  function Zeros(w: nat): string {
    seq(w, i => '0')
  }

  /** padStart(width, '0'). */
  function Pad(s: string, width: nat): string {
    if |s| < width then Zeros(width - |s|) + s else s
  }

  /** n written with exactly w digits, leading zeros included. */
  function Fixed(n: nat, w: nat): (s: string)
    ensures |s| == w
  {
    if w == 0 then [] else Fixed(n / 10, w - 1) + [Digit(n % 10)]
  }

  function Pow10(w: nat): (p: nat)
    ensures 1 <= p
  {
    if w == 0 then 1 else 10 * Pow10(w - 1)
  }

  lemma {:induction false} FixedZero(w: nat)
    ensures Fixed(0, w) == Zeros(w)
  {
    if w > 0 { FixedZero(w - 1); }
  }

  /** Padding to w digits writes every number below 10^w with exactly w digits. */
  lemma {:induction false} PadIsFixed(n: nat, w: nat)
    requires n < Pow10(w) && 1 <= w
    ensures |Decimal(n)| <= w && Pad(Decimal(n), w) == Fixed(n, w)
    decreases w
  {
    assert Pow10(1) == 10 * Pow10(0);
    if n < 10 {
      FixedZero(w - 1);
      assert n / 10 == 0 && n % 10 == n;
    } else {
      assert n / 10 < Pow10(w - 1);
      PadIsFixed(n / 10, w - 1);
    }
  }

  /** Numbers of equal width are ordered like their digits. */
  lemma {:induction false} FixedOrder(m: nat, n: nat, w: nat)
    requires m < Pow10(w) && n < Pow10(w)
    ensures StrLt(Fixed(m, w), Fixed(n, w)) <==> m < n
    ensures Fixed(m, w) == Fixed(n, w) <==> m == n
  {
    if w > 0 {
      assert m / 10 < Pow10(w - 1) && n / 10 < Pow10(w - 1);
      FixedOrder(m / 10, n / 10, w - 1);
      var p, q, c, d := Fixed(m / 10, w - 1), Fixed(n / 10, w - 1), Digit(m % 10), Digit(n % 10);
      assert (p + [c])[..w - 1] == p && (q + [d])[..w - 1] == q;
      assert (p + [c])[w - 1] == c && (q + [d])[w - 1] == d;
      if p == q {
        StrPrefix(p, [c], [d]);
        assert Fixed(m, w) == Fixed(n, w) <==> c == d;
      } else {
        StrDecided(p, q, [c], [d]);
      }
    }
  }

  const WIDTH: nat := 15

  function TieKey(createdAt: nat, packetId: string): string {
    Pad(Decimal(createdAt), WIDTH) + "_" + packetId
  }

  /** By time, then by id. */
  predicate Earlier(t: nat, a: string, u: nat, b: string) {
    t < u || (t == u && StrLt(a, b))
  }

  lemma TieKeyIsByTime(t: nat, a: string, u: nat, b: string)
    requires t < Pow10(WIDTH) && u < Pow10(WIDTH)
    ensures StrLt(TieKey(t, a), TieKey(u, b)) <==> Earlier(t, a, u, b)
  {
    PadIsFixed(t, WIDTH);
    PadIsFixed(u, WIDTH);
    FixedOrder(t, u, WIDTH);
    var p, q := Fixed(t, WIDTH), Fixed(u, WIDTH);
    assert TieKey(t, a) == p + ("_" + a) && TieKey(u, b) == q + ("_" + b);
    if p == q {
      StrPrefix(p, "_" + a, "_" + b);
      StrPrefix("_", a, b);
    } else {
      StrDecided(p, q, "_" + a, "_" + b);
    }
  }

  lemma TenTimes(d: nat, p: nat)
    ensures d * (10 * p) == 10 * (d * p) && (1 <= d ==> p <= d * p)
  {
  }

  lemma Tenth(n: nat, x: nat, p: nat)
    requires 10 * x <= n < 10 * x + 10 * p
    ensures x <= n / 10 < x + p
  {
  }

  lemma {:induction false} DecimalStart(n: nat, w: nat, d: nat, x: nat)
    requires 1 <= d < 10 && x == d * Pow10(w) && x <= n < x + Pow10(w)
    ensures |Decimal(n)| == w + 1 && Decimal(n)[0] == Digit(d)
    decreases w
  {
    if w > 0 {
      var p := Pow10(w - 1);
      TenTimes(d, p);
      Tenth(n, d * p, p);
      DecimalStart(n / 10, w - 1, d, d * p);
    }
  }

  /** Past 15 digits the padding no longer evens out the lengths: the later of these two sorts first. */
  lemma SixteenDigitsSortWrong(a: string, b: string)
    ensures var t, u := Pow10(WIDTH) - 1, Pow10(WIDTH);
      StrLt(TieKey(u, a), TieKey(t, b)) && !StrLt(TieKey(t, b), TieKey(u, a))
  {
    var t, u := Pow10(WIDTH) - 1, Pow10(WIDTH);
    assert Pow10(WIDTH) == 10 * Pow10(WIDTH - 1);
    DecimalStart(t, WIDTH - 1, 9, 9 * Pow10(WIDTH - 1));
    DecimalStart(u, WIDTH, 1, Pow10(WIDTH));
    assert TieKey(u, a)[0] == '1' && TieKey(t, b)[0] == '9';
    StrTotal(TieKey(u, a), TieKey(t, b));
  }

  ghost predicate ByTimeBelow(limit: nat) {
    forall t: nat, a, u: nat, b :: t < limit && u < limit ==> (StrLt(TieKey(t, a), TieKey(u, b)) <==> Earlier(t, a, u, b))
  }

  /** The strings order all posts up to a time limit by (created_at, packet_id) exactly if the limit has 15 digits. */
  lemma TieKeyIsByTimeIff(limit: nat)
    ensures ByTimeBelow(limit) <==> limit <= Pow10(WIDTH)
  {
    if limit <= Pow10(WIDTH) {
      forall t: nat, a, u: nat, b | t < limit && u < limit
        ensures StrLt(TieKey(t, a), TieKey(u, b)) <==> Earlier(t, a, u, b)
      {
        TieKeyIsByTime(t, a, u, b);
      }
    } else {
      var t, u := Pow10(WIDTH) - 1, Pow10(WIDTH);
      SixteenDigitsSortWrong("", "");
      assert !(StrLt(TieKey(t, ""), TieKey(u, "")) <==> Earlier(t, "", u, ""));
    }
  }

  /** Different packet ids never tie. */
  lemma TieKeysDiffer(t: nat, a: string, u: nat, b: string)
    requires TieKey(t, a) == TieKey(u, b)
    ensures a == b
  {
    hide Decimal, Pad;
    DigitsOnly(t);
    DigitsOnly(u);
    FirstUnderscore(Pad(Decimal(t), WIDTH), a, Pad(Decimal(u), WIDTH), b);
  }

  lemma {:induction false} FirstUnderscore(p: string, a: string, q: string, b: string)
    requires '_' !in p && '_' !in q && p + "_" + a == q + "_" + b
    ensures p == q && a == b
  {
    var k := p + "_" + a;
    assert k[0] == if p == [] then '_' else p[0];
    assert k[0] == if q == [] then '_' else q[0];
    assert k[1..] == if p == [] then a else p[1..] + "_" + a;
    assert k[1..] == if q == [] then b else q[1..] + "_" + b;
    if p != [] && q != [] {
      FirstUnderscore(p[1..], a, q[1..], b);
      assert p == [p[0]] + p[1..] && q == [q[0]] + q[1..];
    }
  }

  lemma {:induction false} DigitsOnly(n: nat)
    ensures forall i :: 0 <= i < |Decimal(n)| ==> '0' <= Decimal(n)[i] <= '9'
    ensures forall i :: 0 <= i < |Pad(Decimal(n), WIDTH)| ==> '0' <= Pad(Decimal(n), WIDTH)[i] <= '9'
  {
    if n >= 10 { DigitsOnly(n / 10); }
  }
}
