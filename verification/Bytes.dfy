/** Bytes, and numbers written in them with the most significant byte first. */
module Bytes {

  type Byte = b: nat | b < 256

  /** A text of the Latin alphabet in bytes. */
  function Ascii(text: string): seq<Byte>
    requires forall i :: 0 <= i < |text| ==> text[i] < 128 as char
  {
    seq(|text|, i requires 0 <= i < |text| => var b: Byte := text[i] as nat; b)
  }

  function Pow256(w: nat): (p: nat)
    ensures p > 0
  {
    if w == 0 then 1 else 256 * Pow256(w - 1)
  }

  /** The last w bytes of n: to_be_bytes after a truncating cast. */
  function BigEndian(n: nat, w: nat): (s: seq<Byte>)
    ensures |s| == w
  {
    if w == 0 then [] else BigEndian(n / 256, w - 1) + [n % 256]
  }

  function Value(s: seq<Byte>): nat {
    if s == [] then 0 else Value(s[..|s| - 1]) * 256 + s[|s| - 1]
  }

  /** The first byte counts most. */
  lemma ValueIs(s: seq<Byte>)
    ensures |s| == 1 ==> Value(s) == s[0]
    ensures |s| == 2 ==> Value(s) == s[0] as nat * 256 + s[1]
    ensures |s| == 4 ==> Value(s) == s[0] as nat * 0x100_0000 + s[1] as nat * 0x1_0000 + s[2] as nat * 0x100 + s[3]
    ensures |s| == 8 ==> Value(s) == Value(s[..4]) * 0x1_0000_0000 + Value(s[4..])
  {
    if |s| == 1 { ValueOfFront(s); }
    if |s| == 2 { ValueOfFront(s); ValueOfFront(s[..1]); }
    if |s| == 4 { ValueOfFour(s); }
    if |s| == 8 {
      ValueOfTwoParts(s, 4);
    }
  }

  lemma ValueOfFront(s: seq<Byte>)
    requires s != []
    ensures Value(s) == Value(s[..|s| - 1]) * 256 + s[|s| - 1] && Value([]) == 0
  {
  }

  lemma ValueOfFour(s: seq<Byte>)
    requires |s| == 4
    ensures Value(s) == s[0] as nat * 0x100_0000 + s[1] as nat * 0x1_0000 + s[2] as nat * 0x100 + s[3]
  {
    hide Value;
    ValueOfFront(s);
    ValueOfFront(s[..3]);
    assert s[..3][..2] == s[..2] && s[..2][..1] == s[..1] && s[..1][..0] == [];
    ValueOfFront(s[..2]);
    ValueOfFront(s[..1]);
  }

  lemma {:induction false} ValueOfTwoParts(s: seq<Byte>, k: nat)
    requires k <= |s|
    ensures Value(s) == Value(s[..k]) * Pow256(|s| - k) + Value(s[k..])
  {
    if k == |s| {
      assert s[..k] == s && s[k..] == [];
    } else {
      var front := s[..|s| - 1];
      ValueOfTwoParts(front, k);
      assert front[..k] == s[..k] && front[k..] == s[k..][..|s| - k - 1];
      assert Value(s[k..]) == Value(front[k..]) * 256 + s[|s| - 1];
      assert (Value(s[..k]) * Pow256(|s| - 1 - k)) * 256 == Value(s[..k]) * (256 * Pow256(|s| - 1 - k));
    }
  }

  lemma {:induction false} ValueBound(s: seq<Byte>)
    ensures Value(s) < Pow256(|s|)
  {
    if s != [] { ValueBound(s[..|s| - 1]); }
  }

  lemma {:induction false} ValueOfBigEndian(n: nat, w: nat)
    ensures Value(BigEndian(n, w)) == n % Pow256(w)
  {
    if w > 0 {
      var s := BigEndian(n, w);
      assert s[..w - 1] == BigEndian(n / 256, w - 1);
      ValueOfBigEndian(n / 256, w - 1);
      ModOfProduct(n, Pow256(w - 1));
    }
  }

  lemma ModOfProduct(n: nat, p: nat)
    requires p > 0
    ensures n % (256 * p) == ((n / 256) % p) * 256 + n % 256
  {
    var m := n / 256;
    var q, r := m / p, m % p;
    assert m == q * p + r;
    assert n == 256 * m + n % 256;
    var rest := r * 256 + n % 256;
    assert n == q * (256 * p) + rest by { assert 256 * (q * p) == q * (256 * p); }
    assert 0 <= rest < 256 * p;
    ModIs(n, 256 * p, q, rest);
  }

  lemma ModIs(n: nat, d: nat, q: nat, r: nat)
    requires d > 0 && n == q * d + r && r < d
    ensures n % d == r && n / d == q
  {
    SameQuotient(d, q, r, n / d, n % d);
  }

  lemma SameQuotient(d: nat, q: nat, r: nat, q': nat, r': nat)
    requires r < d && r' < d && q * d + r == q' * d + r'
    ensures q == q' && r == r'
  {
    if q > q' { Bigger(d, q, q'); } else if q' > q { Bigger(d, q', q); }
  }

  lemma Bigger(d: nat, q: nat, q': nat)
    requires q > q'
    ensures q * d >= q' * d + d
  {
    assert q * d == (q - q' - 1) * d + (q' + 1) * d;
  }

  lemma BigEndianFits(n: nat, w: nat)
    requires n < Pow256(w)
    ensures Value(BigEndian(n, w)) == n
  {
    ValueOfBigEndian(n, w);
    ModIs(n, Pow256(w), 0, n);
  }

  lemma BigEndianInjective(n: nat, m: nat, w: nat)
    requires n < Pow256(w) && m < Pow256(w) && BigEndian(n, w) == BigEndian(m, w)
    ensures n == m
  {
    BigEndianFits(n, w);
    BigEndianFits(m, w);
  }

  lemma {:induction false} BigEndianOfValue(s: seq<Byte>)
    ensures BigEndian(Value(s), |s|) == s
  {
    if s != [] {
      var front := s[..|s| - 1];
      BigEndianOfValue(front);
      ModIs(Value(s), 256, Value(front), s[|s| - 1]);
      assert s == front + [s[|s| - 1]];
    }
  }
}
