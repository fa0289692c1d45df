/**
 * Proof of work: the difficulty test on a hash, the committed bytes it is computed over, and the search. SHA-256 is
 * the parameter `sha`.
 */
module PowPolicy {
  import opened Wrappers
  import opened Bytes

  const MIN_DIFFICULTY := 8
  const MAX_DIFFICULTY := 32
  const MAX_SAFE_INTEGER := 0x1F_FFFF_FFFF_FFFF

  function Pow2(n: nat): (p: nat)
    ensures p > 0
  {
    if n == 0 then 1 else 2 * Pow2(n - 1)
  }

  /** hash[fullBytes] & mask, where the mask has the r highest bits. */
  predicate HighBitsSet(b: Byte, r: nat)
    requires 0 < r < 8
  {
    (b as bv8) & Mask(r) != 0
  }

  /** The test on whole bytes and a mask, as both implementations write it. */
  predicate MeetsDifficulty(hash: seq<Byte>, difficulty: int) {
    if difficulty <= 0 then true
    else if difficulty > |hash| * 8 then false
    else
      var fullBytes, remainBits := difficulty / 8, difficulty % 8;
      && (forall i :: 0 <= i < fullBytes ==> hash[i] == 0)
      && (remainBits > 0 ==> !HighBitsSet(hash[fullBytes], remainBits))
  }

  /** The hash as a number is below 2^(bits - difficulty). */
  predicate Below(hash: seq<Byte>, difficulty: int) {
    difficulty <= 0 || (difficulty <= 8 * |hash| && Value(hash) < Pow2(8 * |hash| - difficulty))
  }

  lemma MaskMeansBound(x: bv8)
    ensures x & 0x80 != 0 <==> x >= 0x80
    ensures x & 0xc0 != 0 <==> x >= 0x40
    ensures x & 0xe0 != 0 <==> x >= 0x20
    ensures x & 0xf0 != 0 <==> x >= 0x10
    ensures x & 0xf8 != 0 <==> x >= 0x08
    ensures x & 0xfc != 0 <==> x >= 0x04
    ensures x & 0xfe != 0 <==> x >= 0x02
  {
  }

  /** The mask with the r highest bits. */
  function Mask(r: nat): bv8
    requires 0 < r < 8
  {
    (0xff as bv8) << (8 - r)
  }

  lemma Masks()
    ensures Mask(1) == 0x80 && Mask(2) == 0xc0 && Mask(3) == 0xe0 && Mask(4) == 0xf0
    ensures Mask(5) == 0xf8 && Mask(6) == 0xfc && Mask(7) == 0xfe
  {
  }

  lemma BoundAsNumber(x: bv8)
    ensures (x >= 0x80 <==> x as int >= 0x80) && (x >= 0x40 <==> x as int >= 0x40)
    ensures (x >= 0x20 <==> x as int >= 0x20) && (x >= 0x10 <==> x as int >= 0x10)
    ensures (x >= 0x08 <==> x as int >= 0x08) && (x >= 0x04 <==> x as int >= 0x04)
    ensures (x >= 0x02 <==> x as int >= 0x02)
  {
  }

  lemma SmallPowers()
    ensures Pow2(1) == 2 && Pow2(2) == 4 && Pow2(3) == 8 && Pow2(4) == 16
    ensures Pow2(5) == 32 && Pow2(6) == 64 && Pow2(7) == 128
  {
  }

  lemma HighBitsOf(x: bv8, r: nat)
    requires 0 < r < 8
    ensures x & Mask(r) != 0 <==> x as int >= Pow2(8 - r)
  {
    hide Mask, Pow2;
    Masks();
    MaskMeansBound(x);
    BoundAsNumber(x);
    SmallPowers();
  }

  lemma HighBitsIff(b: Byte, r: nat)
    requires 0 < r < 8
    ensures HighBitsSet(b, r) <==> b >= Pow2(8 - r)
  {
    hide Mask, Pow2;
    HighBitsOf(b as bv8, r);
    assert (b as bv8) as int == b;
  }

  lemma {:induction false} Pow2Adds(a: nat, b: nat)
    ensures Pow2(a + b) == Pow2(a) * Pow2(b)
  {
    if a > 0 { Pow2Adds(a - 1, b); }
  }

  lemma {:induction false} Pow2OfBytes(w: nat)
    ensures Pow2(8 * w) == Pow256(w)
  {
    if w > 0 {
      Pow2OfBytes(w - 1);
      Pow2Adds(8, 8 * (w - 1));
      assert Pow2(8) == 256;
    }
  }

  lemma {:induction false} ValueFromHead(b: Byte, t: seq<Byte>)
    ensures Value([b] + t) == b * Pow256(|t|) + Value(t)
  {
    if t == [] {
      assert ([b] + t)[..0] == [];
    } else {
      var front := t[..|t| - 1];
      assert ([b] + t)[..|t|] == [b] + front;
      ValueFromHead(b, front);
    }
  }

  lemma HeadDecides(b: nat, v: nat, q: nat, p: nat)
    requires v < p
    ensures b * p + v < q * p <==> b < q
  {
    if b < q { Bigger(p, q, b); } else if b > q { Bigger(p, b, q); }
  }

  /** A smaller bound than the weight of the first byte leaves only zero for it. */
  lemma HeadIsZero(b: nat, v: nat, bound: nat, p: nat)
    requires bound <= p
    ensures b * p + v < bound <==> b == 0 && v < bound
  {
    if b > 0 { assert b * p == (b - 1) * p + p; }
  }

  lemma {:induction false} Pow2Grows(a: nat, b: nat)
    requires a <= b
    ensures Pow2(a) <= Pow2(b)
  {
    if a < b { Pow2Grows(a, b - 1); }
  }

  /** The byte-and-mask test is the comparison of the hash, as a number, with a power of two. */
  lemma {:induction false} MeetsIffBelow(hash: seq<Byte>, difficulty: int)
    ensures MeetsDifficulty(hash, difficulty) <==> Below(hash, difficulty)
    decreases |hash|
  {
    hide HighBitsSet, Value, Pow2, Pow256;
    if 0 < difficulty <= 8 * |hash| {
      var b, t := hash[0], hash[1..];
      assert hash == [b] + t;
      ValueFromHead(b, t);
      ValueBound(t);
      Pow2OfBytes(|t|);
      if difficulty < 8 {
        HighBitsIff(b, difficulty);
        Pow2Adds(8 - difficulty, 8 * |t|);
        HeadDecides(b, Value(t), Pow2(8 - difficulty), Pow256(|t|));
      } else {
        MeetsFromHead(b, t, difficulty);
        MeetsIffBelow(t, difficulty - 8);
        Pow2Grows(8 * |hash| - difficulty, 8 * |t|);
        HeadIsZero(b, Value(t), Pow2(8 * |hash| - difficulty), Pow256(|t|));
        assert 8 * |t| - (difficulty - 8) == 8 * |hash| - difficulty;
      }
    }
  }

  lemma MeetsFromHead(b: Byte, t: seq<Byte>, difficulty: int)
    requires 8 <= difficulty <= 8 * |[b] + t|
    ensures MeetsDifficulty([b] + t, difficulty) <==> b == 0 && MeetsDifficulty(t, difficulty - 8)
  {
    hide HighBitsSet;
    var hash, full := [b] + t, difficulty / 8;
    assert (difficulty - 8) / 8 == full - 1 && (difficulty - 8) % 8 == difficulty % 8;
    assert forall i :: 0 <= i < full - 1 ==> hash[i + 1] == t[i];
    assert difficulty % 8 > 0 ==> hash[full] == t[full - 1];
    if MeetsDifficulty(hash, difficulty) {
      forall i | 0 <= i < full - 1 ensures t[i] == 0 { assert hash[i + 1] == 0; }
      assert hash[0] == 0;
    }
    if b == 0 && MeetsDifficulty(t, difficulty - 8) {
      forall i | 0 <= i < full ensures hash[i] == 0 { if i > 0 { assert hash[i] == t[i - 1]; } }
      assert difficulty > 8 && difficulty % 8 > 0 ==> !HighBitsSet(t[full - 1], difficulty % 8);
      assert MeetsDifficulty(hash, difficulty);
    }
  }

  /** A hash that meets a difficulty meets every lower one. */
  lemma DifficultyIsMonotone(hash: seq<Byte>, difficulty: int, lower: int)
    requires MeetsDifficulty(hash, difficulty) && lower <= difficulty
    ensures MeetsDifficulty(hash, lower)
  {
    hide MeetsDifficulty, Value;
    MeetsIffBelow(hash, difficulty);
    MeetsIffBelow(hash, lower);
    if 0 < lower { Pow2Grows(8 * |hash| - difficulty, 8 * |hash| - lower); }
  }

  /** The loop form of the test. */
  method TestDifficulty(hash: seq<Byte>, difficulty: int) returns (ok: bool)
    ensures ok <==> Below(hash, difficulty)
  {
    hide HighBitsSet, Below;
    MeetsIffBelow(hash, difficulty);
    if difficulty <= 0 { return true; }
    if difficulty > |hash| * 8 { return false; }
    var fullBytes := difficulty / 8;
    for i := 0 to fullBytes
      invariant forall k :: 0 <= k < i ==> hash[k] == 0
    {
      if hash[i] != 0 { return false; }
    }
    var remainBits := difficulty % 8;
    if remainBits > 0 && HighBitsSet(hash[fullBytes], remainBits) { return false; }
    return true;
  }

  /** What a packet commits to, as the unsigned integers and byte strings of the header. */
  datatype Header = Header(timestamp: nat, zoneId: nat, powDifficulty: nat, nonce: seq<Byte>, payload: seq<Byte>)

  /** "AETHER/v3/gossip" */
  function GossipDomain(): seq<Byte> {
    [0x41, 0x45, 0x54, 0x48, 0x45, 0x52, 0x2f, 0x76, 0x33, 0x2f, 0x67, 0x6f, 0x73, 0x73, 0x69, 0x70]
  }

  function Committed(h: Header): seq<Byte> {
    GossipDomain() + BigEndian(h.timestamp, 8) + BigEndian(h.zoneId, 4) + BigEndian(h.powDifficulty, 1)
    + BigEndian(|h.nonce|, 2) + h.nonce + BigEndian(|h.payload|, 4) + h.payload
  }

  /** The cache node's range checks; the integers are u64 and u32 by type. */
  predicate RustAccepts(h: Header) {
    h.powDifficulty <= 0xFF && |h.nonce| <= 0xFFFF && |h.payload| <= 0xFFFF_FFFF
  }

  predicate FitsTypes(h: Header) {
    h.timestamp < Pow256(8) && h.zoneId < Pow256(4) && h.powDifficulty < Pow256(4)
  }

  /** The browser's range checks, on numbers. */
  predicate BrowserAccepts(h: Header) {
    && h.timestamp <= MAX_SAFE_INTEGER && h.zoneId <= 0xFFFF_FFFF && h.powDifficulty <= 0xFF
    && |h.nonce| <= 0xFFFF && |h.payload| <= 0xFFFF_FFFF
  }

  /** PowCommittedHeader::preimage, pushing field by field. */
  method RustPreimage(h: Header) returns (preimage: Option<seq<Byte>>)
    requires FitsTypes(h)
    ensures preimage == if RustAccepts(h) then Some(Committed(h)) else None
  {
    if h.powDifficulty > 0xFF { return None; }
    if |h.nonce| > 0xFFFF { return None; }
    if |h.payload| > 0xFFFF_FFFF { return None; }
    var buf := GossipDomain();
    buf := buf + BigEndian(h.timestamp, 8);
    buf := buf + BigEndian(h.zoneId, 4);
    buf := buf + [h.powDifficulty];
    buf := buf + BigEndian(|h.nonce|, 2);
    buf := buf + h.nonce;
    buf := buf + BigEndian(|h.payload|, 4);
    buf := buf + h.payload;
    assert BigEndian(h.powDifficulty, 1) == [h.powDifficulty];
    return Some(buf);
  }

  function Flat(parts: seq<seq<Byte>>): seq<Byte> {
    if parts == [] then [] else Flat(parts[..|parts| - 1]) + parts[|parts| - 1]
  }

  function TotalLength(parts: seq<seq<Byte>>): nat {
    if parts == [] then 0 else TotalLength(parts[..|parts| - 1]) + |parts[|parts| - 1]|
  }

  lemma {:induction false} FlatPrefixFits(parts: seq<seq<Byte>>, i: nat)
    requires i <= |parts|
    ensures TotalLength(parts[..i]) <= TotalLength(parts)
    decreases |parts| - i
  {
    if i < |parts| {
      assert parts[..i + 1][..i] == parts[..i];
      FlatPrefixFits(parts, i + 1);
    } else {
      assert parts[..i] == parts;
    }
  }

  /** concat(parts): one buffer of the total length, filled part by part. */
  method Concat(parts: seq<seq<Byte>>) returns (out: array<Byte>)
    ensures out[..] == Flat(parts) && fresh(out)
  {
    var total := 0;
    for i := 0 to |parts|
      invariant total == TotalLength(parts[..i])
    {
      assert parts[..i + 1][..i] == parts[..i];
      total := total + |parts[i]|;
    }
    assert parts[..|parts|] == parts;
    out := new Byte[total](_ => 0);
    var offset := 0;
    for i := 0 to |parts|
      invariant offset == TotalLength(parts[..i]) == |Flat(parts[..i])| <= out.Length
      invariant out[..offset] == Flat(parts[..i])
    {
      var part := parts[i];
      assert parts[..i + 1][..i] == parts[..i];
      FlatPrefixFits(parts, i + 1);
      for k := 0 to |part|
        invariant out[..offset + k] == Flat(parts[..i]) + part[..k]
      {
        out[offset + k] := part[k];
        assert part[..k + 1] == part[..k] + [part[k]];
      }
      assert part[..|part|] == part;
      offset := offset + |part|;
    }
    assert out[..offset] == out[..];
  }

  /** powPreimage: the same bytes, from the browser's side. */
  method BrowserPreimage(h: Header) returns (preimage: Option<seq<Byte>>)
    ensures preimage == if BrowserAccepts(h) then Some(Committed(h)) else None
  {
    if h.timestamp > MAX_SAFE_INTEGER { return None; }
    if h.zoneId > 0xFFFF_FFFF { return None; }
    if h.powDifficulty > 255 { return None; }
    if |h.nonce| > 0xFFFF { return None; }
    if |h.payload| > 0xFFFF_FFFF { return None; }
    hide BigEndian;
    var parts := [GossipDomain(), BigEndian(h.timestamp, 8), BigEndian(h.zoneId, 4), BigEndian(h.powDifficulty, 1),
      BigEndian(|h.nonce|, 2), h.nonce, BigEndian(|h.payload|, 4), h.payload];
    var out := Concat(parts);
    FlatOfEight(parts);
    return Some(out[..]);
  }

  lemma FlatOfEight(p: seq<seq<Byte>>)
    requires |p| == 8
    ensures Flat(p) == p[0] + p[1] + p[2] + p[3] + p[4] + p[5] + p[6] + p[7]
  {
    assert p[..7][..6] == p[..6] && p[..6][..5] == p[..5] && p[..5][..4] == p[..4] && p[..4][..3] == p[..3];
    assert p[..3][..2] == p[..2] && p[..2][..1] == p[..1] && p[..1][..0] == [];
    assert Flat(p[..1]) == p[0];
    assert Flat(p[..2]) == p[0] + p[1];
    assert Flat(p[..4]) == p[0] + p[1] + p[2] + p[3];
    assert Flat(p[..6]) == p[0] + p[1] + p[2] + p[3] + p[4] + p[5];
  }

  /**
   * The same header at either side: the bytes agree whenever the browser makes any, and it makes none for a header that
   * the cache node takes exactly if the timestamp is beyond what a JavaScript number can count.
   */
  method BothPreimages(h: Header) returns (rust: Option<seq<Byte>>, browser: Option<seq<Byte>>)
    requires FitsTypes(h)
    ensures browser.Some? ==> rust == browser
    ensures rust != browser <==> rust.Some? && h.timestamp > MAX_SAFE_INTEGER
    ensures rust.Some? ==> |rust.value| == 35 + |h.nonce| + |h.payload|
  {
    hide BigEndian;
    assert Pow256(4) == 0x1_0000_0000;
    rust := RustPreimage(h);
    browser := BrowserPreimage(h);
  }

  predicate VerifyPow(sha: seq<Byte> -> seq<Byte>, h: Header, powNonce: nat) {
    && MIN_DIFFICULTY <= h.powDifficulty <= MAX_DIFFICULTY && RustAccepts(h)
    && MeetsDifficulty(sha(Committed(h) + BigEndian(powNonce, 8)), h.powDifficulty)
  }

  /** A proof of work holds if the difficulty is from 8 to 32, the fields fit, and the hash is a number small enough. */
  lemma VerifiesIff(sha: seq<Byte> -> seq<Byte>, h: Header, powNonce: nat)
    requires |sha(Committed(h) + BigEndian(powNonce, 8))| == 32
    ensures VerifyPow(sha, h, powNonce) <==> (
      && 8 <= h.powDifficulty <= 32 && |h.nonce| <= 0xFFFF && |h.payload| <= 0xFFFF_FFFF
      && Value(sha(Committed(h) + BigEndian(powNonce, 8))) < Pow2(256 - h.powDifficulty))
  {
    hide Committed, BigEndian, MeetsDifficulty, Value, Pow2;
    MeetsIffBelow(sha(Committed(h) + BigEndian(powNonce, 8)), h.powDifficulty);
  }

  /** The search tries the nonces in turn: what it finds is the least that verifies. */
  method SolvePow(sha: seq<Byte> -> seq<Byte>, h: Header, maxIterations: nat) returns (found: Option<nat>)
    ensures RustAccepts(h) && 8 <= h.powDifficulty <= 32 ==>
      match found
      case Some(n) => n < maxIterations && VerifyPow(sha, h, n) && forall m: nat :: m < n ==> !VerifyPow(sha, h, m)
      case None => forall m: nat :: m < maxIterations ==> !VerifyPow(sha, h, m)
    ensures !RustAccepts(h) ==> found == None
  {
    hide Committed, BigEndian, MeetsDifficulty;
    if !RustAccepts(h) { return None; }
    var preimage := Committed(h);
    for n := 0 to maxIterations
      invariant forall m: nat :: m < n ==> !MeetsDifficulty(sha(preimage + BigEndian(m, 8)), h.powDifficulty)
    {
      if MeetsDifficulty(sha(preimage + BigEndian(n, 8)), h.powDifficulty) { return Some(n); }
    }
    return None;
  }
}
