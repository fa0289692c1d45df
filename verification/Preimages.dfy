/**
 * What nodes hash and sign: gossip packets, hints, joins between peers and joins at a tracker. Text fields are the
 * bytes of their UTF-8 encoding.
 */
module Preimages {
  import opened Wrappers
  import opened Bytes
  import opened PowPolicy

  const CHALLENGE_BYTES := 32
  const BLIND_TAG_SIZE := 4
  const HINT_NONCE_SIZE := 12

  /** "AETHER/v3/hint__" */
  function HintDomain(): seq<Byte> {
    [0x41, 0x45, 0x54, 0x48, 0x45, 0x52, 0x2f, 0x76, 0x33, 0x2f, 0x68, 0x69, 0x6e, 0x74, 0x5f, 0x5f]
  }

  /** "AETHER/v4/join" */
  function JoinDomain(): seq<Byte> {
    [0x41, 0x45, 0x54, 0x48, 0x45, 0x52, 0x2f, 0x76, 0x34, 0x2f, 0x6a, 0x6f, 0x69, 0x6e]
  }

  /** "AETHER/v1/tracker-join" */
  function TrackerJoinDomain(): seq<Byte> {
    [0x41, 0x45, 0x54, 0x48, 0x45, 0x52, 0x2f, 0x76, 0x31, 0x2f,
     0x74, 0x72, 0x61, 0x63, 0x6b, 0x65, 0x72, 0x2d, 0x6a, 0x6f, 0x69, 0x6e]
  }

  /**
   * A message that is hashed or signed, with everything it commits to. A proof of work hashes a packet's or a hint's
   * bytes followed by the nonce of the search; their ids hash the bytes alone.
   */
  datatype Message =
    | Packet(header: Header, powNonce: Option<nat>)
    | Hint(version: Byte, blindTag: seq<Byte>, nonce: seq<Byte>, ciphertext: seq<Byte>, powNonce: Option<nat>)
    | PeerJoin(challenge: seq<Byte>, verifierId: seq<Byte>, signerId: seq<Byte>, signerPrint: seq<Byte>, verifierPrint: seq<Byte>)
    | TrackerJoin(challenge: seq<Byte>, peerId: seq<Byte>, host: seq<Byte>)

  function Prefixed(s: seq<Byte>, w: nat): seq<Byte> {
    BigEndian(|s|, w) + s
  }

  function Suffix(powNonce: Option<nat>): seq<Byte> {
    if powNonce.Some? then BigEndian(powNonce.value, 8) else []
  }

  function PacketStart(h: Header): seq<Byte> {
    GossipDomain() + BigEndian(h.timestamp, 8) + BigEndian(h.zoneId, 4) + BigEndian(h.powDifficulty, 1)
  }

  /** The bytes that are hashed or signed. */
  function Encode(m: Message): seq<Byte> {
    match m
    case Packet(h, n) => PacketStart(h) + (Prefixed(h.nonce, 2) + (Prefixed(h.payload, 4) + Suffix(n)))
    case Hint(version, tag, nonce, ciphertext, n) =>
      (HintDomain() + [version] + tag + nonce) + (Prefixed(ciphertext, 4) + Suffix(n))
    case PeerJoin(challenge, verifier, signer, signerPrint, verifierPrint) =>
      (JoinDomain() + challenge)
      + (Prefixed(verifier, 2) + (Prefixed(signer, 2) + (Prefixed(signerPrint, 2) + (Prefixed(verifierPrint, 2) + []))))
    case TrackerJoin(challenge, peerId, host) =>
      (TrackerJoinDomain() + challenge) + (Prefixed(peerId, 2) + (Prefixed(host, 2) + []))
  }

  function FitsNonce(powNonce: Option<nat>): bool {
    powNonce.Some? ==> powNonce.value < Pow256(8)
  }

  /** The senders' range and length checks. */
  predicate Accepts(m: Message) {
    match m
    case Packet(h, n) => FitsTypes(h) && RustAccepts(h) && FitsNonce(n)
    case Hint(_, tag, nonce, ciphertext, n) =>
      |tag| == BLIND_TAG_SIZE && |nonce| == HINT_NONCE_SIZE && |ciphertext| <= 0xFFFF_FFFF && FitsNonce(n)
    case PeerJoin(_, verifier, signer, signerPrint, verifierPrint) =>
      |verifier| <= 0xFFFF && |signer| <= 0xFFFF && |signerPrint| <= 0xFFFF && |verifierPrint| <= 0xFFFF
    case TrackerJoin(challenge, peerId, host) =>
      |challenge| == CHALLENGE_BYTES && |peerId| <= 0xFFFF && |host| <= 0xFFFF
  }

  /** Packets are encoded as both implementations encode them. */
  lemma PacketIsCommitted(h: Header, powNonce: Option<nat>)
    ensures Encode(Packet(h, powNonce)) == Committed(h) + Suffix(powNonce)
  {
    hide BigEndian;
    var a, b, c, d := PacketStart(h), Prefixed(h.nonce, 2), Prefixed(h.payload, 4), Suffix(powNonce);
    assert a + (b + (c + d)) == a + b + c + d;
    assert a + b + c == Committed(h);
  }

  lemma SplitEqually(a: seq<Byte>, x: seq<Byte>, b: seq<Byte>, y: seq<Byte>)
    requires |a| == |b| && a + x == b + y
    ensures a == b && x == y
  {
    assert a == (a + x)[..|a|] && b == (b + y)[..|b|];
    assert x == (a + x)[|a|..] && y == (b + y)[|b|..];
  }

  /** A length in front tells where the field ends. */
  lemma SplitPrefixed(a: seq<Byte>, x: seq<Byte>, b: seq<Byte>, y: seq<Byte>, w: nat)
    requires |a| < Pow256(w) && |b| < Pow256(w) && Prefixed(a, w) + x == Prefixed(b, w) + y
    ensures a == b && x == y
  {
    hide BigEndian, Pow256;
    assert Prefixed(a, w) + x == BigEndian(|a|, w) + (a + x);
    assert Prefixed(b, w) + y == BigEndian(|b|, w) + (b + y);
    SplitEqually(BigEndian(|a|, w), a + x, BigEndian(|b|, w), b + y);
    BigEndianInjective(|a|, |b|, w);
    SplitEqually(a, x, b, y);
  }

  lemma SuffixTells(n: Option<nat>, m: Option<nat>)
    requires FitsNonce(n) && FitsNonce(m) && Suffix(n) == Suffix(m)
    ensures n == m
  {
    hide BigEndian, Pow256;
    if n.Some? && m.Some? { BigEndianInjective(n.value, m.value, 8); }
  }

  lemma StartTells(h: Header, g: Header)
    requires FitsTypes(h) && FitsTypes(g) && h.powDifficulty <= 0xFF && g.powDifficulty <= 0xFF
    requires PacketStart(h) == PacketStart(g)
    ensures h.timestamp == g.timestamp && h.zoneId == g.zoneId && h.powDifficulty == g.powDifficulty
  {
    hide BigEndian, Pow256;
    var hs, gs := PacketStart(h), PacketStart(g);
    assert hs[16..24] == BigEndian(h.timestamp, 8) && gs[16..24] == BigEndian(g.timestamp, 8);
    assert hs[24..28] == BigEndian(h.zoneId, 4) && gs[24..28] == BigEndian(g.zoneId, 4);
    assert hs[28..29] == BigEndian(h.powDifficulty, 1) && gs[28..29] == BigEndian(g.powDifficulty, 1);
    BigEndianInjective(h.timestamp, g.timestamp, 8);
    BigEndianInjective(h.zoneId, g.zoneId, 4);
    SmallWidths();
    BigEndianInjective(h.powDifficulty, g.powDifficulty, 1);
  }

  lemma SmallWidths()
    ensures Pow256(1) == 0x100 && Pow256(2) == 0x1_0000 && Pow256(4) == 0x1_0000_0000
  {
  }

  /** At this place there are w bytes with the length of the field, and then the field. */
  ghost predicate FieldAt(s: seq<Byte>, at: nat, w: nat, field: seq<Byte>) {
    at + w + |field| <= |s| && Value(s[at..at + w]) == |field| && s[at + w..at + w + |field|] == field
  }

  /** At the end there are eight bytes with the nonce of a proof of work, or nothing. */
  ghost predicate NonceAtEnd(s: seq<Byte>, at: nat, powNonce: Option<nat>) {
    match powNonce
    case None => |s| == at
    case Some(n) => |s| == at + 8 && Value(s[at..]) == n
  }

  lemma FieldIsAt(front: seq<Byte>, field: seq<Byte>, w: nat, rest: seq<Byte>)
    requires |field| < Pow256(w)
    ensures FieldAt(front + (Prefixed(field, w) + rest), |front|, w, field)
    ensures front + (Prefixed(field, w) + rest) == (front + Prefixed(field, w)) + rest
    ensures |front + Prefixed(field, w)| == |front| + w + |field|
  {
    hide BigEndian, Pow256, Value;
    var s := front + (Prefixed(field, w) + rest);
    BigEndianFits(|field|, w);
    assert s[|front|..|front| + w] == BigEndian(|field|, w);
  }

  lemma NonceIsAtEnd(front: seq<Byte>, powNonce: Option<nat>)
    requires FitsNonce(powNonce)
    ensures NonceAtEnd(front + Suffix(powNonce), |front|, powNonce)
  {
    hide BigEndian, Pow256, Value;
    if powNonce.Some? { BigEndianFits(powNonce.value, 8); }
  }

  /** Where the fields of a packet lie in its bytes. */
  lemma PacketLayout(h: Header, powNonce: Option<nat>)
    requires Accepts(Packet(h, powNonce))
    ensures var s, n, p := Encode(Packet(h, powNonce)), |h.nonce|, |h.payload|;
      && |s| >= 35 + n + p && s[..16] == Ascii("AETHER/v3/gossip")
      && Value(s[16..24]) == h.timestamp && Value(s[24..28]) == h.zoneId && s[28] == h.powDifficulty
      && FieldAt(s, 29, 2, h.nonce) && FieldAt(s, 31 + n, 4, h.payload) && NonceAtEnd(s, 35 + n + p, powNonce)
  {
    hide BigEndian, Pow256, FitsNonce, Prefixed, Suffix, FieldAt, NonceAtEnd, Value;
    var a, b, c, d := PacketStart(h), Prefixed(h.nonce, 2), Prefixed(h.payload, 4), Suffix(powNonce);
    SmallWidths();
    StartLayout(h);
    FieldIsAt(a, h.nonce, 2, c + d);
    FieldIsAt(a + b, h.payload, 4, d);
    NonceIsAtEnd(a + b + c, powNonce);
    var s := a + (b + (c + d));
    assert s == a + b + c + d;
    assert s[..16] == a[..16] && s[16..24] == a[16..24] && s[24..28] == a[24..28] && s[28] == a[28];
  }

  lemma StartLayout(h: Header)
    requires FitsTypes(h) && h.powDifficulty <= 0xFF
    ensures var a := PacketStart(h);
      && |a| == 29 && a[..16] == Ascii("AETHER/v3/gossip")
      && Value(a[16..24]) == h.timestamp && Value(a[24..28]) == h.zoneId && a[28] == h.powDifficulty
  {
    hide BigEndian, Pow256, Value;
    var a := PacketStart(h);
    SmallWidths();
    assert a[16..24] == BigEndian(h.timestamp, 8) && a[24..28] == BigEndian(h.zoneId, 4) && a[28..] == BigEndian(h.powDifficulty, 1);
    BigEndianFits(h.timestamp, 8);
    BigEndianFits(h.zoneId, 4);
    BigEndianFits(h.powDifficulty, 1);
    ValueIs(a[28..]);
    GossipDomainIs();
    assert a[..16] == GossipDomain();
  }

  lemma GossipDomainIs()
    ensures GossipDomain() == Ascii("AETHER/v3/gossip")
  {
  }

  /** Where those of a hint lie. */
  lemma HintLayout(m: Message)
    requires m.Hint? && Accepts(m)
    ensures var s := Encode(m);
      && |s| >= 37 + |m.ciphertext| && s[..16] == Ascii("AETHER/v3/hint__")
      && s[16] == m.version && s[17..21] == m.blindTag && s[21..33] == m.nonce
      && FieldAt(s, 33, 4, m.ciphertext) && NonceAtEnd(s, 37 + |m.ciphertext|, m.powNonce)
  {
    hide BigEndian, Pow256, FitsNonce, Prefixed, Suffix, FieldAt, NonceAtEnd, Value, HintDomain;
    var a, c, d := HintDomain() + [m.version] + m.blindTag + m.nonce, Prefixed(m.ciphertext, 4), Suffix(m.powNonce);
    SmallWidths();
    HintDomainIs();
    assert |a| == 33 && a[..16] == HintDomain() && a[17..21] == m.blindTag && a[21..33] == m.nonce;
    FieldIsAt(a, m.ciphertext, 4, d);
    NonceIsAtEnd(a + c, m.powNonce);
    var s := a + (c + d);
    assert s == a + c + d;
    assert s[..16] == a[..16] && s[16] == a[16] && s[17..21] == a[17..21] && s[21..33] == a[21..33];
  }

  lemma HintDomainIs()
    ensures HintDomain() == Ascii("AETHER/v3/hint__") && |HintDomain()| == 16
  {
  }

  /** Where those of the two kinds of joins lie. */
  lemma PeerJoinLayout(m: Message)
    requires m.PeerJoin? && Accepts(m)
    ensures var s, c := Encode(m), 14 + |m.challenge|;
      var v := c + 2 + |m.verifierId|;
      var g := v + 2 + |m.signerId|;
      var p := g + 2 + |m.signerPrint|;
      && |s| == p + 2 + |m.verifierPrint| && s[..14] == Ascii("AETHER/v4/join") && s[14..c] == m.challenge
      && FieldAt(s, c, 2, m.verifierId) && FieldAt(s, v, 2, m.signerId)
      && FieldAt(s, g, 2, m.signerPrint) && FieldAt(s, p, 2, m.verifierPrint)
  {
    hide Pow256, Prefixed, FieldAt, JoinDomain;
    SmallWidths();
    JoinDomainsAre();
    var a := JoinDomain() + m.challenge;
    var v, g, p, e := Prefixed(m.verifierId, 2), Prefixed(m.signerId, 2), Prefixed(m.signerPrint, 2), Prefixed(m.verifierPrint, 2);
    FieldIsAt(a, m.verifierId, 2, g + (p + (e + [])));
    FieldIsAt(a + v, m.signerId, 2, p + (e + []));
    FieldIsAt(a + v + g, m.signerPrint, 2, e + []);
    FieldIsAt(a + v + g + p, m.verifierPrint, 2, []);
    var s := a + (v + (g + (p + (e + []))));
    assert s[..14] == JoinDomain() && s[14..14 + |m.challenge|] == m.challenge;
  }

  lemma TrackerJoinLayout(m: Message)
    requires m.TrackerJoin? && Accepts(m)
    ensures var s, h := Encode(m), 56 + |m.peerId|;
      && |s| == h + 2 + |m.host| && s[..22] == Ascii("AETHER/v1/tracker-join") && s[22..54] == m.challenge
      && FieldAt(s, 54, 2, m.peerId) && FieldAt(s, h, 2, m.host)
  {
    hide Pow256, Prefixed, FieldAt, TrackerJoinDomain;
    SmallWidths();
    JoinDomainsAre();
    var a, p, e := TrackerJoinDomain() + m.challenge, Prefixed(m.peerId, 2), Prefixed(m.host, 2);
    FieldIsAt(a, m.peerId, 2, e + []);
    FieldIsAt(a + p, m.host, 2, []);
    var s := a + (p + (e + []));
    assert s[..22] == TrackerJoinDomain() && s[22..54] == m.challenge;
  }

  lemma JoinDomainsAre()
    ensures JoinDomain() == Ascii("AETHER/v4/join") && |JoinDomain()| == 14
    ensures TrackerJoinDomain() == Ascii("AETHER/v1/tracker-join") && |TrackerJoinDomain()| == 22
  {
  }

  /** What kind of message it is shows in the ninth and eleventh byte. */
  lemma KindShows(m: Message)
    ensures |Encode(m)| > 10
    ensures m.Packet? ==> Encode(m)[8] == 0x33 && Encode(m)[10] == 0x67
    ensures m.Hint? ==> Encode(m)[8] == 0x33 && Encode(m)[10] == 0x68
    ensures m.PeerJoin? ==> Encode(m)[8] == 0x34
    ensures m.TrackerJoin? ==> Encode(m)[8] == 0x31
  {
    hide BigEndian;
  }

  lemma PacketsTell(m: Message, k: Message)
    requires m.Packet? && k.Packet? && Accepts(m) && Accepts(k) && Encode(m) == Encode(k)
    ensures m == k
  {
    hide BigEndian, Pow256, PacketStart, FitsNonce;
    var h, g := m.header, k.header;
    SmallWidths();
    SameStartLength(h, g);
    SplitEqually(PacketStart(h), Prefixed(h.nonce, 2) + (Prefixed(h.payload, 4) + Suffix(m.powNonce)),
                 PacketStart(g), Prefixed(g.nonce, 2) + (Prefixed(g.payload, 4) + Suffix(k.powNonce)));
    StartTells(h, g);
    SplitPrefixed(h.nonce, Prefixed(h.payload, 4) + Suffix(m.powNonce),
                  g.nonce, Prefixed(g.payload, 4) + Suffix(k.powNonce), 2);
    SplitPrefixed(h.payload, Suffix(m.powNonce), g.payload, Suffix(k.powNonce), 4);
    SuffixTells(m.powNonce, k.powNonce);
  }

  lemma SameStartLength(h: Header, g: Header)
    ensures |PacketStart(h)| == |PacketStart(g)|
  {
  }

  lemma HintsTell(m: Message, k: Message)
    requires m.Hint? && k.Hint? && Accepts(m) && Accepts(k) && Encode(m) == Encode(k)
    ensures m == k
  {
    hide BigEndian, Pow256, FitsNonce;
    SmallWidths();
    var a, b := HintDomain() + [m.version] + m.blindTag + m.nonce, HintDomain() + [k.version] + k.blindTag + k.nonce;
    SplitEqually(a, Prefixed(m.ciphertext, 4) + Suffix(m.powNonce), b, Prefixed(k.ciphertext, 4) + Suffix(k.powNonce));
    assert a[16] == m.version && b[16] == k.version;
    assert a[17..21] == m.blindTag && b[17..21] == k.blindTag && a[21..] == m.nonce && b[21..] == k.nonce;
    SplitPrefixed(m.ciphertext, Suffix(m.powNonce), k.ciphertext, Suffix(k.powNonce), 4);
    SuffixTells(m.powNonce, k.powNonce);
  }

  lemma PeerJoinsTell(m: Message, k: Message)
    requires m.PeerJoin? && k.PeerJoin? && |m.challenge| == |k.challenge| && Accepts(m) && Accepts(k) && Encode(m) == Encode(k)
    ensures m == k
  {
    hide Prefixed, Pow256;
    SmallWidths();
    var m4, k4 := Prefixed(m.verifierPrint, 2) + [], Prefixed(k.verifierPrint, 2) + [];
    var m3, k3 := Prefixed(m.signerPrint, 2) + m4, Prefixed(k.signerPrint, 2) + k4;
    var m2, k2 := Prefixed(m.signerId, 2) + m3, Prefixed(k.signerId, 2) + k3;
    SplitEqually(JoinDomain() + m.challenge, Prefixed(m.verifierId, 2) + m2,
                 JoinDomain() + k.challenge, Prefixed(k.verifierId, 2) + k2);
    SplitEqually(JoinDomain(), m.challenge, JoinDomain(), k.challenge);
    SplitPrefixed(m.verifierId, m2, k.verifierId, k2, 2);
    SplitPrefixed(m.signerId, m3, k.signerId, k3, 2);
    SplitPrefixed(m.signerPrint, m4, k.signerPrint, k4, 2);
    SplitPrefixed(m.verifierPrint, [], k.verifierPrint, [], 2);
  }

  lemma TrackerJoinsTell(m: Message, k: Message)
    requires m.TrackerJoin? && k.TrackerJoin? && Accepts(m) && Accepts(k) && Encode(m) == Encode(k)
    ensures m == k
  {
    hide Prefixed, Pow256;
    SmallWidths();
    var m2, k2 := Prefixed(m.host, 2) + [], Prefixed(k.host, 2) + [];
    SplitEqually(TrackerJoinDomain() + m.challenge, Prefixed(m.peerId, 2) + m2,
                 TrackerJoinDomain() + k.challenge, Prefixed(k.peerId, 2) + k2);
    SplitEqually(TrackerJoinDomain(), m.challenge, TrackerJoinDomain(), k.challenge);
    SplitPrefixed(m.peerId, m2, k.peerId, k2, 2);
    SplitPrefixed(m.host, [], k.host, [], 2);
  }

  /**
   * Two messages with the same bytes are the same message: same kind, same fields, same proof of work. What is hashed
   * or signed for one purpose can never be read as anything else. Join challenges have one length, 32 bytes, on the
   * side that checks.
   */
  lemma BytesTellTheMessage(m: Message, k: Message)
    requires m.PeerJoin? && k.PeerJoin? ==> |m.challenge| == |k.challenge|
    requires Accepts(m) && Accepts(k) && Encode(m) == Encode(k)
    ensures m == k
  {
    hide Encode, Accepts;
    KindShows(m);
    KindShows(k);
    match m {
      case Packet(_, _) => PacketsTell(m, k);
      case Hint(_, _, _, _, _) => HintsTell(m, k);
      case PeerJoin(_, _, _, _, _) => PeerJoinsTell(m, k);
      case TrackerJoin(_, _, _) => TrackerJoinsTell(m, k);
    }
  }

  /** A hint on the wire; ttl changes with every hop. */
  datatype HintView = HintView(
    version: Byte, blindTag: seq<Byte>, nonce: seq<Byte>, powNonce: nat, ciphertext: seq<Byte>, ttl: nat)

  /** HintView::preimage. */
  method HintPreimage(v: HintView) returns (preimage: Option<seq<Byte>>)
    ensures preimage ==
      if Accepts(Stripped(v)) then Some(Encode(Stripped(v))) else None
  {
    hide BigEndian;
    if |v.blindTag| != BLIND_TAG_SIZE { return None; }
    if |v.nonce| != HINT_NONCE_SIZE { return None; }
    if |v.ciphertext| > 0xFFFF_FFFF { return None; }
    var out := HintDomain();
    out := out + [v.version];
    out := out + v.blindTag;
    out := out + v.nonce;
    out := out + BigEndian(|v.ciphertext|, 4);
    out := out + v.ciphertext;
    assert out == HintDomain() + [v.version] + v.blindTag + v.nonce + (Prefixed(v.ciphertext, 4) + []);
    return Some(out);
  }

  /** What the id of a hint commits to. */
  function Stripped(v: HintView): Message {
    Hint(v.version, v.blindTag, v.nonce, v.ciphertext, None)
  }

  /** Hints have the same preimage, hence the same id, exactly if they differ at most in ttl and proof of work. */
  lemma HintIsSameIff(v: HintView, w: HintView)
    requires Accepts(Stripped(v)) && Accepts(Stripped(w))
    ensures Encode(Stripped(v)) == Encode(Stripped(w)) <==> w == v.(ttl := w.ttl, powNonce := w.powNonce)
  {
    hide Encode, Accepts;
    if Encode(Stripped(v)) == Encode(Stripped(w)) { BytesTellTheMessage(Stripped(v), Stripped(w)); }
  }

  /** Two bytes of length, then the text; a text that is too long is refused. */
  method LengthPrefixed(text: seq<Byte>) returns (out: Option<seq<Byte>>)
    ensures out == if |text| > 0xFFFF then None else Some(Prefixed(text, 2))
  {
    hide BigEndian;
    if |text| > 0xFFFF { return None; }
    var size := BigEndian(|text|, 2);
    var buf := new Byte[2 + |text|](i requires 0 <= i < 2 + |text| => if i < 2 then size[i] else 0);
    for i := 0 to |text|
      invariant buf[..2 + i] == size + text[..i]
    {
      buf[2 + i] := text[i];
      assert text[..i + 1] == text[..i] + [text[i]];
    }
    assert text[..|text|] == text && buf[..2 + |text|] == buf[..];
    return Some(buf[..]);
  }

  /** joinMessage */
  method JoinMessage(
    challenge: seq<Byte>, signerId: seq<Byte>, verifierId: seq<Byte>, signerPrint: seq<Byte>, verifierPrint: seq<Byte>)
    returns (message: Option<seq<Byte>>)
    ensures var m := PeerJoin(challenge, verifierId, signerId, signerPrint, verifierPrint);
      message == if Accepts(m) then Some(Encode(m)) else None
  {
    hide Prefixed;
    var verifier := LengthPrefixed(verifierId);
    if verifier.None? { return None; }
    var signer := LengthPrefixed(signerId);
    if signer.None? { return None; }
    var signerFp := LengthPrefixed(signerPrint);
    if signerFp.None? { return None; }
    var verifierFp := LengthPrefixed(verifierPrint);
    if verifierFp.None? { return None; }
    return Some(JoinDomain() + challenge + (verifier.value + (signer.value + (signerFp.value + (verifierFp.value + [])))));
  }

  /** toLowerCase, for the ASCII letters that host names are made of. */
  function LowerCase(s: seq<Byte>): (t: seq<Byte>)
    ensures |t| == |s| && forall i :: 0 <= i < |s| ==> !(0x41 <= t[i] <= 0x5a)
    ensures forall i :: 0 <= i < |s| ==> t[i] == s[i] || (0x41 <= s[i] <= 0x5a && t[i] == s[i] + 0x20)
  {
    seq(|s|, i requires 0 <= i < |s| => if 0x41 <= s[i] <= 0x5a then s[i] + 0x20 else s[i])
  }

  /** trackerJoinMessage */
  method TrackerJoinMessage(nonce: seq<Byte>, peerId: seq<Byte>, host: seq<Byte>) returns (message: Option<seq<Byte>>)
    ensures var m := TrackerJoin(nonce, peerId, LowerCase(host));
      message == if Accepts(m) then Some(Encode(m)) else None
  {
    hide Prefixed, LowerCase;
    if |nonce| != CHALLENGE_BYTES { return None; }
    var id := LengthPrefixed(peerId);
    if id.None? { return None; }
    var name := LengthPrefixed(LowerCase(host));
    if name.None? { return None; }
    return Some(TrackerJoinDomain() + nonce + (id.value + (name.value + [])));
  }
}
