/**
 * Layered onion cells of fixed size. The sealed box and the MessagePack decoder are a Crypto value with the laws the
 * code relies on; keys are named by numbers, and the last argument of `seal` is its randomness.
 */
module Onion {
  import opened Wrappers
  import opened Bytes

  const SEAL_OVERHEAD := 48
  const CELL_SIZE := 3800
  const EXIT_LAYER_SIZE := 3400
  const SEALED_EXIT_LAYER_SIZE := EXIT_LAYER_SIZE + SEAL_OVERHEAD
  const PEER_ID_LENGTH := 32

  datatype Hop = Hop(peerId: seq<Byte>, key: nat)

  datatype Payload = Relay(nextHop: seq<Byte>, innerOnion: seq<Byte>) | Exit(message: seq<Byte>)

  datatype Crypto = Crypto(
    seal: (seq<Byte>, nat, nat) -> seq<Byte>,
    open: (seq<Byte>, nat) -> Option<seq<Byte>>,
    decode: seq<Byte> -> Option<Payload>)

  // Cells

  function CellHeader(payload: seq<Byte>): (h: seq<Byte>)
    ensures |h| == 4
  {
    [0xa5, 0x5a] + BigEndian(|payload|, 2)
  }

  /** A cell: magic, length, payload, and any padding. */
  ghost predicate IsPadded(cell: seq<Byte>, payload: seq<Byte>, cellSize: nat) {
    |cell| == cellSize && |payload| + 4 <= cellSize && cell[..4 + |payload|] == CellHeader(payload) + payload
  }

  function UnpadCell(cell: seq<Byte>, expectedSize: nat): Option<seq<Byte>>
    requires expectedSize >= 4
  {
    if |cell| != expectedSize then None
    else if cell[0] != 0xa5 || cell[1] != 0x5a then None
    else
      var len := Value(cell[2..4]);
      if len > |cell| - 4 then None else Some(cell[4..4 + len])
  }

  /** Padding is undone whatever it was made of. */
  lemma UnpadUndoesPad(cell: seq<Byte>, payload: seq<Byte>, cellSize: nat)
    requires IsPadded(cell, payload, cellSize) && cellSize <= 0x1_0000
    ensures UnpadCell(cell, cellSize) == Some(payload)
  {
    hide BigEndian, Value;
    var n := |payload|;
    var used := CellHeader(payload) + payload;
    assert cell[0] == used[0] && cell[1] == used[1];
    assert cell[2..4] == used[2..4] == BigEndian(n, 2);
    assert Pow256(2) == 0x1_0000;
    BigEndianFits(n, 2);
    assert cell[4..4 + n] == used[4..];
  }

  lemma LengthBytes(n: nat)
    ensures BigEndian(n, 2) == [n / 256 % 256, n % 256]
  {
    assert BigEndian(n / 256, 1) == [n / 256 % 256];
  }

  /** padCell, filling a buffer; whatever does not fit is refused. */
  method PadCell(payload: seq<Byte>, cellSize: nat) returns (padded: Option<seq<Byte>>)
    ensures padded.Some? <==> |payload| + 4 <= cellSize
    ensures padded.Some? ==> IsPadded(padded.value, payload, cellSize)
    ensures padded.Some? && |payload| <= 0xFFFF ==> IsCell(padded.value, payload, cellSize)
  {
    if |payload| > cellSize - 4 { return None; }
    var cell := new Byte[cellSize](_ => 0);
    cell[0] := 0xa5;
    cell[1] := 0x5a;
    cell[2] := |payload| / 256 % 256;
    cell[3] := |payload| % 256;
    LengthBytes(|payload|);
    assert cell[..4] == CellHeader(payload);
    for i := 0 to |payload|
      invariant cell[..4 + i] == CellHeader(payload) + payload[..i]
    {
      cell[4 + i] := payload[i];
      assert payload[..i + 1] == payload[..i] + [payload[i]];
    }
    assert payload[..|payload|] == payload;
    for k := 4 + |payload| to cellSize
      invariant cell[..4 + |payload|] == CellHeader(payload) + payload
    {
      var random: Byte := *;
      cell[k] := random;
    }
    if |payload| <= 0xFFFF { PaddedIsCell(cell[..], payload, cellSize); }
    return Some(cell[..]);
  }

  /** Where magic, length and payload lie in a cell. */
  ghost predicate IsCell(cell: seq<Byte>, payload: seq<Byte>, cellSize: nat) {
    && |cell| == cellSize && |payload| + 4 <= cellSize && cell[0] == 0xa5 && cell[1] == 0x5a
    && cell[2] as nat * 256 + cell[3] == |payload| && cell[4..4 + |payload|] == payload
  }

  lemma PaddedIsCell(cell: seq<Byte>, payload: seq<Byte>, cellSize: nat)
    requires IsPadded(cell, payload, cellSize) && |payload| <= 0xFFFF
    ensures IsCell(cell, payload, cellSize)
  {
    hide BigEndian;
    var used := CellHeader(payload) + payload;
    LengthBytes(|payload|);
    assert cell[0] == used[0] && cell[1] == used[1] && cell[2] == used[2] && cell[3] == used[3];
    assert cell[4..4 + |payload|] == used[4..];
  }

  /** And whatever looks like that, and only that, is taken for one. */
  lemma UnpadsIff(cell: seq<Byte>, payload: seq<Byte>, cellSize: nat)
    requires cellSize >= 4
    ensures UnpadCell(cell, cellSize) == Some(payload) <==> IsCell(cell, payload, cellSize)
  {
    hide Value;
    if |cell| == cellSize { ValueIs(cell[2..4]); }
  }

  // The relay envelope in MessagePack

  /** A map of three, then "type": "relay", "nextHop": */
  function EnvelopeStart(): seq<Byte> {
    [0x83]
    + [0xa4, 0x74, 0x79, 0x70, 0x65] + [0xa5, 0x72, 0x65, 0x6c, 0x61, 0x79]
    + [0xa7, 0x6e, 0x65, 0x78, 0x74, 0x48, 0x6f, 0x70]
  }

  /** fixstr, str 8, str 16 or str 32, by length. */
  function StrHead(n: nat): seq<Byte> {
    if n < 32 then [0xa0 + n]
    else if n <= 0xFF then [0xd9] + BigEndian(n, 1)
    else if n <= 0xFFFF then [0xda] + BigEndian(n, 2)
    else [0xdb] + BigEndian(n, 4)
  }

  /** "innerOnion" */
  function InnerKey(): seq<Byte> {
    [0xaa, 0x69, 0x6e, 0x6e, 0x65, 0x72, 0x4f, 0x6e, 0x69, 0x6f, 0x6e]
  }

  /** bin 8, bin 16 or bin 32, by length. */
  function BinHead(n: nat): seq<Byte> {
    if n <= 0xFF then [0xc4] + BigEndian(n, 1)
    else if n <= 0xFFFF then [0xc5] + BigEndian(n, 2)
    else [0xc6] + BigEndian(n, 4)
  }

  function Envelope(nextHop: seq<Byte>, inner: seq<Byte>): seq<Byte> {
    EnvelopeStart() + StrHead(|nextHop|) + nextHop + InnerKey() + BinHead(|inner|) + inner
  }

  /** For a peer id and an onion of the usual size: a map of three, with its keys and values in this order. */
  lemma EnvelopeLayout(nextHop: seq<Byte>, inner: seq<Byte>)
    requires |nextHop| == 32 && 0xFF < |inner| <= 0xFFFF
    ensures var e := Envelope(nextHop, inner);
      && |e| == 68 + |inner| && e[0] == 0x83
      && e[1] == 0xa0 + 4 && e[2..6] == Ascii("type") && e[6] == 0xa0 + 5 && e[7..12] == Ascii("relay")
      && e[12] == 0xa0 + 7 && e[13..20] == Ascii("nextHop") && e[20] == 0xd9 && e[21] == 32 && e[22..54] == nextHop
      && e[54] == 0xa0 + 10 && e[55..65] == Ascii("innerOnion") && e[65] == 0xc5 && Value(e[66..68]) == |inner|
      && e[68..] == inner
  {
    hide BigEndian, Value, Ascii;
    EnvelopeKeys();
    assert BigEndian(32, 1) == [32] by { BigEndianFits(32, 1); ValueIs(BigEndian(32, 1)); }
    BigEndianFits(|inner|, 2);
    var a, b := EnvelopeStart() + StrHead(32) + nextHop, InnerKey() + BinHead(|inner|);
    var e := a + (b + inner);
    assert Envelope(nextHop, inner) == e;
    assert e[2..6] == a[2..6] && e[7..12] == a[7..12] && e[13..20] == a[13..20] && e[22..54] == nextHop;
    assert e[55..65] == InnerKey()[1..] && e[66..68] == BigEndian(|inner|, 2);
  }

  lemma EnvelopeKeys()
    ensures var s := EnvelopeStart();
      |s| == 20 && s[2..6] == Ascii("type") && s[7..12] == Ascii("relay") && s[13..] == Ascii("nextHop")
    ensures InnerKey()[1..] == Ascii("innerOnion")
  {
  }

  lemma EnvelopeSize(nextHop: seq<Byte>, inner: seq<Byte>)
    ensures |Envelope(nextHop, inner)| == EnvelopeBytes(|nextHop|, |inner|)
  {
  }

  function EnvelopeBytes(nextHop: nat, inner: nat): nat {
    31 + |StrHead(nextHop)| + nextHop + |BinHead(inner)| + inner
  }

  /** For a peer id it is 68 bytes around an onion of the usual size. */
  lemma PeerEnvelopeBytes(inner: nat)
    ensures 0xFF < inner <= 0xFFFF ==> EnvelopeBytes(PEER_ID_LENGTH, inner) == inner + 68
    ensures EnvelopeBytes(PEER_ID_LENGTH, inner) > inner
  {
  }

  predicate IsPeerId(id: seq<Byte>) {
    |id| == PEER_ID_LENGTH && forall i :: 0 <= i < |id| ==> 0x30 <= id[i] <= 0x39 || 0x61 <= id[i] <= 0x66
  }

  /** Sealed boxes open with the right key and cost 48 bytes; the decoder reads relay envelopes that fit into a cell. */
  ghost predicate Lawful(c: Crypto) {
    && (forall p, k, r :: |c.seal(p, k, r)| == |p| + SEAL_OVERHEAD)
    && (forall p, k, r :: c.open(c.seal(p, k, r), k) == Some(p))
    && (forall next, inner :: IsPeerId(next) && |inner| <= CELL_SIZE - 4 ==>
          c.decode(Envelope(next, inner)) == Some(Relay(next, inner)))
  }

  // Layers

  ghost predicate IsSealed(c: Crypto, onion: seq<Byte>, plain: seq<Byte>, key: nat) {
    exists r :: onion == c.seal(plain, key, r)
  }

  lemma SealedOpens(c: Crypto, onion: seq<Byte>, plain: seq<Byte>, key: nat)
    requires Lawful(c) && IsSealed(c, onion, plain, key)
    ensures |onion| == |plain| + SEAL_OVERHEAD && c.open(onion, key) == Some(plain)
  {
    var r :| onion == c.seal(plain, key, r);
  }

  /** onion is the relay envelope for the next hop around inner, sealed for hop i. */
  ghost predicate Wraps(c: Crypto, hops: seq<Hop>, i: nat, inner: seq<Byte>, onion: seq<Byte>)
    requires i + 1 < |hops|
  {
    IsSealed(c, onion, Envelope(hops[i + 1].peerId, inner), hops[i].key)
  }

  /** onion is what hop i of the circuit has to open, for this exit message. */
  ghost predicate IsLayer(c: Crypto, exit: seq<Byte>, hops: seq<Hop>, i: nat, onion: seq<Byte>)
    requires i < |hops|
    decreases |hops| - i
  {
    if i == |hops| - 1 then
      exists cell :: IsPadded(cell, exit, EXIT_LAYER_SIZE) && IsSealed(c, onion, cell, hops[i].key)
    else
      exists inner :: IsLayer(c, exit, hops, i + 1, inner) && Wraps(c, hops, i, inner, onion)
  }

  /** What is inside a layer that is not the last. */
  lemma InnerLayer(c: Crypto, exit: seq<Byte>, hops: seq<Hop>, i: nat, onion: seq<Byte>) returns (inner: seq<Byte>)
    requires Lawful(c) && i < |hops| - 1 && IsLayer(c, exit, hops, i, onion)
    ensures IsLayer(c, exit, hops, i + 1, inner)
    ensures |onion| == |Envelope(hops[i + 1].peerId, inner)| + SEAL_OVERHEAD
    ensures c.open(onion, hops[i].key) == Some(Envelope(hops[i + 1].peerId, inner))
  {
    hide Envelope, IsSealed, Lawful;
    inner :| IsLayer(c, exit, hops, i + 1, inner) && Wraps(c, hops, i, inner, onion);
    SealedOpens(c, onion, Envelope(hops[i + 1].peerId, inner), hops[i].key);
  }

  lemma LastLayer(c: Crypto, exit: seq<Byte>, hops: seq<Hop>, onion: seq<Byte>) returns (plain: seq<Byte>)
    requires Lawful(c) && hops != [] && IsLayer(c, exit, hops, |hops| - 1, onion)
    ensures IsPadded(plain, exit, EXIT_LAYER_SIZE) && |plain| == EXIT_LAYER_SIZE
    ensures |onion| == SEALED_EXIT_LAYER_SIZE && c.open(onion, hops[|hops| - 1].key) == Some(plain)
  {
    hide IsSealed, Lawful;
    plain :| IsPadded(plain, exit, EXIT_LAYER_SIZE) && IsSealed(c, onion, plain, hops[|hops| - 1].key);
    SealedOpens(c, onion, plain, hops[|hops| - 1].key);
  }

  ghost predicate PeersOk(hops: seq<Hop>) {
    forall i :: 0 <= i < |hops| ==> IsPeerId(hops[i].peerId)
  }

  /** The size of the layer for hop i. */
  function LayerBytes(hops: seq<Hop>, i: nat): nat
    requires i < |hops|
    decreases |hops| - i
  {
    if i == |hops| - 1 then SEALED_EXIT_LAYER_SIZE
    else EnvelopeBytes(|hops[i + 1].peerId|, LayerBytes(hops, i + 1)) + SEAL_OVERHEAD
  }

  /** How long a layer is depends on the ids of the hops behind it only, never on the message. */
  lemma {:induction false} LayersHaveFixedSizes(c: Crypto, exit: seq<Byte>, hops: seq<Hop>, i: nat, onion: seq<Byte>)
    requires Lawful(c) && i < |hops| && IsLayer(c, exit, hops, i, onion)
    ensures |onion| == LayerBytes(hops, i)
    decreases |hops| - i
  {
    hide Envelope, IsLayer, Lawful, EnvelopeBytes;
    if i < |hops| - 1 {
      var inner := InnerLayer(c, exit, hops, i, onion);
      LayersHaveFixedSizes(c, exit, hops, i + 1, inner);
      EnvelopeSize(hops[i + 1].peerId, inner);
    } else {
      var plain := LastLayer(c, exit, hops, onion);
    }
  }

  function LayerSize(hopsLeft: nat): nat {
    SEALED_EXIT_LAYER_SIZE + 116 * hopsLeft
  }

  /** With peer ids it is 116 bytes more for each hop behind, as long as two bytes can count it. */
  lemma {:induction false} PeerLayerBytes(hops: seq<Hop>, i: nat)
    requires PeersOk(hops) && i < |hops|
    ensures |hops| - 1 - i <= 500 ==> LayerBytes(hops, i) == 3448 + 116 * (|hops| - 1 - i)
    ensures |hops| - 1 - i > 500 ==> LayerBytes(hops, i) > 3800
    decreases |hops| - i
  {
    hide EnvelopeBytes;
    if i < |hops| - 1 {
      PeerLayerBytes(hops, i + 1);
      PeerEnvelopeBytes(LayerBytes(hops, i + 1));
      assert IsPeerId(hops[i + 1].peerId);
    }
  }

  /** So a guard cannot tell cover traffic from messages by size. */
  lemma SizesTellNothing(
    c: Crypto, exit: seq<Byte>, hops: seq<Hop>, onion: seq<Byte>, exit': seq<Byte>, hops': seq<Hop>, onion': seq<Byte>,
    i: nat)
    requires Lawful(c) && PeersOk(hops) && PeersOk(hops') && i < |hops| == |hops'| <= 500
    requires IsLayer(c, exit, hops, i, onion) && IsLayer(c, exit', hops', i, onion')
    ensures |onion| == |onion'|
  {
    hide IsLayer, Lawful, PeersOk;
    LayersHaveFixedSizes(c, exit, hops, i, onion);
    LayersHaveFixedSizes(c, exit', hops', i, onion');
    PeerLayerBytes(hops, i);
    PeerLayerBytes(hops', i);
  }

  /** One layer off: unwrapWithCurveKeys. */
  function Unwrap(c: Crypto, cell: seq<Byte>, key: nat): Option<Payload> {
    var raw := UnpadCell(cell, CELL_SIZE);
    if raw.None? then None else
      var unsealed := c.open(raw.value, key);
      if unsealed.None? then None else
        var plain := unsealed.value;
        var inner := if |plain| == EXIT_LAYER_SIZE then UnpadCell(plain, EXIT_LAYER_SIZE) else None;
        c.decode(if inner.Some? then inner.value else plain)
  }

  /** What is in the cell is opened; if that is a padded exit layer, its payload is decoded, or else all of it. */
  lemma UnwrapsOneLayer(c: Crypto, cell: seq<Byte>, key: nat, raw: seq<Byte>)
    requires IsCell(cell, raw, 3800)
    ensures match c.open(raw, key)
      case None => Unwrap(c, cell, key) == None
      case Some(plain) =>
        && (forall m :: IsCell(plain, m, 3400) ==> Unwrap(c, cell, key) == c.decode(m))
        && ((forall m :: !IsCell(plain, m, 3400)) ==> Unwrap(c, cell, key) == c.decode(plain))
  {
    hide UnpadCell, IsCell;
    Unpads(cell, 3800);
    var plain := c.open(raw, key);
    if plain.Some? { Unpads(plain.value, 3400); }
  }

  /** A cell without a payload yields nothing. */
  lemma NothingToUnwrap(c: Crypto, cell: seq<Byte>, key: nat)
    ensures Unwrap(c, cell, key) == None || exists raw :: IsCell(cell, raw, 3800)
  {
    hide UnpadCell, IsCell;
    Unpads(cell, 3800);
    var raw := UnpadCell(cell, 3800);
    if raw.Some? { assert IsCell(cell, raw.value, 3800); }
  }

  lemma Unpads(cell: seq<Byte>, cellSize: nat)
    requires cellSize >= 4
    ensures forall p :: IsCell(cell, p, cellSize) <==> UnpadCell(cell, cellSize) == Some(p)
    ensures |cell| != cellSize ==> UnpadCell(cell, cellSize) == None
  {
    forall p ensures IsCell(cell, p, cellSize) <==> UnpadCell(cell, cellSize) == Some(p) {
      UnpadsIff(cell, p, cellSize);
    }
  }

  /** A message that the exit can read. */
  ghost predicate Readable(c: Crypto, exit: seq<Byte>) {
    c.decode(exit) == Some(Exit(exit))
  }

  /** At the exit the message comes out. */
  lemma ExitReads(c: Crypto, exit: seq<Byte>, hops: seq<Hop>, onion: seq<Byte>, cell: seq<Byte>)
    requires Lawful(c) && Readable(c, exit) && hops != [] && IsLayer(c, exit, hops, |hops| - 1, onion)
    requires IsPadded(cell, onion, CELL_SIZE)
    ensures Unwrap(c, cell, hops[|hops| - 1].key) == Some(Exit(exit))
  {
    hide UnpadCell, IsPadded, IsLayer, Lawful;
    var plain := LastLayer(c, exit, hops, onion);
    UnpadUndoesPad(cell, onion, CELL_SIZE);
    UnpadUndoesPad(plain, exit, EXIT_LAYER_SIZE);
  }

  lemma PaddedSize(cell: seq<Byte>, payload: seq<Byte>, cellSize: nat)
    requires IsPadded(cell, payload, cellSize)
    ensures |cell| == cellSize && |payload| + 4 <= cellSize
  {
  }

  lemma DecodesRelay(c: Crypto, nextHop: seq<Byte>, inner: seq<Byte>)
    requires Lawful(c) && IsPeerId(nextHop) && |inner| <= CELL_SIZE - 4
    ensures c.decode(Envelope(nextHop, inner)) == Some(Relay(nextHop, inner))
  {
  }

  /** A layer that fits into a cell has a layer of the usual size inside. */
  lemma FitsSoFewHops(
    c: Crypto, exit: seq<Byte>, hops: seq<Hop>, i: nat, onion: seq<Byte>, cell: seq<Byte>, inner: seq<Byte>)
    requires Lawful(c) && PeersOk(hops) && i < |hops| - 1 && IsLayer(c, exit, hops, i, onion)
    requires IsPadded(cell, onion, CELL_SIZE) && IsLayer(c, exit, hops, i + 1, inner)
    ensures |inner| == LayerSize(|hops| - 2 - i)
  {
    hide IsPadded, IsLayer, Lawful, PeersOk, LayerBytes;
    PaddedSize(cell, onion, CELL_SIZE);
    LayersHaveFixedSizes(c, exit, hops, i, onion);
    LayersHaveFixedSizes(c, exit, hops, i + 1, inner);
    PeerLayerBytes(hops, i);
    PeerLayerBytes(hops, i + 1);
  }

  /** Before it, a hop learns the next hop and gets the next layer. */
  lemma RelayReads(c: Crypto, exit: seq<Byte>, hops: seq<Hop>, i: nat, onion: seq<Byte>, cell: seq<Byte>)
    returns (inner: seq<Byte>)
    requires Lawful(c) && PeersOk(hops) && i < |hops| - 1 && IsLayer(c, exit, hops, i, onion)
    requires IsPadded(cell, onion, CELL_SIZE)
    ensures Unwrap(c, cell, hops[i].key) == Some(Relay(hops[i + 1].peerId, inner))
    ensures IsLayer(c, exit, hops, i + 1, inner)
  {
    hide UnpadCell, IsPadded, Envelope, EnvelopeBytes, IsLayer, Lawful;
    inner := InnerLayer(c, exit, hops, i, onion);
    UnpadUndoesPad(cell, onion, CELL_SIZE);
    PaddedSize(cell, onion, CELL_SIZE);
    FitsSoFewHops(c, exit, hops, i, onion, cell, inner);
    EnvelopeSize(hops[i + 1].peerId, inner);
    PeerEnvelopeBytes(|inner|);
    assert IsPeerId(hops[i + 1].peerId);
    DecodesRelay(c, hops[i + 1].peerId, inner);
  }

  /** Peeling by the router alone: each cell but the first is what the hop before unwrapped, padded again. */
  ghost predicate Peeled(c: Crypto, hops: seq<Hop>, cells: seq<seq<Byte>>) {
    && |cells| == |hops|
    && forall i :: 0 <= i < |cells| - 1 ==>
        var got := Unwrap(c, cells[i], hops[i].key);
        got.Some? && got.value.Relay? && IsPadded(cells[i + 1], got.value.innerOnion, CELL_SIZE)
  }

  lemma {:induction false} LayerAtHop(
    c: Crypto, exit: seq<Byte>, hops: seq<Hop>, onion: seq<Byte>, cells: seq<seq<Byte>>, i: nat)
    returns (layer: seq<Byte>)
    requires Lawful(c) && PeersOk(hops) && i < |hops| && IsLayer(c, exit, hops, 0, onion)
    requires Peeled(c, hops, cells) && IsPadded(cells[0], onion, CELL_SIZE)
    ensures IsLayer(c, exit, hops, i, layer) && IsPadded(cells[i], layer, CELL_SIZE)
  {
    hide Unwrap, IsPadded, IsLayer, Lawful;
    if i == 0 {
      layer := onion;
    } else {
      var before := LayerAtHop(c, exit, hops, onion, cells, i - 1);
      layer := RelayReads(c, exit, hops, i - 1, before, cells[i - 1]);
    }
  }

  /**
   * Whatever wraps up peels off: the route is read in order, hop by hop, then the message. This is about the router
   * alone; which of these cells a relay passes on is a question of its own.
   */
  lemma RoutePeels(c: Crypto, exit: seq<Byte>, hops: seq<Hop>, onion: seq<Byte>, cells: seq<seq<Byte>>, i: nat)
    requires Lawful(c) && Readable(c, exit) && PeersOk(hops) && i < |hops| && IsLayer(c, exit, hops, 0, onion)
    requires Peeled(c, hops, cells) && IsPadded(cells[0], onion, CELL_SIZE)
    ensures |cells[i]| == CELL_SIZE
    ensures var got := Unwrap(c, cells[i], hops[i].key);
      if i == |hops| - 1 then got == Some(Exit(exit))
      else got.Some? && got.value.Relay? && got.value.nextHop == hops[i + 1].peerId
           && |got.value.innerOnion| == LayerSize(|hops| - 2 - i)
  {
    hide Unwrap, IsPadded, IsLayer, Lawful, Readable;
    var layer := LayerAtHop(c, exit, hops, onion, cells, i);
    PaddedSize(cells[i], layer, CELL_SIZE);
    if i == |hops| - 1 {
      ExitReads(c, exit, hops, layer, cells[i]);
    } else {
      var inner := RelayReads(c, exit, hops, i, layer, cells[i]);
      FitsSoFewHops(c, exit, hops, i, layer, cells[i], inner);
    }
  }

  /** The layer for hop i of a circuit, by sealing from the exit outwards; padded at the end. */
  method WrapCircuit(c: Crypto, exit: seq<Byte>, hops: seq<Hop>) returns (cell: Option<seq<Byte>>)
    requires Lawful(c)
    ensures cell.Some? <==> hops != [] && |exit| + 4 <= EXIT_LAYER_SIZE && LayerBytes(hops, 0) + 4 <= CELL_SIZE
    ensures PeersOk(hops) ==> (cell.Some? <==> 1 <= |hops| <= 4 && |exit| + 4 <= EXIT_LAYER_SIZE)
    ensures cell.Some? ==> exists onion ::
      IsLayer(c, exit, hops, 0, onion) && IsPadded(cell.value, onion, CELL_SIZE)
  {
    hide Lawful, Envelope, IsPadded, IsSealed, LayerBytes, PeersOk;
    if hops == [] { return None; }
    if PeersOk(hops) { PeerLayerBytes(hops, 0); }
    var padded := PadCell(exit, EXIT_LAYER_SIZE);
    if padded.None? { return None; }
    var r: nat := *;
    var current := c.seal(padded.value, hops[|hops| - 1].key, r);
    assert IsSealed(c, current, padded.value, hops[|hops| - 1].key) by { JustSealed(c, padded.value, hops[|hops| - 1].key, r); }
    var i := |hops| - 1;
    while i > 0
      invariant 0 <= i < |hops| && IsLayer(c, exit, hops, i, current)
    {
      i := i - 1;
      r := *;
      var relayPayload := Envelope(hops[i + 1].peerId, current);
      var onion := c.seal(relayPayload, hops[i].key, r);
      assert IsSealed(c, onion, relayPayload, hops[i].key) by { JustSealed(c, relayPayload, hops[i].key, r); }
      assert Wraps(c, hops, i, current, onion);
      current := onion;
    }
    LayersHaveFixedSizes(c, exit, hops, 0, current);
    cell := PadCell(current, CELL_SIZE);
  }

  lemma JustSealed(c: Crypto, plain: seq<Byte>, key: nat, r: nat)
    ensures IsSealed(c, c.seal(plain, key, r), plain, key)
  {
  }

  /** What a relay lets pass: nothing back or to itself, and of inner onions only a sealed exit layer. */
  predicate MayPass(sender: seq<Byte>, me: seq<Byte>, nextHop: seq<Byte>, inner: seq<Byte>) {
    nextHop != sender && nextHop != me && |inner| == SEALED_EXIT_LAYER_SIZE
  }

  /** OnionCircuit.relay */
  method Forward(sender: seq<Byte>, me: seq<Byte>, nextHop: seq<Byte>, inner: seq<Byte>) returns (cell: Option<seq<Byte>>)
    ensures cell.Some? <==> MayPass(sender, me, nextHop, inner)
    ensures cell.Some? ==> IsPadded(cell.value, inner, CELL_SIZE)
  {
    if nextHop == sender || nextHop == me { return None; }
    if |inner| != SEALED_EXIT_LAYER_SIZE { return None; }
    cell := PadCell(inner, CELL_SIZE);
  }

  datatype Handled = Ignored | PassedOn(nextHop: seq<Byte>, cell: seq<Byte>) | Exited(message: seq<Byte>)

  /** OnionCircuit.handleCell, for a cell that was not seen before. */
  method HandleCell(c: Crypto, sender: seq<Byte>, me: Hop, cell: seq<Byte>) returns (out: Handled)
    ensures match Unwrap(c, cell, me.key)
      case None => out == Ignored
      case Some(Exit(message)) => out == Exited(message)
      case Some(Relay(nextHop, inner)) =>
        if MayPass(sender, me.peerId, nextHop, inner)
        then out.PassedOn? && out.nextHop == nextHop && IsPadded(out.cell, inner, CELL_SIZE) else out == Ignored
  {
    hide Unwrap, IsPadded;
    if |cell| != CELL_SIZE {
      WrongSizeIsNothing(c, cell, me.key);
      return Ignored;
    }
    var result := Unwrap(c, cell, me.key);
    match result
    case None => return Ignored;
    case Some(Exit(message)) => return Exited(message);
    case Some(Relay(nextHop, inner)) =>
      var padded := Forward(sender, me.peerId, nextHop, inner);
      return if padded.Some? then PassedOn(nextHop, padded.value) else Ignored;
  }

  lemma WrongSizeIsNothing(c: Crypto, cell: seq<Byte>, key: nat)
    requires |cell| != CELL_SIZE
    ensures Unwrap(c, cell, key) == None
  {
  }

  /** One relay step: the cell of one hop makes the cell that is sent to the next. */
  ghost predicate PassesOn(c: Crypto, sender: seq<Byte>, me: Hop, next: Hop, cell: seq<Byte>, cell': seq<Byte>) {
    var got := Unwrap(c, cell, me.key);
    && got.Some? && got.value.Relay? && got.value.nextHop == next.peerId
    && MayPass(sender, me.peerId, next.peerId, got.value.innerOnion) && IsPadded(cell', got.value.innerOnion, CELL_SIZE)
  }

  function SenderTo(origin: seq<Byte>, hops: seq<Hop>, i: nat): seq<Byte>
    requires i < |hops|
  {
    if i == 0 then origin else hops[i - 1].peerId
  }

  /** Cells that carry the message to the exit, each made of the one before as the relays make them. */
  ghost predicate GetsThrough(c: Crypto, origin: seq<Byte>, exit: seq<Byte>, hops: seq<Hop>, cells: seq<seq<Byte>>) {
    && |cells| == |hops| > 0
    && (forall i :: 0 <= i < |hops| - 1 ==>
          PassesOn(c, SenderTo(origin, hops, i), hops[i], hops[i + 1], cells[i], cells[i + 1]))
    && Unwrap(c, cells[|hops| - 1], hops[|hops| - 1].key) == Some(Exit(exit))
  }

  /** One hop, or two of which the exit is neither the originator nor the guard. */
  predicate Passable(origin: seq<Byte>, hops: seq<Hop>) {
    || |hops| == 1
    || (|hops| == 2 && hops[1].peerId != origin && hops[1].peerId != hops[0].peerId)
  }

  /** What a hop before the exit does with its cell. */
  lemma PassesIff(
    c: Crypto, exit: seq<Byte>, hops: seq<Hop>, i: nat, onion: seq<Byte>, cell: seq<Byte>, sender: seq<Byte>)
    returns (inner: seq<Byte>)
    requires Lawful(c) && PeersOk(hops) && i < |hops| - 1 && IsLayer(c, exit, hops, i, onion)
    requires IsPadded(cell, onion, CELL_SIZE)
    ensures Unwrap(c, cell, hops[i].key) == Some(Relay(hops[i + 1].peerId, inner)) && IsLayer(c, exit, hops, i + 1, inner)
    ensures MayPass(sender, hops[i].peerId, hops[i + 1].peerId, inner)
      <==> i + 2 == |hops| && hops[i + 1].peerId != sender && hops[i + 1].peerId != hops[i].peerId
  {
    hide Unwrap, IsLayer, Lawful, PeersOk, IsPadded;
    inner := RelayReads(c, exit, hops, i, onion, cell);
    FitsSoFewHops(c, exit, hops, i, onion, cell, inner);
  }

  /**
   * A circuit that was wrapped gets through exactly if it has one hop, or two and the exit is neither the originator nor
   * the guard. The router wraps three and four hops as well, and those stop at the guard.
   */
  lemma GetsThroughIff(
    c: Crypto, origin: seq<Byte>, exit: seq<Byte>, hops: seq<Hop>, onion: seq<Byte>, cell: seq<Byte>)
    requires Lawful(c) && Readable(c, exit) && PeersOk(hops) && hops != []
    requires IsLayer(c, exit, hops, 0, onion) && IsPadded(cell, onion, CELL_SIZE)
    ensures (exists cells :: GetsThrough(c, origin, exit, hops, cells) && cells[0] == cell) <==> Passable(origin, hops)
  {
    hide Unwrap, IsPadded, IsLayer, Lawful, Readable, PeersOk, MayPass;
    if |hops| == 1 {
      ExitReads(c, exit, hops, onion, cell);
      assert GetsThrough(c, origin, exit, hops, [cell]) && [cell][0] == cell;
    } else {
      var inner := PassesIff(c, exit, hops, 0, onion, cell, origin);
      if Passable(origin, hops) {
        PaddedSize(cell, onion, CELL_SIZE);
        var cell' := SomePadding(c, exit, hops, onion, cell, inner);
        ExitReads(c, exit, hops, inner, cell');
        assert GetsThrough(c, origin, exit, hops, [cell, cell']) && [cell, cell'][0] == cell;
      }
      if cells :| GetsThrough(c, origin, exit, hops, cells) && cells[0] == cell {
        assert PassesOn(c, SenderTo(origin, hops, 0), hops[0], hops[1], cells[0], cells[1]);
      }
    }
  }

  lemma SomePadding(
    c: Crypto, exit: seq<Byte>, hops: seq<Hop>, onion: seq<Byte>, cell: seq<Byte>, inner: seq<Byte>)
    returns (cell': seq<Byte>)
    requires Lawful(c) && PeersOk(hops) && |hops| == 2 && IsLayer(c, exit, hops, 0, onion)
    requires IsPadded(cell, onion, CELL_SIZE) && IsLayer(c, exit, hops, 1, inner)
    ensures IsPadded(cell', inner, CELL_SIZE)
  {
    hide IsLayer, Lawful, PeersOk;
    FitsSoFewHops(c, exit, hops, 0, onion, cell, inner);
    cell' := CellHeader(inner) + inner + seq(CELL_SIZE - 4 - |inner|, _ => 0);
  }

  /**
   * A message wrapped and sent from hop to hop, as each handles it: it comes out at the exit exactly if it fits and the
   * circuit is passable. Hops are taken to be connected and to have room for the cell.
   */
  method SendAlong(c: Crypto, origin: seq<Byte>, exit: seq<Byte>, hops: seq<Hop>) returns (arrived: Option<seq<Byte>>)
    requires Lawful(c) && Readable(c, exit) && PeersOk(hops)
    ensures arrived == if |exit| + 4 <= 3400 && Passable(origin, hops) then Some(exit) else None
  {
    hide Unwrap, IsPadded, IsLayer, Lawful, Readable, PeersOk, MayPass;
    var wrapped := WrapCircuit(c, exit, hops);
    if wrapped.None? { return None; }
    var cell, sender, i := wrapped.value, origin, 0;
    ghost var onion :| IsLayer(c, exit, hops, 0, onion) && IsPadded(cell, onion, CELL_SIZE);
    while true
      invariant 0 <= i < |hops| && sender == SenderTo(origin, hops, i) && (i > 0 ==> |hops| == 2 && Passable(origin, hops))
      invariant IsLayer(c, exit, hops, i, onion) && IsPadded(cell, onion, CELL_SIZE)
      decreases |hops| - i
    {
      if i == |hops| - 1 {
        ExitReads(c, exit, hops, onion, cell);
      } else {
        onion := PassesIff(c, exit, hops, i, onion, cell, sender);
      }
      var out := HandleCell(c, sender, hops[i], cell);
      match out {
        case Ignored => return None;
        case Exited(message) => return Some(message);
        case PassedOn(nextHop, cell') =>
          assert nextHop == hops[i + 1].peerId;
          cell, sender, i := cell', hops[i].peerId, i + 1;
      }
    }
  }

  /** An envelope has one reading. */
  lemma EnvelopeTells(next: seq<Byte>, inner: seq<Byte>, next': seq<Byte>, inner': seq<Byte>)
    requires |next| == |next'| && Envelope(next, inner) == Envelope(next', inner')
    ensures next == next' && inner == inner'
  {
    hide BigEndian;
    var e, n, m := Envelope(next, inner), |EnvelopeStart()| + |StrHead(|next|)|, |next|;
    assert next == e[n..n + m] && next' == Envelope(next', inner')[n..n + m];
    assert |BinHead(|inner|)| + |inner| == |BinHead(|inner'|)| + |inner'|;
    assert |inner| == |inner'|;
    assert inner == e[|e| - |inner|..] && inner' == Envelope(next', inner')[|e| - |inner|..];
  }

  ghost predicate IsEnvelope(b: seq<Byte>, next: seq<Byte>, inner: seq<Byte>) {
    IsPeerId(next) && b == Envelope(next, inner)
  }

  /** A decoder that reads envelopes and takes everything else for an exit message. */
  ghost function PlainDecode(b: seq<Byte>): Option<Payload> {
    if exists next, inner :: IsEnvelope(b, next, inner) then
      var next, inner :| IsEnvelope(b, next, inner);
      Some(Relay(next, inner))
    else Some(Exit(b))
  }

  /** The laws can be kept: a transparent box keeps them, and reads every message that is no envelope. */
  lemma LawsAreConsistent() returns (c: Crypto)
    ensures Lawful(c)
    ensures forall exit :: (forall next, inner :: !IsEnvelope(exit, next, inner)) ==> Readable(c, exit)
  {
    hide Envelope;
    c := Crypto(
      (p: seq<Byte>, k: nat, r: nat) => seq(SEAL_OVERHEAD, _ => 0) + p,
      (s: seq<Byte>, k: nat) => if |s| >= SEAL_OVERHEAD then Some(s[SEAL_OVERHEAD..]) else None,
      (b: seq<Byte>) => PlainDecode(b));
    forall next, inner | IsPeerId(next) ensures c.decode(Envelope(next, inner)) == Some(Relay(next, inner)) {
      assert IsEnvelope(Envelope(next, inner), next, inner);
      forall n, i | IsEnvelope(Envelope(next, inner), n, i) ensures n == next && i == inner {
        EnvelopeTells(next, inner, n, i);
      }
    }
  }
}
