/**
 * Large payloads cut into numbered chunks, and their reassembly. `now` is the receiver's clock in milliseconds; a
 * message that has waited REASSEMBLY_TIMEOUT is given up.
 */
module Chunked {
  import opened Sets
  import opened Wrappers
  import opened Bytes

  const CHUNK_SIZE := 4096
  const HEADER_SIZE := 12
  const REASSEMBLY_TIMEOUT := 10_000
  /** As many chunks as the two-byte fields of the header can count. */
  const MAX_CHUNKS := 0xFFFF

  /** Rounded up. */
  function NumChunks(data: seq<Byte>): nat {
    (|data| + CHUNK_SIZE - 1) / CHUNK_SIZE
  }

  function Piece(data: seq<Byte>, i: nat): (p: seq<Byte>)
    requires i < NumChunks(data)
    ensures |p| <= CHUNK_SIZE
  {
    data[i * CHUNK_SIZE..Min(i * CHUNK_SIZE + CHUNK_SIZE, |data|)]
  }

  function Header(id: nat, seqNo: nat, total: nat, size: nat): (h: seq<Byte>)
    ensures |h| == HEADER_SIZE
  {
    [0] + BigEndian(id, 4) + BigEndian(seqNo, 2) + BigEndian(total, 2) + BigEndian(size, 2)
    + [if seqNo + 1 == total then 1 else 0]
  }

  function Frame(data: seq<Byte>, id: nat, i: nat): seq<Byte>
    requires i < NumChunks(data)
  {
    Header(id, i, NumChunks(data), |Piece(data, i)|) + Piece(data, i)
  }

  // What a receiver reads

  function IdOf(raw: seq<Byte>): nat
    requires |raw| >= HEADER_SIZE
  {
    Value(raw[1..5])
  }

  function SeqOf(raw: seq<Byte>): nat
    requires |raw| >= HEADER_SIZE
  {
    Value(raw[5..7])
  }

  function TotalOf(raw: seq<Byte>): nat
    requires |raw| >= HEADER_SIZE
  {
    Value(raw[7..9])
  }

  function SizeOf(raw: seq<Byte>): nat
    requires |raw| >= HEADER_SIZE
  {
    Value(raw[9..11])
  }

  /** Taken for a chunk; anything else is handed on as it is. */
  predicate IsChunk(raw: seq<Byte>) {
    && |raw| >= HEADER_SIZE && raw[0] == 0
    && SeqOf(raw) < TotalOf(raw)
    && |raw| >= HEADER_SIZE + SizeOf(raw)
  }

  function PayloadOf(raw: seq<Byte>): seq<Byte>
    requires IsChunk(raw)
  {
    raw[HEADER_SIZE..HEADER_SIZE + SizeOf(raw)]
  }

  type Chunks = map<nat, seq<Byte>>

  datatype Pending = Pending(chunks: Chunks, total: nat, totalSize: nat, createdAt: int)

  type Table = map<nat, Pending>

  function Cleaned(pending: Table, now: int): Table {
    map id | id in pending && now - pending[id].createdAt < REASSEMBLY_TIMEOUT :: pending[id]
  }

  /** What is waiting for a message once a chunk of it has come in. */
  function Waiting(kept: Table, id: nat, total: nat, now: int): Pending {
    if id in kept then kept[id] else Pending(map[], total, 0, now)
  }

  function Noted(pm: Pending, seqNo: nat, payload: seq<Byte>): Pending {
    if seqNo in pm.chunks then pm
    else pm.(chunks := pm.chunks[seqNo := payload], totalSize := pm.totalSize + |payload|)
  }

  predicate HasAll(chunks: Chunks, n: nat) {
    forall i :: 0 <= i < n ==> i in chunks
  }

  function Joined(chunks: Chunks, n: nat): seq<Byte>
    requires HasAll(chunks, n)
  {
    if n == 0 then [] else Joined(chunks, n - 1) + chunks[n - 1]
  }

  /** The table and the answer after one more frame. */
  function Receive(pending: Table, raw: seq<Byte>, now: int): (Table, Option<seq<Byte>>) {
    var kept := Cleaned(pending, now);
    if !IsChunk(raw) then (kept, Some(raw)) else
      var id := IdOf(raw);
      var pm := Noted(Waiting(kept, id, TotalOf(raw), now), SeqOf(raw), PayloadOf(raw));
      if |pm.chunks| != pm.total then (kept[id := pm], None)
      else if HasAll(pm.chunks, pm.total) then (kept - {id}, Some(Joined(pm.chunks, pm.total)))
      else (kept - {id}, None)
  }

  // Frames are read as they were written

  lemma FrameFields(data: seq<Byte>, id: nat, i: nat)
    requires i < NumChunks(data) && id < Pow256(4)
    ensures var raw := Frame(data, id, i);
      && |raw| == HEADER_SIZE + |Piece(data, i)| && raw[0] == 0 && raw[HEADER_SIZE..] == Piece(data, i)
      && IdOf(raw) == id && SeqOf(raw) == i % 0x1_0000 && TotalOf(raw) == NumChunks(data) % 0x1_0000
      && SizeOf(raw) == |Piece(data, i)|
  {
    hide BigEndian, Value, Piece, NumChunks;
    var raw, n, size := Frame(data, id, i), NumChunks(data), |Piece(data, i)|;
    assert raw[1..5] == BigEndian(id, 4);
    assert raw[5..7] == BigEndian(i, 2);
    assert raw[7..9] == BigEndian(n, 2);
    assert raw[9..11] == BigEndian(size, 2);
    BigEndianFits(id, 4);
    ValueOfBigEndian(i, 2);
    ValueOfBigEndian(n, 2);
    assert Pow256(2) == 0x1_0000;
    BigEndianFits(size, 2);
  }

  /** Where the parts of a frame lie, and how many frames there are. */
  lemma FrameLayout(data: seq<Byte>, id: nat, i: nat)
    requires i < NumChunks(data) && id < Pow256(4)
    ensures var raw, n := Frame(data, id, i), NumChunks(data);
      && (n - 1) * 4096 < |data| <= n * 4096
      && |raw| >= 12 && raw[0] == 0 && Value(raw[1..5]) == id
      && Value(raw[5..7]) == i % 0x1_0000 && Value(raw[7..9]) == n % 0x1_0000 && Value(raw[9..11]) == |raw| - 12
      && raw[11] == (if i == n - 1 then 1 else 0)
      && raw[12..] == data[i * 4096..if i == n - 1 then |data| else i * 4096 + 4096]
  {
    hide BigEndian, Value, Pow256;
    FrameFields(data, id, i);
  }

  /** Which inputs are taken for a chunk, and what is read from one. */
  lemma ReadAsChunkIff(raw: seq<Byte>)
    ensures IsChunk(raw) <==> (
      && |raw| >= 12 && raw[0] == 0 && Value(raw[5..7]) < Value(raw[7..9])
      && |raw| >= 12 + Value(raw[9..11]))
    ensures IsChunk(raw) ==> IdOf(raw) == Value(raw[1..5]) && PayloadOf(raw) == raw[12..12 + Value(raw[9..11])]
  {
    hide Value;
  }

  /** Of a message that waits, the first chunk with a number stays, and the first total. No other input touches it. */
  lemma FirstChunkStays(pending: Table, raw: seq<Byte>, now: int, id: nat)
    requires id in pending && now - pending[id].createdAt < 10_000
    ensures var (after, answer) := Receive(pending, raw, now);
      if IsChunk(raw) && IdOf(raw) == id then
        id in after ==> (
          && after[id].total == pending[id].total && after[id].createdAt == pending[id].createdAt
          && after[id].chunks == (if SeqOf(raw) in pending[id].chunks then pending[id].chunks
                                  else pending[id].chunks[SeqOf(raw) := PayloadOf(raw)]))
      else id in after && after[id] == pending[id] && (!IsChunk(raw) ==> answer == Some(raw))
  {
    hide IsChunk, IdOf, SeqOf, TotalOf, PayloadOf, Joined, HasAll;
  }

  lemma FrameIsChunk(data: seq<Byte>, id: nat, i: nat)
    requires i < NumChunks(data) <= MAX_CHUNKS && id < Pow256(4)
    ensures var raw := Frame(data, id, i);
      IsChunk(raw) && IdOf(raw) == id && SeqOf(raw) == i && TotalOf(raw) == NumChunks(data)
      && PayloadOf(raw) == Piece(data, i)
  {
    hide Frame, IdOf, SeqOf, TotalOf, SizeOf, Piece, NumChunks;
    FrameFields(data, id, i);
  }

  // The pieces make up the payload

  function Pieces(data: seq<Byte>, got: set<nat>): Chunks {
    map i | i in got && i < NumChunks(data) :: Piece(data, i)
  }

  function Everything(n: nat): (s: set<nat>)
    ensures forall i: nat :: i in s <==> i < n
    ensures |s| == n
  {
    if n == 0 then {} else Everything(n - 1) + {n - 1}
  }

  lemma {:induction false} PiecesJoin(data: seq<Byte>, n: nat)
    requires n <= NumChunks(data)
    ensures HasAll(Pieces(data, Everything(NumChunks(data))), n)
    ensures Joined(Pieces(data, Everything(NumChunks(data))), n) == data[..Min(n * CHUNK_SIZE, |data|)]
  {
    if n > 0 {
      PiecesJoin(data, n - 1);
      assert Min((n - 1) * CHUNK_SIZE, |data|) == (n - 1) * CHUNK_SIZE;
    }
  }

  lemma AllPiecesAreTheData(data: seq<Byte>)
    ensures var n := NumChunks(data);
      HasAll(Pieces(data, Everything(n)), n) && Joined(Pieces(data, Everything(n)), n) == data
  {
    PiecesJoin(data, NumChunks(data));
  }

  // Reassembly

  /** Of the message id, exactly the pieces in `got` are waiting since t0. */
  ghost predicate Holding(pending: Table, id: nat, data: seq<Byte>, got: set<nat>, t0: int) {
    if got == {} then id !in pending
    else
      && id in pending && pending[id].chunks == Pieces(data, got) && pending[id].total == NumChunks(data)
      && pending[id].createdAt == t0
  }

  lemma OnePieceNoted(pending: Table, id: nat, data: seq<Byte>, got: set<nat>, t0: int, i: nat, now: int)
    requires i < NumChunks(data) && got < Everything(NumChunks(data)) && Holding(pending, id, data, got, t0)
    requires if got == {} then t0 == now else now - t0 < REASSEMBLY_TIMEOUT
    ensures var pm := Noted(Waiting(Cleaned(pending, now), id, NumChunks(data), now), i, Piece(data, i));
      && pm.chunks == Pieces(data, got + {i}) && pm.total == NumChunks(data) && pm.createdAt == t0
      && (|pm.chunks| == NumChunks(data) <==> got + {i} == Everything(NumChunks(data)))
  {
    hide Piece, NumChunks, Everything;
    var pm := Noted(Waiting(Cleaned(pending, now), id, NumChunks(data), now), i, Piece(data, i));
    assert pm.chunks == Pieces(data, got + {i});
    assert pm.chunks.Keys == got + {i};
    assert |pm.chunks| == |pm.chunks.Keys|;
    SubsetSize(got + {i}, Everything(NumChunks(data)));
  }

  /** One more frame of the message: nothing comes out before the last piece is there, and then the payload does. */
  lemma OnePiece(pending: Table, id: nat, data: seq<Byte>, got: set<nat>, t0: int, i: nat, now: int)
    requires id < Pow256(4) && i < NumChunks(data) <= MAX_CHUNKS
    requires got < Everything(NumChunks(data)) && Holding(pending, id, data, got, t0)
    requires if got == {} then t0 == now else now - t0 < REASSEMBLY_TIMEOUT
    ensures var (after, answer) := Receive(pending, Frame(data, id, i), now);
      if got + {i} == Everything(NumChunks(data)) then answer == Some(data) && id !in after
      else answer == None && Holding(after, id, data, got + {i}, t0)
  {
    hide Frame, IsChunk, IdOf, SeqOf, TotalOf, PayloadOf, Piece, NumChunks, Joined, HasAll, Noted, Pieces, Cleaned,
      Everything;
    FrameIsChunk(data, id, i);
    OnePieceNoted(pending, id, data, got, t0, i, now);
    AllPiecesAreTheData(data);
  }

  /** A frame that is no chunk of the message leaves it alone, as long as it has not waited too long. */
  lemma OtherFrame(pending: Table, id: nat, data: seq<Byte>, got: set<nat>, t0: int, raw: seq<Byte>, now: int)
    requires Holding(pending, id, data, got, t0) && (got == {} || now - t0 < REASSEMBLY_TIMEOUT)
    requires !IsChunk(raw) || IdOf(raw) != id
    ensures Holding(Receive(pending, raw, now).0, id, data, got, t0)
  {
    hide IsChunk, IdOf, SeqOf, TotalOf, PayloadOf, Joined, HasAll, Noted, Pieces, NumChunks;
  }

  /** A chunk of the message id leaves every other message alone, except that stale ones are given up. */
  lemma OtherMessages(pending: Table, raw: seq<Byte>, now: int, other: nat)
    requires IsChunk(raw) && IdOf(raw) != other
    ensures var after := Receive(pending, raw, now).0;
      && (other in after <==> other in pending && now - pending[other].createdAt < REASSEMBLY_TIMEOUT)
      && (other in after ==> after[other] == pending[other])
  {
    hide IsChunk, IdOf, SeqOf, TotalOf, PayloadOf, Joined, HasAll, Noted;
  }

  /** What arrives: a frame of the message under consideration, or something else. */
  datatype Arrival = Mine(i: nat, now: int) | Other(raw: seq<Byte>, now: int)

  function Raw(data: seq<Byte>, id: nat, a: Arrival): seq<Byte>
    requires a.Mine? ==> a.i < NumChunks(data)
  {
    if a.Mine? then Frame(data, id, a.i) else a.raw
  }

  /** Frames of the message in any order, also repeatedly, among frames of any other kind, within the time limit. */
  ghost predicate Mixed(data: seq<Byte>, id: nat, t0: int, arrivals: seq<Arrival>) {
    forall k :: 0 <= k < |arrivals| ==>
      var a := arrivals[k];
      && a.now - t0 < REASSEMBLY_TIMEOUT
      && if a.Mine? then a.i < NumChunks(data) else !IsChunk(a.raw) || IdOf(a.raw) != id
  }

  function Got(arrivals: seq<Arrival>): set<nat> {
    set a | a in arrivals && a.Mine? :: a.i
  }

  /** The table after the arrivals, and the answers given to them. */
  function Feed(pending: Table, data: seq<Byte>, id: nat, arrivals: seq<Arrival>): (r: (Table, seq<Option<seq<Byte>>>))
    requires AllMine(data, arrivals)
    ensures |r.1| == |arrivals|
    decreases |arrivals|
  {
    if arrivals == [] then (pending, []) else
      var before := Feed(pending, data, id, arrivals[..|arrivals| - 1]);
      var last := arrivals[|arrivals| - 1];
      var step := Receive(before.0, Raw(data, id, last), last.now);
      (step.0, before.1 + [step.1])
  }

  /** The first frame of the message starts its clock. */
  ghost predicate StartsAt(arrivals: seq<Arrival>, t0: int) {
    forall k :: 0 <= k < |arrivals| && arrivals[k].Mine? && Got(arrivals[..k]) == {} ==> arrivals[k].now == t0
  }

  ghost predicate AllMine(data: seq<Byte>, arrivals: seq<Arrival>) {
    forall a :: a in arrivals && a.Mine? ==> a.i < NumChunks(data)
  }

  /** Nothing has come out yet for the message, and what has come in is held. */
  ghost predicate StillWaiting(pending: Table, data: seq<Byte>, id: nat, t0: int, arrivals: seq<Arrival>)
    requires AllMine(data, arrivals)
  {
    && Got(arrivals) < Everything(NumChunks(data))
    && Holding(Feed(pending, data, id, arrivals).0, id, data, Got(arrivals), t0)
    && forall k :: 0 <= k < |arrivals| && arrivals[k].Mine? ==> Feed(pending, data, id, arrivals).1[k] == None
  }

  lemma WaitOn(pending: Table, data: seq<Byte>, id: nat, t0: int, front: seq<Arrival>, last: Arrival)
    requires AllMine(data, front) && AllMine(data, front + [last]) && StillWaiting(pending, data, id, t0, front)
    requires Got(front + [last]) < Everything(NumChunks(data))
    requires var step := Receive(Feed(pending, data, id, front).0, Raw(data, id, last), last.now);
      Holding(step.0, id, data, Got(front + [last]), t0) && (last.Mine? ==> step.1 == None)
    ensures StillWaiting(pending, data, id, t0, front + [last])
  {
    hide Receive, NumChunks, Everything, Holding, Got, Raw;
    assert (front + [last])[..|front|] == front;
  }

  lemma {:induction false} WaitsForAll(pending: Table, data: seq<Byte>, id: nat, t0: int, arrivals: seq<Arrival>)
    requires id < Pow256(4) && NumChunks(data) <= MAX_CHUNKS && id !in pending
    requires Mixed(data, id, t0, arrivals) && StartsAt(arrivals, t0)
    requires Got(arrivals) != Everything(NumChunks(data))
    ensures AllMine(data, arrivals) && StillWaiting(pending, data, id, t0, arrivals)
    decreases |arrivals|
  {
    hide Receive, IsChunk, IdOf, NumChunks, Everything, Frame, Holding, Got, Feed, StillWaiting;
    if arrivals == [] {
      NothingArrived(pending, data, id, t0);
    } else {
      var front, last := arrivals[..|arrivals| - 1], arrivals[|arrivals| - 1];
      FrontIsMixed(data, id, t0, arrivals);
      GotGrows(front, last);
      assert arrivals == front + [last];
      GotSome(data, id, t0, front);
      GotSome(data, id, t0, arrivals);
      WaitsForAll(pending, data, id, t0, front);
      HeldSoFar(pending, data, id, t0, front);
      var table := Feed(pending, data, id, front).0;
      if last.Mine? {
        OnePiece(table, id, data, Got(front), t0, last.i, last.now);
      } else {
        OtherFrame(table, id, data, Got(front), t0, last.raw, last.now);
      }
      WaitOn(pending, data, id, t0, front, last);
    }
  }

  lemma NothingArrived(pending: Table, data: seq<Byte>, id: nat, t0: int)
    requires id !in pending && Got([]) != Everything(NumChunks(data))
    ensures StillWaiting(pending, data, id, t0, [])
  {
    hide NumChunks, Everything;
    assert Got([]) == {};
  }

  lemma HeldSoFar(pending: Table, data: seq<Byte>, id: nat, t0: int, arrivals: seq<Arrival>)
    requires AllMine(data, arrivals) && StillWaiting(pending, data, id, t0, arrivals)
    ensures Got(arrivals) < Everything(NumChunks(data))
    ensures Holding(Feed(pending, data, id, arrivals).0, id, data, Got(arrivals), t0)
  {
  }

  /**
   * The frames of a message may arrive in any order, also repeatedly, among frames of other messages: until the last
   * missing one every answer is "not yet", and then the answer is the payload.
   */
  lemma Reassembles(pending: Table, data: seq<Byte>, id: nat, t0: int, arrivals: seq<Arrival>, i: nat, now: int)
    requires id < Pow256(4) && NumChunks(data) <= MAX_CHUNKS && id !in pending
    requires Mixed(data, id, t0, arrivals + [Mine(i, now)]) && StartsAt(arrivals + [Mine(i, now)], t0)
    requires Got(arrivals) != Everything(NumChunks(data)) && Got(arrivals) + {i} == Everything(NumChunks(data))
    ensures AllMine(data, arrivals + [Mine(i, now)])
    ensures var answers := Feed(pending, data, id, arrivals + [Mine(i, now)]).1;
      && answers[|arrivals|] == Some(data)
      && forall k :: 0 <= k < |arrivals| && arrivals[k].Mine? ==> answers[k] == None
    ensures id !in Feed(pending, data, id, arrivals + [Mine(i, now)]).0
  {
    hide Receive, IsChunk, IdOf, NumChunks, Everything, Frame, Holding, Got;
    var all := arrivals + [Mine(i, now)];
    assert all[..|arrivals|] == arrivals && all[|arrivals|] == Mine(i, now);
    FrontIsMixed(data, id, t0, all);
    WaitsForAll(pending, data, id, t0, arrivals);
    HeldSoFar(pending, data, id, t0, arrivals);
    OnePiece(Feed(pending, data, id, arrivals).0, id, data, Got(arrivals), t0, i, now);
  }

  lemma FrontIsMixed(data: seq<Byte>, id: nat, t0: int, arrivals: seq<Arrival>)
    requires Mixed(data, id, t0, arrivals) && StartsAt(arrivals, t0) && arrivals != []
    ensures Mixed(data, id, t0, arrivals[..|arrivals| - 1]) && StartsAt(arrivals[..|arrivals| - 1], t0)
  {
    var front := arrivals[..|arrivals| - 1];
    forall k | 0 <= k < |front| ensures front[..k] == arrivals[..k] { }
  }

  lemma GotGrows(front: seq<Arrival>, last: Arrival)
    ensures Got(front + [last]) == if last.Mine? then Got(front) + {last.i} else Got(front)
  {
    var all := front + [last];
    assert last in all && forall a :: a in front ==> a in all;
  }

  lemma GotSome(data: seq<Byte>, id: nat, t0: int, arrivals: seq<Arrival>)
    requires Mixed(data, id, t0, arrivals)
    ensures Got(arrivals) <= Everything(NumChunks(data))
  {
  }

  // The limits of the format

  lemma {:induction false} JoinedSize(chunks: Chunks, n: nat)
    requires HasAll(chunks, n) && forall i :: i in chunks ==> |chunks[i]| <= CHUNK_SIZE
    ensures |Joined(chunks, n)| <= n * CHUNK_SIZE
  {
    if n > 0 { JoinedSize(chunks, n - 1); }
  }

  /** Of the message id only pieces of the usual size are waiting. */
  ghost predicate Small(pending: Table, id: nat) {
    id in pending ==>
      pending[id].total <= MAX_CHUNKS && forall i :: i in pending[id].chunks ==> |pending[id].chunks[i]| <= CHUNK_SIZE
  }

  lemma SmallAnswer(pending: Table, data: seq<Byte>, id: nat, i: nat, now: int)
    requires id < Pow256(4) && i < NumChunks(data) && Small(pending, id)
    ensures var (after, answer) := Receive(pending, Frame(data, id, i), now);
      Small(after, id) && (answer.Some? ==> |answer.value| <= MAX_CHUNKS * CHUNK_SIZE)
  {
    hide Frame, Piece, NumChunks, Joined, IdOf, SizeOf, TotalOf, SeqOf, HasAll;
    FrameFields(data, id, i);
    var raw, kept := Frame(data, id, i), Cleaned(pending, now);
    assert TotalOf(raw) <= MAX_CHUNKS by { TotalFits(NumChunks(data)); }
    if IsChunk(raw) {
      var pm := Noted(Waiting(kept, id, TotalOf(raw), now), SeqOf(raw), PayloadOf(raw));
      if HasAll(pm.chunks, pm.total) { JoinedSize(pm.chunks, pm.total); }
    }
  }

  lemma TotalFits(n: nat)
    ensures n % 0x1_0000 <= MAX_CHUNKS
  {
  }

  lemma {:induction false} LongPayloadsStaySmall(data: seq<Byte>, id: nat, arrivals: seq<Arrival>)
    requires id < Pow256(4) && AllMine(data, arrivals) && forall a :: a in arrivals ==> a.Mine?
    ensures Small(Feed(map[], data, id, arrivals).0, id)
    ensures forall answer :: answer in Feed(map[], data, id, arrivals).1 && answer.Some? ==>
      |answer.value| <= MAX_CHUNKS * CHUNK_SIZE
    decreases |arrivals|
  {
    hide Small, Receive, NumChunks, Frame;
    if arrivals == [] {
      assert Small(map[], id) by { NothingIsSmall(id); }
    } else {
      var front, last := arrivals[..|arrivals| - 1], arrivals[|arrivals| - 1];
      LongPayloadsStaySmall(data, id, front);
      SmallAnswer(Feed(map[], data, id, front).0, data, id, last.i, last.now);
    }
  }

  lemma NothingIsSmall(id: nat)
    ensures Small(map[], id)
  {
  }

  /** Some way of delivering the frames brings the payload out. */
  ghost predicate CanArrive(data: seq<Byte>, id: nat) {
    exists arrivals: seq<Arrival> ::
      AllMine(data, arrivals) && (forall a :: a in arrivals ==> a.Mine?) && Some(data) in Feed(map[], data, id, arrivals).1
  }

  function InOrder(n: nat): (s: seq<Arrival>)
    ensures |s| == n && Got(s) == Everything(n)
    ensures forall a :: a in s ==> a.Mine? && a.i < n && a.now == 0
    ensures forall k :: 0 <= k < n ==> s[k] == Mine(k, 0)
  {
    if n == 0 then
      assert Got([]) == {};
      []
    else
      GotGrows(InOrder(n - 1), Mine(n - 1, 0));
      InOrder(n - 1) + [Mine(n - 1, 0)]
  }

  /** The header counts up to 65535 chunks; what needs more is sent, but never put together again. */
  lemma ArrivesIff(data: seq<Byte>, id: nat)
    requires |data| > CHUNK_SIZE && id < Pow256(4)
    ensures CanArrive(data, id) <==> |data| <= MAX_CHUNKS * CHUNK_SIZE
  {
    if CanArrive(data, id) {
      var arrivals: seq<Arrival> :|
        AllMine(data, arrivals) && (forall a :: a in arrivals ==> a.Mine?) && Some(data) in Feed(map[], data, id, arrivals).1;
      LongPayloadsStaySmall(data, id, arrivals);
    }
    if |data| <= MAX_CHUNKS * CHUNK_SIZE { ArrivesInOrder(data, id); }
  }

  lemma ArrivesInOrder(data: seq<Byte>, id: nat)
    requires CHUNK_SIZE < |data| <= MAX_CHUNKS * CHUNK_SIZE && id < Pow256(4)
    ensures CanArrive(data, id)
  {
    hide Feed, Frame, IsChunk, IdOf, Everything, InOrder;
    var n := NumChunks(data);
    assert 0 < n <= MAX_CHUNKS;
    var arrivals := InOrder(n - 1);
    var all := arrivals + [Mine(n - 1, 0)];
    assert Mixed(data, id, 0, all);
    assert StartsAt(all, 0);
    assert Got(arrivals) != Everything(n) by { assert n - 1 !in Got(arrivals); }
    assert Got(arrivals) + {n - 1} == Everything(n);
    Reassembles(map[], data, id, 0, arrivals, n - 1, 0);
    assert forall a :: a in all ==> a.Mine?;
  }

  /** A short payload is sent as it is, and comes out at once exactly if it does not look like a chunk. */
  lemma ShortPayloadArrivesIff(data: seq<Byte>, now: int)
    ensures Receive(map[], data, now) == (map[], Some(data)) <==> !IsChunk(data)
    ensures data != [] && data[0] != 0 ==> !IsChunk(data)
  {
    hide SeqOf, TotalOf, SizeOf, IdOf;
    if IsChunk(data) {
      var pm := Noted(Pending(map[], TotalOf(data), 0, now), SeqOf(data), PayloadOf(data));
      if HasAll(pm.chunks, pm.total) && |pm.chunks| == pm.total {
        assert pm.total == 1 && SeqOf(data) == 0;
        assert Joined(pm.chunks, 1) == Joined(pm.chunks, 0) + PayloadOf(data);
      }
    }
  }
}
