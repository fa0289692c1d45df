/** The sender that cuts payloads into chunks and the receiver that puts them together again, over byte buffers. */
module ChunkedStream {
  import opened Sets
  import opened Wrappers
  import opened Bytes
  import opened Chunked

  /** copy_from_slice into a part of the buffer. */
  method CopyInto(buf: array<Byte>, at: nat, src: seq<Byte>)
    requires at + |src| <= buf.Length
    modifies buf
    ensures buf[..at + |src|] == old(buf[..at]) + src && buf[at + |src|..] == old(buf[at + |src|..])
  {
    for i := 0 to |src|
      invariant buf[..at] == old(buf[..at]) && buf[at + |src|..] == old(buf[at + |src|..])
      invariant forall k :: 0 <= k < i ==> buf[at + k] == src[k]
    {
      buf[at + i] := src[i];
    }
  }

  function Frames(data: seq<Byte>, id: nat): (frames: seq<seq<Byte>>)
    ensures |frames| == NumChunks(data)
  {
    seq(NumChunks(data), i requires 0 <= i < NumChunks(data) => Frame(data, id, i))
  }

  class ChunkedSender {
    var msgCounter: nat

    constructor ()
      ensures msgCounter == 0
    {
      msgCounter := 0;
    }

    /** Short payloads go as they are; longer ones in numbered chunks under the next message id, which wraps around. */
    method Encode(data: seq<Byte>) returns (chunks: seq<seq<Byte>>)
      requires msgCounter < 0x1_0000_0000
      modifies this
      ensures |data| <= 4096 ==> chunks == [data] && msgCounter == old(msgCounter)
      ensures |data| > 4096 ==>
        chunks == Frames(data, old(msgCounter)) && msgCounter == (old(msgCounter) + 1) % 0x1_0000_0000
      ensures msgCounter < 0x1_0000_0000
    {
      if |data| <= CHUNK_SIZE { return [data]; }
      var msgId := msgCounter;
      msgCounter := (msgCounter + 1) % 0x1_0000_0000;
      var totalChunks := NumChunks(data);
      chunks := [];
      for seqNo := 0 to totalChunks
        invariant chunks == Frames(data, msgId)[..seqNo]
        invariant msgCounter == (msgId + 1) % 0x1_0000_0000
      {
        var chunk := WriteChunk(data, msgId, seqNo);
        assert Frames(data, msgId)[..seqNo + 1] == Frames(data, msgId)[..seqNo] + [Frame(data, msgId, seqNo)];
        chunks := chunks + [chunk];
      }
    }

    method WriteChunk(data: seq<Byte>, msgId: nat, seqNo: nat) returns (chunk: seq<Byte>)
      requires seqNo < NumChunks(data)
      ensures chunk == Frame(data, msgId, seqNo)
    {
      hide BigEndian, Piece, NumChunks;
      var total, payload := NumChunks(data), Piece(data, seqNo);
      var buf := new Byte[HEADER_SIZE + |payload|](_ => 0);
      assert buf[..1] == [0];
      CopyInto(buf, 1, BigEndian(msgId, 4));
      CopyInto(buf, 5, BigEndian(seqNo, 2));
      CopyInto(buf, 7, BigEndian(total, 2));
      CopyInto(buf, 9, BigEndian(|payload|, 2));
      assert buf[..11] == [0] + BigEndian(msgId, 4) + BigEndian(seqNo, 2) + BigEndian(total, 2) + BigEndian(|payload|, 2);
      ghost var fields := buf[..11];
      if seqNo + 1 == total { buf[11] := 1; } else { buf[11] := 0; }
      assert buf[..12] == fields + [buf[11]];
      assert buf[..12] == Header(msgId, seqNo, total, |payload|);
      CopyInto(buf, HEADER_SIZE, payload);
      chunk := buf[..];
    }
  }

  /** How much the first n chunks hold together. */
  function Size(chunks: Chunks, n: nat): nat {
    if n == 0 then 0 else Size(chunks, n - 1) + if n - 1 in chunks then |chunks[n - 1]| else 0
  }

  lemma {:induction false} SizeGrows(chunks: Chunks, n: nat, m: nat)
    requires n <= m
    ensures Size(chunks, n) <= Size(chunks, m)
    ensures (forall i :: i in chunks ==> i < n) ==> Size(chunks, n) == Size(chunks, m)
    decreases m
  {
    if n < m { SizeGrows(chunks, n, m - 1); }
  }

  lemma {:induction false} SizeOfMore(chunks: Chunks, k: nat, payload: seq<Byte>, n: nat)
    requires k !in chunks
    ensures Size(chunks[k := payload], n) == Size(chunks, n) + if k < n then |payload| else 0
  {
    if n > 0 { SizeOfMore(chunks, k, payload, n - 1); }
  }

  lemma {:induction false} JoinedIsAsLong(chunks: Chunks, n: nat)
    requires HasAll(chunks, n)
    ensures |Joined(chunks, n)| == Size(chunks, n)
  {
    if n > 0 { JoinedIsAsLong(chunks, n - 1); }
  }

  /** The size a message declares is that of its chunks, which are numbered by two bytes. */
  ghost predicate MessageOk(pm: Pending) {
    pm.totalSize == Size(pm.chunks, 0x1_0000) && forall i :: i in pm.chunks ==> i < 0x1_0000
  }

  ghost predicate TableOk(pending: Table) {
    forall id :: id in pending ==> MessageOk(pending[id])
  }

  lemma NotedOk(pm: Pending, seqNo: nat, payload: seq<Byte>)
    requires MessageOk(pm) && seqNo < 0x1_0000
    ensures MessageOk(Noted(pm, seqNo, payload))
  {
    if seqNo !in pm.chunks { SizeOfMore(pm.chunks, seqNo, payload, 0x1_0000); }
  }

  lemma {:induction false} SizeOfNothing(n: nat)
    ensures Size(map[], n) == 0
  {
    if n > 0 { SizeOfNothing(n - 1); }
  }

  lemma SeqFits(raw: seq<Byte>)
    requires |raw| >= HEADER_SIZE
    ensures SeqOf(raw) < 0x1_0000 && TotalOf(raw) < 0x1_0000
  {
    ValueBound(raw[5..7]);
    ValueBound(raw[7..9]);
    assert Pow256(2) == 0x1_0000;
  }

  lemma CleanedOk(pending: Table, now: int)
    requires TableOk(pending)
    ensures TableOk(Cleaned(pending, now))
  {
  }

  /** When the numbers are complete there is nothing besides: the buffer is filled exactly. */
  lemma CompleteFills(pm: Pending)
    requires MessageOk(pm) && |pm.chunks| == pm.total && HasAll(pm.chunks, pm.total)
    ensures pm.totalSize == Size(pm.chunks, pm.total)
  {
    var n := pm.total;
    assert Everything(n) <= pm.chunks.Keys;
    assert |pm.chunks| == |pm.chunks.Keys|;
    SubsetSize(Everything(n), pm.chunks.Keys);
    assert n == 0 || n - 1 in pm.chunks;
    SizeGrows(pm.chunks, n, 0x1_0000);
  }

  class ChunkedReceiver {
    var pending: Table

    constructor ()
      ensures pending == map[] && TableOk(pending)
    {
      pending := map[];
    }

    method Cleanup(now: int)
      modifies this
      ensures pending == Cleaned(old(pending), now)
      ensures forall id :: id in pending <==> id in old(pending) && now - old(pending)[id].createdAt < 10_000
      ensures forall id :: id in pending ==> pending[id] == old(pending)[id]
    {
      var todo := pending.Keys;
      while todo != {}
        invariant todo <= pending.Keys <= old(pending.Keys)
        invariant forall id :: id in old(pending) ==>
          (id in pending <==> id in todo || now - old(pending)[id].createdAt < REASSEMBLY_TIMEOUT)
          && (id in pending ==> pending[id] == old(pending)[id])
      {
        var id :| id in todo;
        if now - pending[id].createdAt >= REASSEMBLY_TIMEOUT { pending := pending - {id}; }
        todo := todo - {id};
      }
    }

    method Receive(raw: seq<Byte>, now: int) returns (answer: Option<seq<Byte>>)
      requires TableOk(pending)
      modifies this
      ensures (pending, answer) == Chunked.Receive(old(pending), raw, now)
      ensures TableOk(pending)
    {
      hide IdOf, SeqOf, TotalOf, SizeOf, MessageOk, Joined, Cleaned, Noted;
      Cleanup(now);
      CleanedOk(old(pending), now);
      if |raw| < HEADER_SIZE { return Some(raw); }
      if raw[0] != 0 { return Some(raw); }
      var msgId, seqNo, total, size := IdOf(raw), SeqOf(raw), TotalOf(raw), SizeOf(raw);
      if total == 0 || seqNo >= total { return Some(raw); }
      if |raw| < HEADER_SIZE + size { return Some(raw); }
      var payload := raw[HEADER_SIZE..HEADER_SIZE + size];
      SeqFits(raw);
      WaitingOk(pending, msgId, total, now);
      var pm := Waiting(pending, msgId, total, now);
      NotedOk(pm, seqNo, payload);
      pm := Noted(pm, seqNo, payload);
      pending := pending[msgId := pm];
      if |pm.chunks| == pm.total {
        answer := Assemble(pm);
        pending := pending - {msgId};
        assert pending == Cleaned(old(pending), now) - {msgId};
      } else {
        answer := None;
      }
    }

    /** Copy the chunks one behind the other into a buffer of the declared size. */
    method Assemble(pm: Pending) returns (answer: Option<seq<Byte>>)
      requires MessageOk(pm) && |pm.chunks| == pm.total
      ensures answer == if HasAll(pm.chunks, pm.total) then Some(Joined(pm.chunks, pm.total)) else None
    {
      var assembled := new Byte[pm.totalSize](_ => 0);
      var offset := 0;
      for i := 0 to pm.total
        invariant HasAll(pm.chunks, i) && offset == Size(pm.chunks, i) <= assembled.Length
        invariant assembled[..offset] == Joined(pm.chunks, i)
      {
        if i !in pm.chunks { return None; }
        assert i < 0x1_0000;
        SizeGrows(pm.chunks, i + 1, 0x1_0000);
        CopyInto(assembled, offset, pm.chunks[i]);
        offset := offset + |pm.chunks[i]|;
      }
      CompleteFills(pm);
      assert assembled[..offset] == assembled[..];
      return Some(assembled[..]);
    }
  }

  lemma WaitingOk(kept: Table, id: nat, total: nat, now: int)
    requires TableOk(kept)
    ensures MessageOk(Waiting(kept, id, total, now))
  {
    SizeOfNothing(0x1_0000);
  }
}
