/**
 parse_drm_ioctl_radeon_cs as the helper runs it: a cursor over the received buffer,
 local arrays whose pointers are overwritten in place for the driver and restored
 afterwards, and a list of ranges filled from its end through falling-through labels.
 */
module RadeonCsParser {
  import opened Bytes
  import opened Memory
  import opened Kernel
  import opened RadeonCs
  import opened RadeonCsTransparency

  /** The loop that points chunk_ptrs at the local chunk structs and keeps the client's pointers. */
  method RewritePtrs(h: Helper, ptrs: array<Word>, n: nat) returns (realPtrs: array<Word>)
    requires h.Valid() && n <= MAX_CHUNKS && n <= ptrs.Length
    modifies ptrs
    ensures fresh(realPtrs) && realPtrs[..] == old(ptrs[..n])
    ensures ptrs[..n] == NewPtrs(h, n)
  {
    hide Encode;
    realPtrs := new Word[n](i => seq(8, _ => 0));
    for i := 0 to n
      invariant forall j | 0 <= j < i :: realPtrs[j] == old(ptrs[j]) && ptrs[j] == Encode(h.chunks + 16 * j, 8)
      invariant forall j | i <= j < n :: ptrs[j] == old(ptrs[j])
    {
      realPtrs[i] := ptrs[i];
      ptrs[i] := Encode(h.chunks + 16 * i, 8);
    }
  }

  /** The loop that hands out the scratch area to the chunks and keeps the client's data pointers. */
  method RewriteDatas(h: Helper, chunks: array<Chunk>, n: nat) returns (realDatas: array<U64>)
    requires n <= chunks.Length
    modifies chunks
    ensures fresh(realDatas) && realDatas.Length == n
    ensures chunks[..n] == NewChunks(h, old(chunks[..n]))
    ensures forall i | 0 <= i < n :: realDatas[i] == DataPtr(old(chunks[i]))
  {
    hide Start, Put, Get64;
    ghost var was := chunks[..n];
    realDatas := new U64[n](i => 0);
    var pos := 0;
    StartZero(was);
    for i := 0 to n
      invariant pos == Start(was, i)
      invariant forall j | 0 <= j < i :: realDatas[j] == DataPtr(was[j])
      invariant forall j | 0 <= j < i :: chunks[j] == WithDataPtr(was[j], h.data + Start(was, j))
      invariant forall j | i <= j < n :: chunks[j] == was[j]
    {
      realDatas[i] := DataPtr(chunks[i]);
      chunks[i] := WithDataPtr(chunks[i], h.data + pos);
      StartStep(was, i);
      SameLength(was[i], h.data + pos);
      pos := pos + DataBytes(chunks[i]);
    }
  }

  lemma StartZero(chunks: seq<Chunk>)
    ensures Start(chunks, 0) == 0
  {
  }

  lemma SameLength(c: Chunk, p: nat)
    ensures DataBytes(WithDataPtr(c, p)) == DataBytes(c)
  {
    GetPutOther(c, 8, 8, p, 4, 4);
  }

  lemma DataPtrBack(c: Chunk, p: nat)
    ensures WithDataPtr(WithDataPtr(c, p), DataPtr(c)) == c
  {
    PutBack(c, 8, 8, p);
  }

  /** The two loops that restore the client's pointers invert the two above. */
  method RestorePointers(h: Helper, ptrs: array<Word>, chunks: array<Chunk>,
                         realPtrs: array<Word>, realDatas: array<U64>, n: nat, ghost was: seq<Chunk>)
    requires n <= ptrs.Length && n <= chunks.Length && n == realPtrs.Length == realDatas.Length == |was|
    requires ptrs != realPtrs
    requires chunks[..n] == NewChunks(h, was)
    requires forall i | 0 <= i < n :: realDatas[i] == DataPtr(was[i])
    modifies ptrs, chunks
    ensures chunks[..n] == was && ptrs[..n] == realPtrs[..]
  {
    hide Start, Put, Get64;
    assert forall j | 0 <= j < n :: chunks[j] == WithDataPtr(was[j], h.data + Start(was, j)) by {
      forall j | 0 <= j < n
        ensures chunks[j] == WithDataPtr(was[j], h.data + Start(was, j))
      {
        assert chunks[j] == chunks[..n][j];
      }
    }
    for i := 0 to n
      invariant forall j | 0 <= j < i :: chunks[j] == was[j]
      invariant forall j | i <= j < n :: chunks[j] == WithDataPtr(was[j], h.data + Start(was, j))
    {
      DataPtrBack(was[i], h.data + Start(was, i));
      chunks[i] := WithDataPtr(chunks[i], realDatas[i]);
    }
    for i := 0 to n
      invariant forall j | 0 <= j < i :: ptrs[j] == realPtrs[j]
      invariant chunks[..n] == was
    {
      ptrs[i] := realPtrs[i];
    }
  }

  /** Label checkpoint_3. */
  method PutDataIovs(fiov: array<Iov>, chunks: seq<Chunk>, n: nat)
    requires |chunks| == n && fiov.Length >= 2 + 2 * n
    modifies fiov
    ensures fiov[2 + n..2 + 2 * n] == DataIovs(chunks)
  {
    for i := 0 to n
      invariant forall j | 0 <= j < i :: fiov[2 + n + j] == DataIovs(chunks)[j]
    {
      fiov[2 + n + i] := Iov(DataPtr(chunks[i]), DataBytes(chunks[i]));
    }
  }

  /** Label checkpoint_2. */
  method PutChunkIovs(fiov: array<Iov>, ptrs: seq<Word>, n: nat)
    requires |ptrs| == n && fiov.Length >= 2 + 2 * n
    modifies fiov
    ensures fiov[2..2 + n] == ChunkIovs(ptrs)
    ensures fiov[2 + n..2 + 2 * n] == old(fiov[2 + n..2 + 2 * n])
  {
    for i := 0 to n
      invariant forall j | 0 <= j < i :: fiov[2 + j] == ChunkIovs(ptrs)[j]
      invariant fiov[2 + n..2 + 2 * n] == old(fiov[2 + n..2 + 2 * n])
    {
      fiov[2 + i] := Iov(Address(ptrs[i]), CHUNK_SIZE);
    }
  }

  /** The labels checkpoint_3 down to checkpoint_0: the stage entered falls through the rest. */
  method FillIovs(arg: int, cs: Cs, ptrs: seq<Word>, chunks: seq<Chunk>, stage: nat)
    returns (reply: Reply)
    requires stage <= 3
    requires stage >= 2 ==> |ptrs| == NumChunks(cs) <= MAX_CHUNKS
    requires stage >= 3 ==> |chunks| == NumChunks(cs)
    ensures reply == Retry(
      CsIovs(arg) + (if stage >= 1 then PtrIovs(cs) else [])
      + (if stage >= 2 then ChunkIovs(ptrs) else []) + (if stage >= 3 then DataIovs(chunks) else []),
      if stage >= 3 then 1 else 0)
  {
    hide Get32, Get64, DataIovs, ChunkIovs, DataPtr, DataBytes, ChunksPtr;
    var fiov := new Iov[2 + 2 * MAX_CHUNKS](i => Iov(0, 0));
    var nIovs, lastRetry := 0, 0;
    var n: nat := NumChunks(cs);
    if stage >= 3 {
      lastRetry := 1;
      PutDataIovs(fiov, chunks, n);
      nIovs := nIovs + n;
    }
    if stage >= 2 {
      PutChunkIovs(fiov, ptrs, n);
      nIovs := nIovs + n;
    }
    ghost var behind := fiov[2..];
    Slice(fiov[..], behind, 2, 2 + n, 0);
    Slice(fiov[..], behind, 2 + n, 2 + 2 * n, n);
    if stage >= 1 {
      fiov[1] := Iov(ChunksPtr(cs), PtrBytes(n));
      nIovs := nIovs + 1;
    }
    fiov[0] := Iov(arg, CS_SIZE);
    nIovs := nIovs + 1;
    assert fiov[2..] == behind;
    IovsJoined(fiov[..], behind, n);
    assert fiov[..][..nIovs] == fiov[..nIovs];
    reply := Retry(fiov[..nIovs], lastRetry);
  }

  lemma Slice(f: seq<Iov>, behind: seq<Iov>, lo: nat, hi: nat, k: nat)
    requires |f| >= 2 && behind == f[2..] && lo == k + 2
    ensures lo <= hi <= |f| ==> f[lo..hi] == behind[k..k + hi - lo]
  {
  }

  lemma IovsJoined(f: seq<Iov>, behind: seq<Iov>, n: nat)
    requires |f| >= 2 && behind == f[2..]
    ensures f[..1] == [f[0]] && f[..2] == [f[0]] + [f[1]]
    ensures n <= |behind| ==> f[..2 + n] == [f[0]] + [f[1]] + behind[..n]
    ensures 2 * n <= |behind| ==> f[..2 + n + n] == [f[0]] + [f[1]] + behind[..n] + behind[n..2 * n]
  {
  }

  lemma DriverKeepsCount(drv: Driver, m: Mem, a: int)
    requires Mapped(m, a, 32)
    ensures var m' := RunDriver(drv, m, a).1;
      Mapped(m', a, 32) && NumChunks(Read(m', a, 32)) == NumChunks(Read(m, a, 32))
  {
    hide Fetch, Reachable, Put;
    if Reachable(m, a) {
      var cs: Cs := Read(m, a, 32);
      var v := drv(Fetch(m, a));
      ReadWritten(m, a, Answer(cs, v));
      AnswerKeeps(cs, v);
    }
  }

  /** Everything is there: rewrite, run the driver, restore, and put the locals back in the buffer. */
  method Submit(drv: Driver, h: Helper, cs: Cs, ptrs: array<Word>, chunks: array<Chunk>, n: nat,
                data: seq<Byte>, buf: array<Byte>)
    returns (reply: Reply)
    requires h.Valid() && n == NumChunks(cs) <= MAX_CHUNKS && n <= ptrs.Length && n <= chunks.Length
    requires |data| <= SCRATCH_SIZE
    requires buf[..] == Assemble(cs, ptrs[..n], chunks[..n], data)
    modifies ptrs, chunks, buf
    ensures reply == Process(drv, h, cs, old(chunks[..n]), data)
    ensures |reply.payload| == 32 && buf[..] == reply.payload + old(buf[32..])
    ensures ptrs[..n] == old(ptrs[..n]) && chunks[..n] == old(chunks[..n])
  {
    hide Flatten, Start, Put, Encode, Get32, Get64, RunDriver, Helper.Image;
    ghost var p0, k0 := ptrs[..n], chunks[..n];
    var realPtrs := RewritePtrs(h, ptrs, n);
    var realDatas := RewriteDatas(h, chunks, n);
    var image := h.Image(WithChunksPtr(cs, h.ptrs), ptrs[..n], chunks[..n], data);
    ImageReads(h, WithChunksPtr(cs, h.ptrs), ptrs[..n], chunks[..n], data);
    RewrittenCs(cs, h.ptrs);
    DriverKeepsCount(drv, image, h.cs);
    var (status, image') := RunDriver(drv, image, h.cs);
    var after: Cs := Read(image', h.cs, 32);
    RestorePointers(h, ptrs, chunks, realPtrs, realDatas, NumChunks(after), k0);
    assert ptrs[..n] == p0 && chunks[..n] == k0;
    after := WithChunksPtr(after, ChunksPtr(cs));
    WriteBack(buf, after, cs, ptrs[..n], chunks[..n], data);
    reply := Final(LibcResult(status), buf[..32]);
  }

  /** The locals return to the places in the buffer they were loaded from. */
  method WriteBack(buf: array<Byte>, after: Cs, ghost cs: Cs, ptrs: seq<Word>, chunks: seq<Chunk>, data: seq<Byte>)
    requires buf[..] == Assemble(cs, ptrs, chunks, data)
    modifies buf
    ensures buf[..] == after + old(buf[32..])
  {
    hide Flatten;
    var p, k := Flatten(ptrs), Flatten(chunks);
    CopyInto(buf, 32 + |p| + |k|, data);
    assert buf[..] == Assemble(cs, ptrs, chunks, data);
    CopyInto(buf, 32 + |p|, k);
    assert buf[..] == Assemble(cs, ptrs, chunks, data);
    CopyInto(buf, 32, p);
    assert buf[..] == Assemble(cs, ptrs, chunks, data);
    CopyInto(buf, 0, after);
  }

  /** memcpy into the local arrays. */
  method LoadPtrs(b: seq<Byte>, n: nat) returns (ptrs: array<Word>)
    requires |b| == 8 * n && n <= MAX_CHUNKS
    ensures fresh(ptrs) && ptrs.Length == MAX_CHUNKS
    ensures ptrs[..n] == Split(b, 8)
  {
    hide Split;
    ptrs := new Word[MAX_CHUNKS](i => seq(8, _ => 0));
    SplitCount(b, 8, n);
    for i := 0 to n
      invariant forall j | 0 <= j < i :: ptrs[j] == Split(b, 8)[j]
    {
      SplitElement(b, 8, i);
      ptrs[i] := b[8 * i..8 * i + 8];
    }
  }

  method LoadChunks(b: seq<Byte>, n: nat) returns (chunks: array<Chunk>)
    requires |b| == 16 * n && n <= MAX_CHUNKS
    ensures fresh(chunks) && chunks.Length == MAX_CHUNKS
    ensures chunks[..n] == Split(b, 16)
  {
    hide Split;
    chunks := new Chunk[MAX_CHUNKS](i => seq(16, _ => 0));
    SplitCount(b, 16, n);
    for i := 0 to n
      invariant forall j | 0 <= j < i :: chunks[j] == Split(b, 16)[j]
    {
      SplitElement(b, 16, i);
      chunks[i] := b[16 * i..16 * i + 16];
    }
  }

  /** The loop that sums the data lengths. */
  method SumData(chunks: array<Chunk>, n: nat) returns (size: nat)
    requires n <= chunks.Length
    ensures size == DataTotal(chunks[..n])
  {
    hide Start, Get32;
    size := 0;
    StartZero(chunks[..n]);
    for i := 0 to n
      invariant size == Start(chunks[..n], i)
    {
      StartStep(chunks[..n], i);
      size := size + DataBytes(chunks[i]);
    }
  }

  lemma BufferParts(buf: seq<Byte>)
    requires |buf| >= 32 && |buf| >= 32 + 24 * NumChunks(CsOf(buf))
    ensures buf == Assemble(CsOf(buf), PtrsOf(buf), ChunksOf(buf), DataOf(buf))
  {
    hide Flatten, Split, Get32;
    var n: nat := NumChunks(CsOf(buf));
    FlattenSplit(buf[32..32 + 8 * n], 8, n);
    FlattenSplit(buf[32 + 8 * n..32 + 24 * n], 16, n);
  }

  /** The call from the third memcpy on. */
  method ParseChunks(drv: Driver, h: Helper, arg: int, cs: Cs, ptrs: array<Word>,
                     buf: array<Byte>, pos: nat, outsize: nat)
    returns (reply: Reply)
    requires h.Valid() && NumChunks(cs) <= MAX_CHUNKS && ptrs.Length == MAX_CHUNKS
    requires pos == 32 + 8 * NumChunks(cs) && pos + 16 * NumChunks(cs) <= buf.Length
    requires cs == CsOf(buf[..]) && ptrs[..NumChunks(cs)] == PtrsOf(buf[..])
    requires |DataOf(buf[..])| == 0 || |DataOf(buf[..])| == DataTotal(ChunksOf(buf[..]))
    modifies buf, ptrs
    ensures reply == ChunksReply(drv, h, arg, cs, old(ptrs[..NumChunks(cs)]), ChunksOf(old(buf[..])),
                                 DataOf(old(buf[..])), old(buf[..]), outsize)
    ensures buf[32..] == old(buf[32..])
    ensures reply.Retry? ==> buf[..] == old(buf[..])
  {
    hide Flatten, Split, Start, Get32, Process, DataIovs, ChunkIovs, PtrIovs, CsIovs, Assemble;
    ghost var b := buf[..];
    var n: nat := NumChunks(cs);
    var chunks := LoadChunks(buf[pos..pos + 16 * n], n);
    assert buf[pos..pos + 16 * n] == b[32 + 8 * n..32 + 24 * n];
    assert chunks[..n] == ChunksOf(b);
    var len := buf.Length - (pos + 16 * n);
    var size := SumData(chunks, n);
    if size != 0 && len == 0 {
      reply := FillIovs(arg, cs, ptrs[..n], chunks[..n], 3);
    } else if size > SCRATCH_SIZE {
      reply := Final(EINVAL, buf[..]);
    } else {
      var data := buf[pos + 16 * n..pos + 16 * n + size];
      assert data == DataOf(b);
      if outsize == 0 {
        reply := FillIovs(arg, cs, ptrs[..n], chunks[..n], 3);
      } else {
        BufferParts(b);
        reply := Submit(drv, h, cs, ptrs, chunks, n, data, buf);
      }
    }
  }

  /**
   One call.  The reply is the specified one, and in place the buffer keeps every byte
   behind the cs struct: what was rewritten for the driver is restored.
   */
  method ParseDrmIoctlRadeonCs(drv: Driver, h: Helper, arg: int, buf: array<Byte>, outsize: nat)
    returns (reply: Reply)
    requires h.Valid() && WellFormed(buf[..])
    modifies buf
    ensures reply == CsReply(drv, h, arg, old(buf[..]), outsize)
    ensures buf.Length >= 32 ==> buf[32..] == old(buf[32..])
    ensures reply.Retry? ==> buf[..] == old(buf[..])
  {
    hide Flatten, Split, Start, Get32, Process, DataIovs, ChunkIovs, PtrIovs, CsIovs, ChunksReply;
    var len := buf.Length;
    if len == 0 {
      reply := FillIovs(arg, seq(32, _ => 0), [], [], 0);
      return;
    }
    var cs: Cs := buf[..32];
    assert cs == CsOf(buf[..]);
    var pos := CS_SIZE;
    len := len - CS_SIZE;
    var n: nat := NumChunks(cs);
    if n != 0 && len == 0 {
      reply := FillIovs(arg, cs, [], [], 1);
      return;
    }
    if n > MAX_CHUNKS {
      reply := Final(EINVAL, buf[..]);
      return;
    }
    var ptrs := LoadPtrs(buf[pos..pos + 8 * n], n);
    assert buf[pos..pos + 8 * n] == buf[..][32..32 + 8 * n];
    pos, len := pos + 8 * n, len - 8 * n;
    if n != 0 && len == 0 {
      reply := FillIovs(arg, cs, ptrs[..n], [], 2);
      return;
    }
    reply := ParseChunks(drv, h, arg, cs, ptrs, buf, pos, outsize);
  }
}
