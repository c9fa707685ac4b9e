/**
 The proxied RADEON_CS ioctl is the direct one: the structure reached through the
 rewritten pointers is the client's, and the whole run of rounds ends with the status
 and the client memory that the driver would have produced on client memory itself.
 */
module RadeonCsTransparency {
  import opened Bytes
  import opened Memory
  import opened Kernel
  import opened RadeonCs

  // ----- blocks of the gathered buffer -----

  /** The lengths of the data blocks add up to the prefix sums of the chunk structs. */
  lemma {:induction false} StartIsOffset(m: Mem, chunks: seq<Chunk>, i: nat)
    requires AllMapped(m, DataIovs(chunks)) && i <= |chunks|
    ensures Offset(Pieces(m, DataIovs(chunks)), i) == Start(chunks, i)
  {
    if i > 0 {
      PiecesTail(m, DataIovs(chunks));
      assert DataIovs(chunks)[1..] == DataIovs(chunks[1..]);
      StartIsOffset(m, chunks[1..], i - 1);
    }
  }

  /** The data of chunk i lies in the gathered data at Start(chunks, i). */
  lemma DataSlice(m: Mem, chunks: seq<Chunk>, i: nat)
    requires AllMapped(m, DataIovs(chunks)) && i < |chunks|
    ensures Start(chunks, i) <= Start(chunks, i + 1) <= |Gather(m, DataIovs(chunks))| == DataTotal(chunks)
    ensures Mapped(m, DataPtr(chunks[i]), DataBytes(chunks[i]))
    ensures Gather(m, DataIovs(chunks))[Start(chunks, i)..Start(chunks, i + 1)]
         == Read(m, DataPtr(chunks[i]), DataBytes(chunks[i]))
  {
    hide Decode, Start, Flatten, Offset;
    var pieces := Pieces(m, DataIovs(chunks));
    FlattenSlice(pieces, i);
    StartIsOffset(m, chunks, i);
    StartIsOffset(m, chunks, i + 1);
    GatherLength(m, DataIovs(chunks));
    DataIovsTotal(chunks);
    assert DataIovs(chunks)[i] in DataIovs(chunks);
  }

  // ----- the image of the helper's locals -----

  /** What the driver reads in the helper's memory. */
  lemma ImageReads(h: Helper, c: Cs, p: seq<Word>, k: seq<Chunk>, d: seq<Byte>)
    requires h.Valid() && |p| == |k| <= MAX_CHUNKS && |d| <= SCRATCH_SIZE
    ensures var m := h.Image(c, p, k, d);
      && Mapped(m, h.cs, 32) && Read(m, h.cs, 32) == c
      && Mapped(m, h.ptrs, 8 * |p|) && Read(m, h.ptrs, 8 * |p|) == Flatten(p)
      && Mapped(m, h.chunks, 16 * |k|) && Read(m, h.chunks, 16 * |k|) == Flatten(k)
      && Mapped(m, h.data, |d|) && Read(m, h.data, |d|) == d
  {
    FlattenLength(p);
    FlattenLength(k);
    OffsetUniform(p, 8, |p|);
    OffsetUniform(k, 16, |k|);
    var m1 := Write(h.rest, h.data, d);
    var m2 := Write(m1, h.chunks, Flatten(k));
    var m3 := Write(m2, h.ptrs, Flatten(p));
    ReadWritten(h.rest, h.data, d);
    ReadWritten(m1, h.chunks, Flatten(k));
    ReadApart(m1, h.chunks, Flatten(k), h.data, |d|);
    ReadWritten(m2, h.ptrs, Flatten(p));
    ReadApart(m2, h.ptrs, Flatten(p), h.data, |d|);
    ReadApart(m2, h.ptrs, Flatten(p), h.chunks, 16 * |k|);
    ReadWritten(m3, h.cs, c);
    ReadApart(m3, h.cs, c, h.data, |d|);
    ReadApart(m3, h.cs, c, h.chunks, 16 * |k|);
    ReadApart(m3, h.cs, c, h.ptrs, 8 * |p|);
  }

  lemma NewPtr(h: Helper, n: nat, i: nat)
    requires h.Valid() && i < n <= MAX_CHUNKS
    ensures Address(NewPtrs(h, n)[i]) == h.chunks + 16 * i
  {
    WordBounds();
    DecodeEncode(h.chunks + 16 * i, 8);
    var w := NewPtrs(h, n)[i];
    assert w[0..8] == w;
  }

  /** Chunk struct i of the image sits where pointer i of the image says. */
  lemma ImageChunk(h: Helper, m: Mem, k: seq<Chunk>, i: nat)
    requires i < |k|
    requires Mapped(m, h.chunks, 16 * |k|) && Read(m, h.chunks, 16 * |k|) == Flatten(k)
    ensures Mapped(m, h.chunks + 16 * i, 16)
    ensures Read(m, h.chunks + 16 * i, 16) == k[i]
  {
    FlattenElement(k, 16, i);
    ReadPrefix(m, h.chunks, 16 * |k|, 16 * i, 16);
  }

  /** A rewritten chunk struct differs in its data pointer alone. */
  lemma RewrittenChunk(c: Chunk, p: nat)
    requires p < TWO_TO_THE_64
    ensures DataPtr(WithDataPtr(c, p)) == p
    ensures LengthDw(WithDataPtr(c, p)) == LengthDw(c)
    ensures Get32(WithDataPtr(c, p), 0) == Get32(c, 0)
    ensures WithDataPtr(WithDataPtr(c, p), DataPtr(c)) == c
  {
    WordBounds();
    GetPutSame(c, 8, 8, p);
    GetPutOther(c, 8, 8, p, 0, 4);
    GetPutOther(c, 8, 8, p, 4, 4);
    PutBack(c, 8, 8, p);
  }

  lemma RewrittenCs(cs: Cs, p: nat)
    requires p < TWO_TO_THE_64
    ensures ChunksPtr(WithChunksPtr(cs, p)) == p
    ensures NumChunks(WithChunksPtr(cs, p)) == NumChunks(cs)
    ensures forall views :: ViewOf(WithChunksPtr(cs, p), views) == ViewOf(cs, views)
  {
    WordBounds();
    GetPutSame(cs, 8, 8, p);
    GetPutOther(cs, 8, 8, p, 0, 4);
    GetPutOther(cs, 8, 8, p, 4, 4);
    GetPutOther(cs, 8, 8, p, 16, 8);
    GetPutOther(cs, 8, 8, p, 24, 8);
  }

  lemma ImagePtrs(h: Helper, m: Mem, cs: Cs, p: seq<Word>)
    requires ChunksPtr(cs) == h.ptrs && NumChunks(cs) == |p|
    requires Mapped(m, h.ptrs, 8 * |p|) && Read(m, h.ptrs, 8 * |p|) == Flatten(p)
    ensures PtrsAt(m, cs) == p
  {
    SplitFlatten(p, 8);
  }

  lemma ImageChunks(h: Helper, m: Mem, k: seq<Chunk>)
    requires h.Valid() && |k| <= MAX_CHUNKS
    requires Mapped(m, h.chunks, 16 * |k|) && Read(m, h.chunks, 16 * |k|) == Flatten(k)
    ensures ChunksMapped(m, NewPtrs(h, |k|))
    ensures ChunksAt(m, NewPtrs(h, |k|)) == k
  {
    hide Decode, Encode, Flatten;
    var p := NewPtrs(h, |k|);
    forall i | 0 <= i < |p|
      ensures Mapped(m, Address(p[i]), 16) && Read(m, Address(p[i]), 16) == k[i]
    {
      NewPtr(h, |k|, i);
      ImageChunk(h, m, k, i);
    }
  }

  lemma ImageData(h: Helper, m: Mem, chunks: seq<Chunk>, d: seq<Byte>, i: nat)
    requires h.Valid() && NoWrap(chunks) && i < |chunks|
    requires DataTotal(chunks) == |d| <= SCRATCH_SIZE
    requires Mapped(m, h.data, |d|) && Read(m, h.data, |d|) == d
    ensures Start(chunks, i) <= Start(chunks, i + 1) <= |d|
    ensures var c := NewChunks(h, chunks)[i];
      && LengthDw(c) == LengthDw(chunks[i]) && Get32(c, 0) == Get32(chunks[i], 0)
      && DataPtr(c) == h.data + Start(chunks, i)
      && Mapped(m, DataPtr(c), 4 * LengthDw(c))
      && Read(m, DataPtr(c), 4 * LengthDw(c)) == d[Start(chunks, i)..Start(chunks, i + 1)]
  {
    hide Decode, Encode, Put, Start;
    StartBounds(chunks, i);
    RewrittenChunk(chunks[i], h.data + Start(chunks, i));
    DataFits(chunks, i);
    ReadPrefix(m, h.data, |d|, Start(chunks, i), 4 * LengthDw(chunks[i]));
  }

  /** The rewritten data pointers follow each other in the scratch area, each with room for its own data. */
  lemma RewrittenDatas(h: Helper, chunks: seq<Chunk>, i: nat)
    requires h.Valid() && i < |chunks| && DataTotal(chunks) <= SCRATCH_SIZE
    ensures DataPtr(NewChunks(h, chunks)[i]) == h.data + Start(chunks, i)
    ensures Start(chunks, i) + DataBytes(chunks[i]) == Start(chunks, i + 1) <= DataTotal(chunks)
  {
    StartBounds(chunks, i);
    RewrittenChunk(chunks[i], h.data + Start(chunks, i));
  }

  /** They cover it: every byte of the data belongs to exactly one chunk. */
  lemma {:induction false} EveryByteInOneChunk(chunks: seq<Chunk>, x: nat) returns (i: nat)
    requires x < DataTotal(chunks)
    ensures i < |chunks| && Start(chunks, i) <= x < Start(chunks, i + 1)
    ensures forall j | 0 <= j < |chunks| && j != i :: !(Start(chunks, j) <= x < Start(chunks, j + 1))
  {
    hide Get32;
    var n := DataBytes(chunks[0]);
    StartStep(chunks, 0);
    if x < n {
      i := 0;
    } else {
      var k := EveryByteInOneChunk(chunks[1..], x - n);
      i := k + 1;
    }
    forall j | 0 <= j < |chunks| && j != i
      ensures !(Start(chunks, j) <= x < Start(chunks, j + 1))
    {
      if j < i {
        StartMonotone(chunks, j + 1, i);
      } else {
        StartMonotone(chunks, i + 1, j);
      }
    }
  }

  lemma DataFits(chunks: seq<Chunk>, i: nat)
    requires NoWrap(chunks) && i < |chunks|
    ensures DataBytes(chunks[i]) == 4 * LengthDw(chunks[i])
  {
    assert chunks[i] in chunks;
  }

  /**
   From the rewritten cs struct the driver reaches the submission that was gathered:
   same scalars, same chunk ids and lengths, and the data of every chunk.
   */
  lemma RewrittenReaches(h: Helper, cs: Cs, chunks: seq<Chunk>, d: seq<Byte>)
    requires h.Valid() && NoWrap(chunks)
    requires |chunks| == NumChunks(cs) <= MAX_CHUNKS && DataTotal(chunks) == |d| <= SCRATCH_SIZE
    ensures var m := h.Image(WithChunksPtr(cs, h.ptrs), NewPtrs(h, |chunks|), NewChunks(h, chunks), d);
      Reachable(m, h.cs) && Fetch(m, h.cs) == Gathered(cs, chunks, d)
  {
    hide Decode, Encode, Flatten, Split, Pow256, Start, Write, Put;
    var c := WithChunksPtr(cs, h.ptrs);
    var p := NewPtrs(h, |chunks|);
    var k := NewChunks(h, chunks);
    var m := h.Image(c, p, k, d);
    ImageReads(h, c, p, k, d);
    RewrittenCs(cs, h.ptrs);
    ImagePtrs(h, m, c, p);
    ImageChunks(h, m, k);
    forall i | 0 <= i < |k|
      ensures Mapped(m, DataPtr(k[i]), 4 * LengthDw(k[i]))
    {
      ImageData(h, m, chunks, d, i);
    }
    assert Reachable(m, h.cs);
    assert ViewsAt(m, k) == Gathered(cs, chunks, d).chunks by {
      forall i | 0 <= i < |k|
        ensures ViewsAt(m, k)[i] == Gathered(cs, chunks, d).chunks[i]
      {
        ImageData(h, m, chunks, d, i);
      }
    }
  }

  // ----- the client's own pointers -----

  lemma ClientData(m: Mem, chunks: seq<Chunk>)
    requires DataMapped(m, chunks) && NoWrap(chunks)
    ensures AllMapped(m, DataIovs(chunks))
    ensures |Gather(m, DataIovs(chunks))| == DataTotal(chunks)
  {
    forall i | 0 <= i < |chunks|
      ensures Mapped(m, DataPtr(chunks[i]), DataBytes(chunks[i]))
    {
      DataFits(chunks, i);
    }
    GatherLength(m, DataIovs(chunks));
    DataIovsTotal(chunks);
  }

  lemma MappedAlike(m: Mem, chunks: seq<Chunk>)
    requires NoWrap(chunks)
    ensures AllMapped(m, DataIovs(chunks)) == DataMapped(m, chunks)
  {
    forall i | 0 <= i < |chunks|
      ensures DataIovs(chunks)[i] == Iov(DataPtr(chunks[i]), 4 * LengthDw(chunks[i]))
      ensures DataIovs(chunks)[i] in DataIovs(chunks) && chunks[i] in chunks
    {
      DataFits(chunks, i);
    }
    if !DataMapped(m, chunks) {
      var i :| 0 <= i < |chunks| && !Mapped(m, DataPtr(chunks[i]), 4 * LengthDw(chunks[i]));
      assert DataIovs(chunks)[i] in DataIovs(chunks);
    }
  }

  lemma ClientViews(m: Mem, cs: Cs, chunks: seq<Chunk>)
    requires DataMapped(m, chunks) && NoWrap(chunks)
    ensures AllMapped(m, DataIovs(chunks))
    ensures |Gather(m, DataIovs(chunks))| == DataTotal(chunks)
    ensures ViewsAt(m, chunks) == Gathered(cs, chunks, Gather(m, DataIovs(chunks))).chunks
  {
    ClientData(m, chunks);
    var g := Gathered(cs, chunks, Gather(m, DataIovs(chunks))).chunks;
    forall i | 0 <= i < |chunks|
      ensures ViewsAt(m, chunks)[i] == g[i]
    {
      DataSlice(m, chunks, i);
      DataFits(chunks, i);
    }
  }

  /** Following the client's pointers in client memory reaches the gathered submission too. */
  lemma ClientReaches(m: Mem, a: int)
    requires Reachable(m, a)
    requires NoWrap(ChunksAt(m, PtrsAt(m, Read(m, a, 32))))
    ensures var cs: Cs := Read(m, a, 32);
      var chunks := ChunksAt(m, PtrsAt(m, cs));
      && AllMapped(m, DataIovs(chunks))
      && |Gather(m, DataIovs(chunks))| == DataTotal(chunks)
      && Fetch(m, a) == Gathered(cs, chunks, Gather(m, DataIovs(chunks)))
  {
    var cs: Cs := Read(m, a, 32);
    ClientViews(m, cs, ChunksAt(m, PtrsAt(m, cs)));
  }

  // ----- restoring the pointer -----

  /** The driver's answer and the restoring of the pointer commute. */
  lemma AnswerRestored(cs: Cs, p: nat, v: Verdict)
    ensures WithChunksPtr(Answer(WithChunksPtr(cs, p), v), ChunksPtr(cs)) == Answer(cs, v)
  {
    var a := Answer(cs, v);
    PutCommutes(cs, 8, 8, p, 4, 4, v.csId);
    PutCommutes(Put(cs, 4, 4, v.csId), 8, 8, p, 16, 8, v.gart);
    PutCommutes(Put(Put(cs, 4, 4, v.csId), 16, 8, v.gart), 8, 8, p, 24, 8, v.vram);
    assert Answer(WithChunksPtr(cs, p), v) == WithChunksPtr(a, p);
    GetPutOther(cs, 4, 4, v.csId, 8, 8);
    GetPutOther(Put(cs, 4, 4, v.csId), 16, 8, v.gart, 8, 8);
    GetPutOther(Put(Put(cs, 4, 4, v.csId), 16, 8, v.gart), 24, 8, v.vram, 8, 8);
    PutBack(a, 8, 8, p);
  }

  /** Whatever the driver does, a whole cs struct comes back, with the client's pointer and count. */
  lemma ProcessKeepsCs(drv: Driver, h: Helper, cs: Cs, chunks: seq<Chunk>, d: seq<Byte>)
    requires h.Valid() && |chunks| == NumChunks(cs) <= MAX_CHUNKS && |d| <= SCRATCH_SIZE
    ensures var r := Process(drv, h, cs, chunks, d);
      && r.Final? && |r.payload| == 32
      && NumChunks(r.payload) == NumChunks(cs) && ChunksPtr(r.payload) == ChunksPtr(cs)
  {
    hide Decode, Flatten, Pow256, Start, Put, Fetch, Reachable;
    var c := WithChunksPtr(cs, h.ptrs);
    var m := h.Image(c, NewPtrs(h, |chunks|), NewChunks(h, chunks), d);
    ImageReads(h, c, NewPtrs(h, |chunks|), NewChunks(h, chunks), d);
    RewrittenCs(cs, h.ptrs);
    RewrittenCs(c, ChunksPtr(cs));
    if Reachable(m, h.cs) {
      var v := drv(Fetch(m, h.cs));
      ReadWritten(m, h.cs, Answer(c, v));
      AnswerKeeps(c, v);
      RewrittenCs(Answer(c, v), ChunksPtr(cs));
    }
  }

  lemma AnswerKeeps(cs: Cs, v: Verdict)
    ensures NumChunks(Answer(cs, v)) == NumChunks(cs)
    ensures ChunksPtr(Answer(cs, v)) == ChunksPtr(cs)
  {
    var c1 := Put(cs, 4, 4, v.csId);
    var c2 := Put(c1, 16, 8, v.gart);
    GetPutOther(cs, 4, 4, v.csId, 0, 4);
    GetPutOther(c1, 16, 8, v.gart, 0, 4);
    GetPutOther(c2, 24, 8, v.vram, 0, 4);
    GetPutOther(cs, 4, 4, v.csId, 8, 8);
    GetPutOther(c1, 16, 8, v.gart, 8, 8);
    GetPutOther(c2, 24, 8, v.vram, 8, 8);
  }

  /** What processing a fully gathered buffer replies. */
  lemma ProcessReplies(drv: Driver, h: Helper, cs: Cs, chunks: seq<Chunk>, d: seq<Byte>)
    requires h.Valid() && NoWrap(chunks)
    requires |chunks| == NumChunks(cs) <= MAX_CHUNKS && DataTotal(chunks) == |d| <= SCRATCH_SIZE
    ensures var v := drv(Gathered(cs, chunks, d));
      Process(drv, h, cs, chunks, d) == Final(LibcResult(v.status), Answer(cs, v))
  {
    RewrittenReaches(h, cs, chunks, d);
    var c := WithChunksPtr(cs, h.ptrs);
    var m := h.Image(c, NewPtrs(h, |chunks|), NewChunks(h, chunks), d);
    var v := drv(Gathered(cs, chunks, d));
    ImageReads(h, c, NewPtrs(h, |chunks|), NewChunks(h, chunks), d);
    ReadWritten(m, h.cs, Answer(c, v));
    AnswerRestored(cs, h.ptrs, v);
  }

  // ----- gather and parse agree -----

  function Assemble(cs: Cs, ptrs: seq<Word>, chunks: seq<Chunk>, d: seq<Byte>): seq<Byte>
  {
    cs + Flatten(ptrs) + Flatten(chunks) + d
  }

  /** Every offset the parser reads is the one at which the block was gathered. */
  lemma ParseAssembled(cs: Cs, ptrs: seq<Word>, chunks: seq<Chunk>, d: seq<Byte>)
    requires |ptrs| == |chunks| == NumChunks(cs)
    ensures var buf := Assemble(cs, ptrs, chunks, d);
      && |buf| == 32 + 24 * |ptrs| + |d| && CsOf(buf) == cs
      && PtrsOf(buf) == ptrs && ChunksOf(buf) == chunks && DataOf(buf) == d
  {
    hide Decode, Flatten, Split;
    var n := |ptrs|;
    var buf := Assemble(cs, ptrs, chunks, d);
    FlattenLength(ptrs);
    FlattenLength(chunks);
    OffsetUniform(ptrs, 8, n);
    OffsetUniform(chunks, 16, n);
    assert buf[..32] == cs;
    assert buf[32..32 + 8 * n] == Flatten(ptrs);
    assert buf[32 + 8 * n..32 + 24 * n] == Flatten(chunks);
    assert buf[32 + 24 * n..] == d;
    SplitFlatten(ptrs, 8);
    SplitFlatten(chunks, 16);
  }

  lemma ParsePtrs(cs: Cs, ptrs: seq<Word>)
    requires |ptrs| == NumChunks(cs)
    ensures var buf := cs + Flatten(ptrs);
      |buf| == 32 + 8 * |ptrs| && CsOf(buf) == cs && PtrsOf(buf) == ptrs
  {
    var buf := cs + Flatten(ptrs);
    FlattenLength(ptrs);
    OffsetUniform(ptrs, 8, |ptrs|);
    assert buf[..32] == cs;
    assert buf[32..32 + 8 * |ptrs|] == Flatten(ptrs);
    SplitFlatten(ptrs, 8);
  }

  lemma GatherCs(m: Mem, a: int)
    requires Mapped(m, a, 32)
    ensures AllMapped(m, CsIovs(a)) && Gather(m, CsIovs(a)) == Read(m, a, 32)
  {
    GatherOne(m, Iov(a, 32));
  }

  lemma GatherPtrs(m: Mem, a: int)
    requires Mapped(m, a, 32)
    ensures var cs: Cs := Read(m, a, 32);
      && AllMapped(m, CsIovs(a) + PtrIovs(cs)) == Mapped(m, ChunksPtr(cs), PtrBytes(NumChunks(cs)))
      && (AllMapped(m, CsIovs(a) + PtrIovs(cs)) ==>
            Gather(m, CsIovs(a) + PtrIovs(cs)) == cs + Read(m, ChunksPtr(cs), PtrBytes(NumChunks(cs))))
  {
    var cs: Cs := Read(m, a, 32);
    var v := Iov(ChunksPtr(cs), PtrBytes(NumChunks(cs)));
    GatherCs(m, a);
    assert v in CsIovs(a) + PtrIovs(cs);
    if Mapped(m, v.base, v.len) {
      GatherOne(m, v);
      GatherAppend(m, CsIovs(a), PtrIovs(cs));
    }
  }

  lemma GatherChunks(m: Mem, ptrs: seq<Word>)
    ensures AllMapped(m, ChunkIovs(ptrs)) == ChunksMapped(m, ptrs)
    ensures ChunksMapped(m, ptrs) ==> Gather(m, ChunkIovs(ptrs)) == Flatten(ChunksAt(m, ptrs))
  {
    forall i | 0 <= i < |ptrs|
      ensures ChunkIovs(ptrs)[i] in ChunkIovs(ptrs) && ptrs[i] in ptrs
    {
    }
    if ChunksMapped(m, ptrs) {
      assert AllMapped(m, ChunkIovs(ptrs));
      assert Pieces(m, ChunkIovs(ptrs)) == ChunksAt(m, ptrs);
    } else {
      var i :| 0 <= i < |ptrs| && !Mapped(m, Address(ptrs[i]), 16);
      assert ChunkIovs(ptrs)[i] in ChunkIovs(ptrs);
    }
  }

  lemma AllMappedAppend(m: Mem, v: seq<Iov>, w: seq<Iov>)
    ensures AllMapped(m, v + w) == (AllMapped(m, v) && AllMapped(m, w))
  {
    forall x | x in v
      ensures x in v + w
    {
    }
    forall x | x in w
      ensures x in v + w
    {
    }
  }
}
