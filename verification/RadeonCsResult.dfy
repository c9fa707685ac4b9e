/**
 What RADEON_CS comes to, address by address: the submission that the driver is given, read
 out of client memory, and the memory and the result that the client is left with.
 */
module RadeonCsResult {
  import opened Bytes
  import opened Memory
  import opened Kernel
  import opened RadeonCs
  import opened RadeonCsRun

  /** The number in the n bytes at an address. */
  function NumberAt(m: Mem, a: int, n: nat): nat
    requires Mapped(m, a, n)
  {
    Decode(Read(m, a, n))
  }

  /** The i-th chunk of a submission at a, by pointer, struct and data. */
  predicate ChunkRead(m: Mem, a: int, i: nat, view: ChunkView)
  {
    && Mapped(m, a + 8, 8)
    && var entry := NumberAt(m, a + 8, 8) + 8 * i;
    && Mapped(m, entry, 8)
    && var chunk := NumberAt(m, entry, 8);
    && Mapped(m, chunk, 16) && Mapped(m, chunk, 4) && Mapped(m, chunk + 4, 4) && Mapped(m, chunk + 8, 8)
    && view.id == NumberAt(m, chunk, 4)
    && view.lengthDw == NumberAt(m, chunk + 4, 4)
    && Mapped(m, NumberAt(m, chunk + 8, 8), 4 * view.lengthDw)
    && view.data == Read(m, NumberAt(m, chunk + 8, 8), 4 * view.lengthDw)
  }

  lemma FieldAt(m: Mem, a: int, n: nat, off: nat, w: nat)
    requires Mapped(m, a, n) && off + w <= n
    ensures Mapped(m, a + off, w) && Get(Read(m, a, n), off, w) == NumberAt(m, a + off, w)
  {
    ReadPrefix(m, a, n, off, w);
  }

  lemma PtrAt(m: Mem, cs: Cs, i: nat)
    requires Mapped(m, ChunksPtr(cs), 8 * NumChunks(cs)) && i < NumChunks(cs)
    ensures Mapped(m, ChunksPtr(cs) + 8 * i, 8)
    ensures Address(PtrsAt(m, cs)[i]) == NumberAt(m, ChunksPtr(cs) + 8 * i, 8)
  {
    hide Split, Decode, ChunksPtr, NumChunks;
    var b := Read(m, ChunksPtr(cs), 8 * NumChunks(cs));
    SplitCount(b, 8, NumChunks(cs));
    SplitElement(b, 8, i);
    ReadPrefix(m, ChunksPtr(cs), 8 * NumChunks(cs), 8 * i, 8);
    var w := PtrsAt(m, cs)[i];
    assert w[0..8] == w;
  }

  /**
   The submission that the driver finds is the one that C's rules find: the scalars of the
   struct, and for each of num_chunks pointers the struct it leads to and 4 * length_dw bytes.
   */
  lemma SubmissionRead(m: Mem, a: int)
    requires Reachable(m, a)
    ensures var s := Fetch(m, a);
      && Mapped(m, a, 4) && |s.chunks| == NumberAt(m, a, 4)
      && Mapped(m, a + 4, 4) && s.csId == NumberAt(m, a + 4, 4)
      && Mapped(m, a + 16, 8) && s.gart == NumberAt(m, a + 16, 8)
      && Mapped(m, a + 24, 8) && s.vram == NumberAt(m, a + 24, 8)
      && forall i | 0 <= i < |s.chunks| :: ChunkRead(m, a, i, s.chunks[i])
  {
    hide Decode, Split, Get, PtrsAt;
    FieldAt(m, a, 32, 0, 4);
    FieldAt(m, a, 32, 4, 4);
    FieldAt(m, a, 32, 16, 8);
    FieldAt(m, a, 32, 24, 8);
    var s := Fetch(m, a);
    forall i | 0 <= i < |s.chunks|
      ensures ChunkRead(m, a, i, s.chunks[i])
    {
      ChunkFetched(m, a, i);
    }
  }

  lemma ChunkFetched(m: Mem, a: int, i: nat)
    requires Reachable(m, a) && i < |Fetch(m, a).chunks|
    ensures ChunkRead(m, a, i, Fetch(m, a).chunks[i])
  {
    hide Decode, Split, Get, PtrsAt, NumberAt;
    var cs: Cs := Read(m, a, 32);
    FieldAt(m, a, 32, 8, 8);
    PtrAt(m, cs, i);
    var ptrs := PtrsAt(m, cs);
    assert ptrs[i] in ptrs;
    var chunks := ChunksAt(m, ptrs);
    var c := chunks[i];
    assert c in chunks;
    FieldAt(m, Address(ptrs[i]), 16, 0, 4);
    FieldAt(m, Address(ptrs[i]), 16, 4, 4);
    FieldAt(m, Address(ptrs[i]), 16, 8, 8);
  }

  /** The byte at x after the driver's answer has been stored in the struct at a. */
  function AnsweredAt(m: Mem, a: int, v: Verdict, x: int): Byte
    requires x in m
  {
    if a + 4 <= x < a + 8 then Encode(v.csId, 4)[x - (a + 4)]
    else if a + 16 <= x < a + 24 then Encode(v.gart, 8)[x - (a + 16)]
    else if a + 24 <= x < a + 32 then Encode(v.vram, 8)[x - (a + 24)]
    else m[x]
  }

  lemma AnswerStored(m: Mem, a: int, v: Verdict, x: int)
    requires Mapped(m, a, 32) && x in m
    ensures var m' := Write(m, a, Answer(Read(m, a, 32), v));
      m'.Keys == m.Keys && m'[x] == AnsweredAt(m, a, v, x)
  {
    hide Write, Put, Encode;
    var cs: Cs := Read(m, a, 32);
    var m' := Write(m, a, Answer(cs, v));
    assert m'.Keys == m.Keys;
    if a <= x < a + 32 {
      PutAt(cs, 4, 4, v.csId, x - a);
      var cs1: Cs := Put(cs, 4, 4, v.csId);
      PutAt(cs1, 16, 8, v.gart, x - a);
      var cs2: Cs := Put(cs1, 16, 8, v.gart);
      PutAt(cs2, 24, 8, v.vram, x - a);
    }
  }

  /**
   An accepted submission that can be read ends with the driver's status, or -1 if that is an
   error, and with its answer in the client's struct; every other byte is as it was.
   */
  lemma Delivered(drv: Driver, h: Helper, m: Mem, a: int)
    requires h.Valid() && Reachable(m, a) && Accepts(m, a)
    ensures var v := drv(Fetch(m, a)); var s := Run(drv, h, m, a, 5);
      && s.Done?
      && (v.status < 0 ==> s.result == -1)
      && (v.status >= 0 ==> s.result == v.status)
      && s.mem.Keys == m.Keys
      && forall x | x in m :: s.mem[x] == AnsweredAt(m, a, v, x)
  {
    hide Run, Accepts, Fetch, Answer, Write, AnsweredAt;
    Transparent(drv, h, m, a);
    var v := drv(Fetch(m, a));
    forall x | x in m
      ensures var m' := Write(m, a, Answer(Read(m, a, 32), v));
        m'.Keys == m.Keys && m'[x] == AnsweredAt(m, a, v, x)
    {
      AnswerStored(m, a, v, x);
    }
    assert a in m;
  }

  // ----- where the number of chunks ends -----

  /** A cs struct at 0x1000 with n pointers, all to the same empty chunk at address 0. */
  function ManyChunks(n: U32): Mem
  {
    Write(ZeroMem(), 0x1000, TheCs(n))
  }

  lemma ZeroRead(n: U32, a: int, k: nat)
    requires a + k <= 0x1000 || 0x1020 <= a
    requires 0 <= a && a + k <= 4 * TWO_TO_THE_32
    ensures Mapped(ManyChunks(n), a, k) && Read(ManyChunks(n), a, k) == Zeros(k)
  {
    hide Write, TheCs;
    forall i | a <= i < a + k
      ensures i in ManyChunks(n) && ManyChunks(n)[i] == 0
    {
    }
  }

  lemma ZeroWord(w: Word)
    requires w == Zeros(8)
    ensures Address(w) == 0
  {
    hide Decode;
    DecodeZeros(8);
    assert w[0..8] == seq(8, _ => 0);
  }

  lemma EmptyChunk(c: Chunk)
    requires c == Zeros(16)
    ensures LengthDw(c) == 0 && DataPtr(c) == 0
  {
    hide Decode;
    DecodeZeros(4);
    DecodeZeros(8);
    assert c[4..8] == seq(4, _ => 0) && c[8..16] == seq(8, _ => 0);
  }

  lemma {:induction false} NoData(chunks: seq<Chunk>)
    requires forall c | c in chunks :: LengthDw(c) == 0
    ensures TrueTotal(chunks) == 0
  {
    hide LengthDw;
    if chunks != [] {
      assert forall c | c in chunks[1..] :: c in chunks;
      assert chunks[0] in chunks;
      NoData(chunks[1..]);
    }
  }

  lemma ManyPtrs(n: U32, i: nat)
    requires i < n <= 0x7000_0000
    ensures var m, cs := ManyChunks(n), TheCs(n);
      Mapped(m, ChunksPtr(cs), 8 * NumChunks(cs)) && NumChunks(cs) == n && Address(PtrsAt(m, cs)[i]) == 0
  {
    hide TheCs, ManyChunks, Split, Get64, Get32;
    var m, cs := ManyChunks(n), TheCs(n);
    TheCsFields(n);
    ZeroRead(n, 0x2000, 8 * n);
    var b := Zeros(8 * n);
    SplitCount(b, 8, n);
    SplitElement(b, 8, i);
    assert b[8 * i..8 * i + 8] == Zeros(8);
    ZeroWord(PtrsAt(m, cs)[i]);
  }

  /** With so many chunks the driver can read the submission, and the helper accepts at most 4096. */
  lemma ManyChunksAccepted(n: U32)
    requires n <= 0x7000_0000
    ensures Reachable(ManyChunks(n), 0x1000)
    ensures Accepts(ManyChunks(n), 0x1000) <==> n <= 4096
  {
    hide TheCs, ManyChunks, Split, Get64, Get32, Address, DataPtr, LengthDw, ChunksPtr, NumChunks, TrueTotal, PtrsAt;
    var m, cs := ManyChunks(n), TheCs(n);
    TheCsFields(n);
    ReadWritten(ZeroMem(), 0x1000, cs);
    assert Read(m, 0x1000, 32) == cs by { CsRead(n); }
    ZeroRead(n, 0x2000, 8 * n);
    var ptrs := PtrsAt(m, cs);
    forall p | p in ptrs
      ensures Address(p) == 0
    {
      var i :| 0 <= i < |ptrs| && ptrs[i] == p;
      ManyPtrs(n, i);
    }
    ZeroRead(n, 0, 16);
    var chunks := ChunksAt(m, ptrs);
    forall c | c in chunks
      ensures LengthDw(c) == 0 && DataPtr(c) == 0
    {
      var i :| 0 <= i < |chunks| && chunks[i] == c;
      assert ptrs[i] in ptrs;
      EmptyChunk(c);
    }
    NoData(chunks);
  }

  lemma CsRead(n: U32)
    ensures Mapped(ManyChunks(n), 0x1000, 32) && Read(ManyChunks(n), 0x1000, 32) == TheCs(n)
  {
    hide TheCs, Write, Read;
    ReadWritten(ZeroMem(), 0x1000, TheCs(n));
  }
}
