/**
 DRM_IOCTL_RADEON_CS: the command submission whose argument is a struct holding a
 pointer to an array of pointers to chunk structs, each with a pointer to its data.
 */
module RadeonCs {
  import opened Bytes
  import opened Memory
  import opened Kernel

  const CS_SIZE: nat := 32
  const CHUNK_SIZE: nat := 16
  const MAX_CHUNKS: nat := 4096
  const SCRATCH_SIZE: nat := 0x21000

  // ----- struct drm_radeon_cs, struct drm_radeon_cs_chunk, uint64_t -----

  type Cs = c: seq<Byte> | |c| == 32 witness seq(32, _ => 0)
  type Chunk = c: seq<Byte> | |c| == 16 witness seq(16, _ => 0)
  type Word = w: seq<Byte> | |w| == 8 witness seq(8, _ => 0)

  function NumChunks(cs: Cs): U32 { Get32(cs, 0) }

  function ChunksPtr(cs: Cs): U64 { Get64(cs, 8) }

  function WithChunksPtr(cs: Cs, p: nat): Cs { Put(cs, 8, 8, p) }

  function LengthDw(c: Chunk): U32 { Get32(c, 4) }

  function DataPtr(c: Chunk): U64 { Get64(c, 8) }

  function WithDataPtr(c: Chunk, p: nat): Chunk { Put(c, 8, 8, p) }

  function Address(w: Word): U64 { Get64(w, 0) }

  /** 8 * cs.num_chunks, computed in 32 bits. */
  function PtrBytes(n: U32): U32 { 8 * n % TWO_TO_THE_32 }

  /** chunk.length_dw * 4, computed in 32 bits. */
  function DataBytes(c: Chunk): U32 { 4 * LengthDw(c) % TWO_TO_THE_32 }

  /** Where the data of chunk i starts: the sum of the data lengths before it. */
  function Start(chunks: seq<Chunk>, i: nat): nat
    requires i <= |chunks|
  {
    if i == 0 then 0 else DataBytes(chunks[0]) + Start(chunks[1..], i - 1)
  }

  function DataTotal(chunks: seq<Chunk>): nat { Start(chunks, |chunks|) }

  // ----- the driver, and what it reaches from an address -----

  datatype ChunkView = ChunkView(id: U32, lengthDw: U32, data: seq<Byte>)

  datatype Submission = Submission(csId: U32, gart: U64, vram: U64, chunks: seq<ChunkView>)

  datatype Verdict = Verdict(status: int, csId: U32, gart: U64, vram: U64)

  /** Any driver that reads a submission and answers in the scalars of the cs struct. */
  type Driver = Submission -> Verdict

  function PtrsAt(m: Mem, cs: Cs): (ptrs: seq<Word>)
    requires Mapped(m, ChunksPtr(cs), 8 * NumChunks(cs))
    ensures |ptrs| == NumChunks(cs)
  {
    SplitCount(Read(m, ChunksPtr(cs), 8 * NumChunks(cs)), 8, NumChunks(cs));
    Split(Read(m, ChunksPtr(cs), 8 * NumChunks(cs)), 8)
  }

  predicate ChunksMapped(m: Mem, ptrs: seq<Word>)
  {
    forall p | p in ptrs :: Mapped(m, Address(p), 16)
  }

  function ChunksAt(m: Mem, ptrs: seq<Word>): (chunks: seq<Chunk>)
    requires ChunksMapped(m, ptrs)
    ensures |chunks| == |ptrs|
  {
    seq(|ptrs|, i requires 0 <= i < |ptrs| => Read(m, Address(ptrs[i]), 16))
  }

  predicate DataMapped(m: Mem, chunks: seq<Chunk>)
  {
    forall c | c in chunks :: Mapped(m, DataPtr(c), 4 * LengthDw(c))
  }

  predicate Reachable(m: Mem, a: int)
  {
    && Mapped(m, a, 32)
    && var cs: Cs := Read(m, a, 32);
    && Mapped(m, ChunksPtr(cs), 8 * NumChunks(cs))
    && ChunksMapped(m, PtrsAt(m, cs))
    && DataMapped(m, ChunksAt(m, PtrsAt(m, cs)))
  }

  function ViewOf(cs: Cs, views: seq<ChunkView>): Submission
  {
    Submission(Get32(cs, 4), Get64(cs, 16), Get64(cs, 24), views)
  }

  function ViewsAt(m: Mem, chunks: seq<Chunk>): (views: seq<ChunkView>)
    requires DataMapped(m, chunks)
    ensures |views| == |chunks|
  {
    seq(|chunks|, i requires 0 <= i < |chunks| =>
      ChunkView(Get32(chunks[i], 0), LengthDw(chunks[i]),
                Read(m, DataPtr(chunks[i]), 4 * LengthDw(chunks[i]))))
  }

  /** The submission found by following the pointers from address a. */
  function Fetch(m: Mem, a: int): Submission
    requires Reachable(m, a)
  {
    var cs: Cs := Read(m, a, 32);
    ViewOf(cs, ViewsAt(m, ChunksAt(m, PtrsAt(m, cs))))
  }

  function Answer(cs: Cs, v: Verdict): Cs
  {
    Put(Put(Put(cs, 4, 4, v.csId), 16, 8, v.gart), 24, 8, v.vram)
  }

  /** ioctl(card, DRM_IOCTL_RADEON_CS, a) on memory m. */
  function RunDriver(drv: Driver, m: Mem, a: int): (int, Mem)
  {
    if !Reachable(m, a) then (EFAULT, m)
    else
      var v := drv(Fetch(m, a));
      (v.status, Write(m, a, Answer(Read(m, a, 32), v)))
  }

  // ----- the helper's locals -----

  /** Addresses of cs, chunk_ptrs, chunks and chunk_data, and the helper's other memory. */
  datatype Helper = Helper(cs: nat, ptrs: nat, chunks: nat, data: nat, rest: Mem)
  {
    predicate Valid()
    {
      && cs + CS_SIZE < TWO_TO_THE_64
      && ptrs + 8 * MAX_CHUNKS < TWO_TO_THE_64
      && chunks + CHUNK_SIZE * MAX_CHUNKS < TWO_TO_THE_64
      && data + SCRATCH_SIZE < TWO_TO_THE_64
      && Apart(cs, CS_SIZE, ptrs, 8 * MAX_CHUNKS)
      && Apart(cs, CS_SIZE, chunks, CHUNK_SIZE * MAX_CHUNKS)
      && Apart(cs, CS_SIZE, data, SCRATCH_SIZE)
      && Apart(ptrs, 8 * MAX_CHUNKS, chunks, CHUNK_SIZE * MAX_CHUNKS)
      && Apart(ptrs, 8 * MAX_CHUNKS, data, SCRATCH_SIZE)
      && Apart(chunks, CHUNK_SIZE * MAX_CHUNKS, data, SCRATCH_SIZE)
    }

    /** The helper's memory with the locals holding the given values. */
    function Image(c: Cs, p: seq<Word>, k: seq<Chunk>, d: seq<Byte>): Mem
    {
      Write(Write(Write(Write(rest, data, d), chunks, Flatten(k)), ptrs, Flatten(p)), cs, c)
    }
  }

  function NewPtrs(h: Helper, n: nat): (ptrs: seq<Word>)
    ensures |ptrs| == n
  {
    seq(n, i requires 0 <= i < n => Encode(h.chunks + 16 * i, 8))
  }

  function NewChunks(h: Helper, chunks: seq<Chunk>): (k: seq<Chunk>)
    ensures |k| == |chunks|
  {
    seq(|chunks|, i requires 0 <= i < |chunks| => WithDataPtr(chunks[i], h.data + Start(chunks, i)))
  }

  // ----- one call of parse_drm_ioctl_radeon_cs -----

  function CsOf(buf: seq<Byte>): Cs
    requires |buf| >= 32
  {
    buf[..32]
  }

  function PtrsOf(buf: seq<Byte>): seq<Word>
    requires |buf| >= 32 && |buf| >= 32 + 8 * NumChunks(CsOf(buf))
  {
    Split(buf[32..32 + 8 * NumChunks(CsOf(buf))], 8)
  }

  function ChunksOf(buf: seq<Byte>): seq<Chunk>
    requires |buf| >= 32 && |buf| >= 32 + 24 * NumChunks(CsOf(buf))
  {
    var n := NumChunks(CsOf(buf));
    Split(buf[32 + 8 * n..32 + 24 * n], 16)
  }

  function DataOf(buf: seq<Byte>): seq<Byte>
    requires |buf| >= 32 && |buf| >= 32 + 24 * NumChunks(CsOf(buf))
  {
    buf[32 + 24 * NumChunks(CsOf(buf))..]
  }

  /** The lengths the helper can be handed: what it asked for, for as far as it looks. */
  predicate WellFormed(buf: seq<Byte>)
  {
    || buf == []
    || (&& |buf| >= 32
        && var n := NumChunks(CsOf(buf));
        || |buf| == 32
        || n > MAX_CHUNKS
        || |buf| == 32 + 8 * n
        || (&& |buf| >= 32 + 24 * n
            && (|DataOf(buf)| == 0 || |DataOf(buf)| == DataTotal(ChunksOf(buf)))))
  }

  function CsIovs(arg: int): seq<Iov> { [Iov(arg, 32)] }

  function PtrIovs(cs: Cs): seq<Iov> { [Iov(ChunksPtr(cs), PtrBytes(NumChunks(cs)))] }

  function ChunkIovs(ptrs: seq<Word>): (v: seq<Iov>)
    ensures |v| == |ptrs|
  {
    seq(|ptrs|, i requires 0 <= i < |ptrs| => Iov(Address(ptrs[i]), 16))
  }

  function DataIovs(chunks: seq<Chunk>): (v: seq<Iov>)
    ensures |v| == |chunks|
  {
    seq(|chunks|, i requires 0 <= i < |chunks| => Iov(DataPtr(chunks[i]), DataBytes(chunks[i])))
  }

  function Process(drv: Driver, h: Helper, cs: Cs, chunks: seq<Chunk>, data: seq<Byte>): (r: Reply)
    ensures r.Final?
  {
    var image := h.Image(WithChunksPtr(cs, h.ptrs), NewPtrs(h, |chunks|), NewChunks(h, chunks), data);
    var (status, image') := RunDriver(drv, image, h.cs);
    if Mapped(image', h.cs, 32) then
      Final(LibcResult(status), WithChunksPtr(Read(image', h.cs, 32), ChunksPtr(cs)))
    else Final(EFAULT, [])
  }

  /** The reply to one call, by the bytes handed over and the size of the output ranges. */
  function CsReply(drv: Driver, h: Helper, arg: int, buf: seq<Byte>, outsize: nat): Reply
    requires WellFormed(buf)
  {
    if buf == [] then Retry(CsIovs(arg), 0)
    else
      var cs := CsOf(buf);
      var n := NumChunks(cs);
      if n != 0 && |buf| == 32 then Retry(CsIovs(arg) + PtrIovs(cs), 0)
      else if n > MAX_CHUNKS then Final(EINVAL, buf)
      else
        var ptrs := PtrsOf(buf);
        if n != 0 && |buf| == 32 + 8 * n then Retry(CsIovs(arg) + PtrIovs(cs) + ChunkIovs(ptrs), 0)
        else
          ChunksReply(drv, h, arg, cs, ptrs, ChunksOf(buf), DataOf(buf), buf, outsize)
  }

  /** The rest of the call, once the chunk structs are there. */
  function ChunksReply(drv: Driver, h: Helper, arg: int, cs: Cs, ptrs: seq<Word>, chunks: seq<Chunk>,
                       data: seq<Byte>, buf: seq<Byte>, outsize: nat): Reply
  {
    var all := Retry(CsIovs(arg) + PtrIovs(cs) + ChunkIovs(ptrs) + DataIovs(chunks), 1);
    if DataTotal(chunks) != 0 && data == [] then all
    else if DataTotal(chunks) > SCRATCH_SIZE then Final(EINVAL, buf)
    else if outsize == 0 then all
    else Process(drv, h, cs, chunks, data)
  }

  function CsHandler(drv: Driver, h: Helper, arg: int): Handler
  {
    (buf: seq<Byte>, outsize: nat) => if WellFormed(buf) then CsReply(drv, h, arg, buf, outsize) else Final(EINVAL, [])
  }

  lemma HandlerReplies(drv: Driver, h: Helper, arg: int, buf: seq<Byte>, outsize: nat)
    requires WellFormed(buf)
    ensures CsHandler(drv, h, arg)(buf, outsize) == CsReply(drv, h, arg, buf, outsize)
  {
  }

  // ----- prefix sums -----

  lemma {:induction false} StartStep(chunks: seq<Chunk>, i: nat)
    requires i < |chunks|
    ensures Start(chunks, i + 1) == Start(chunks, i) + DataBytes(chunks[i])
  {
    if i > 0 {
      StartStep(chunks[1..], i - 1);
    }
  }

  lemma {:induction false} StartMonotone(chunks: seq<Chunk>, i: nat, j: nat)
    requires i <= j <= |chunks|
    ensures Start(chunks, i) <= Start(chunks, j)
    decreases j
  {
    if i < j {
      StartMonotone(chunks, i, j - 1);
      StartStep(chunks, j - 1);
    }
  }

  lemma StartBounds(chunks: seq<Chunk>, i: nat)
    requires i < |chunks|
    ensures Start(chunks, i) + DataBytes(chunks[i]) == Start(chunks, i + 1) <= DataTotal(chunks)
  {
    StartStep(chunks, i);
    StartMonotone(chunks, i + 1, |chunks|);
  }

  lemma {:induction false} DataIovsTotal(chunks: seq<Chunk>)
    ensures Total(DataIovs(chunks)) == DataTotal(chunks)
  {
    if chunks != [] {
      DataIovsTotal(chunks[1..]);
      assert DataIovs(chunks)[1..] == DataIovs(chunks[1..]);
    }
  }

  lemma {:induction false} ChunkIovsTotal(ptrs: seq<Word>)
    ensures Total(ChunkIovs(ptrs)) == 16 * |ptrs|
  {
    if ptrs != [] {
      ChunkIovsTotal(ptrs[1..]);
      assert ChunkIovs(ptrs)[1..] == ChunkIovs(ptrs[1..]);
    }
  }

  // ----- the rewritten structure reaches the gathered one -----

  predicate NoWrap(chunks: seq<Chunk>)
  {
    forall c | c in chunks :: 4 * LengthDw(c) < TWO_TO_THE_32
  }

  /** The submission held by a fully gathered buffer. */
  function Gathered(cs: Cs, chunks: seq<Chunk>, data: seq<Byte>): Submission
    requires |data| == DataTotal(chunks)
  {
    ViewOf(cs, seq(|chunks|, i requires 0 <= i < |chunks| =>
      StartBounds(chunks, i);
      ChunkView(Get32(chunks[i], 0), LengthDw(chunks[i]), data[Start(chunks, i)..Start(chunks, i + 1)])))
  }
}
