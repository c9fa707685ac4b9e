/** Whole runs of the RADEON_CS ioctl, round by round, over every client memory. */
module RadeonCsRun {
  import opened Bytes
  import opened Memory
  import opened Kernel
  import opened RadeonCs
  import opened RadeonCsTransparency

  predicate PtrsMapped(m: Mem, cs: Cs)
  {
    Mapped(m, ChunksPtr(cs), 8 * NumChunks(cs))
  }

  function CsAt(m: Mem, a: int): Cs
    requires Mapped(m, a, 32)
  {
    Read(m, a, 32)
  }

  function Ask1(a: int, cs: Cs): seq<Iov> { CsIovs(a) + PtrIovs(cs) }

  function Ask2(a: int, cs: Cs, ptrs: seq<Word>): seq<Iov> { Ask1(a, cs) + ChunkIovs(ptrs) }

  function Ask3(a: int, cs: Cs, ptrs: seq<Word>, chunks: seq<Chunk>): seq<Iov>
  {
    Ask2(a, cs, ptrs) + DataIovs(chunks)
  }

  /** The first two levels of the argument, as they stand in client memory. */
  predicate HasPtrs(m: Mem, a: int, cs: Cs, ptrs: seq<Word>)
  {
    && Mapped(m, a, 32) && cs == Read(m, a, 32)
    && NumChunks(cs) <= MAX_CHUNKS
    && PtrsMapped(m, cs) && ptrs == PtrsAt(m, cs)
  }

  /** The first three levels. */
  predicate HasChunks(m: Mem, a: int, cs: Cs, ptrs: seq<Word>, chunks: seq<Chunk>)
  {
    HasPtrs(m, a, cs, ptrs) && ChunksMapped(m, ptrs) && chunks == ChunksAt(m, ptrs)
  }

  // ----- gathering -----

  lemma GatherAsk1(m: Mem, a: int, cs: Cs, ptrs: seq<Word>)
    requires HasPtrs(m, a, cs, ptrs)
    ensures AllMapped(m, Ask1(a, cs)) && Gather(m, Ask1(a, cs)) == cs + Flatten(ptrs)
  {
    hide Decode, Flatten, Split;
    GatherPtrs(m, a);
    FlattenSplit(Read(m, ChunksPtr(cs), 8 * NumChunks(cs)), 8, NumChunks(cs));
  }

  lemma GatherAsk2(m: Mem, a: int, cs: Cs, ptrs: seq<Word>, chunks: seq<Chunk>)
    requires HasChunks(m, a, cs, ptrs, chunks)
    ensures AllMapped(m, Ask2(a, cs, ptrs))
    ensures Gather(m, Ask2(a, cs, ptrs)) == cs + Flatten(ptrs) + Flatten(chunks)
  {
    GatherAsk1(m, a, cs, ptrs);
    GatherChunks(m, ptrs);
    GatherAppend(m, Ask1(a, cs), ChunkIovs(ptrs));
  }

  lemma GatherAsk3(m: Mem, a: int, cs: Cs, ptrs: seq<Word>, chunks: seq<Chunk>)
    requires HasChunks(m, a, cs, ptrs, chunks) && AllMapped(m, DataIovs(chunks))
    ensures AllMapped(m, Ask3(a, cs, ptrs, chunks))
    ensures Gather(m, Ask3(a, cs, ptrs, chunks)) == Assemble(cs, ptrs, chunks, Gather(m, DataIovs(chunks)))
  {
    GatherAsk2(m, a, cs, ptrs, chunks);
    GatherAppend(m, Ask2(a, cs, ptrs), DataIovs(chunks));
  }

  // ----- what fits the receive buffer -----

  /** The last request: a cs struct, n pointers, n chunk structs and their data. */
  predicate Receives(chunks: seq<Chunk>)
  {
    IOCTL_IN_SIZE + CS_SIZE + (8 + CHUNK_SIZE) * |chunks| + DataTotal(chunks) <= BUFSZ
  }

  lemma AskTotals(a: int, cs: Cs, ptrs: seq<Word>, chunks: seq<Chunk>)
    ensures Total(CsIovs(a)) == 32
    ensures Total(Ask1(a, cs)) == 32 + PtrBytes(NumChunks(cs))
    ensures Total(Ask2(a, cs, ptrs)) == 32 + PtrBytes(NumChunks(cs)) + 16 * |ptrs|
    ensures Total(Ask3(a, cs, ptrs, chunks)) == 32 + PtrBytes(NumChunks(cs)) + 16 * |ptrs| + DataTotal(chunks)
  {
    hide Get32, Start;
    OneTotal(Iov(a, 32));
    OneTotal(PtrIovs(cs)[0]);
    TotalAppend(CsIovs(a), PtrIovs(cs));
    ChunkIovsTotal(ptrs);
    TotalAppend(Ask1(a, cs), ChunkIovs(ptrs));
    DataIovsTotal(chunks);
    TotalAppend(Ask2(a, cs, ptrs), DataIovs(chunks));
  }

  lemma OneTotal(v: Iov)
    ensures Total([v]) == v.len
  {
    assert Total([v][1..]) == 0;
  }

  /** The first three requests always fit; the last one fits exactly if its data leaves room. */
  lemma RequestsReceivable(a: int, cs: Cs, ptrs: seq<Word>, chunks: seq<Chunk>)
    requires NumChunks(cs) <= MAX_CHUNKS && |ptrs| == |chunks| == NumChunks(cs)
    ensures Receivable(CsIovs(a)) && Receivable(Ask1(a, cs)) && Receivable(Ask2(a, cs, ptrs))
    ensures Receivable(Ask3(a, cs, ptrs, chunks)) <==> Receives(chunks)
  {
    AskTotals(a, cs, ptrs, chunks);
  }

  // ----- the rounds -----

  lemma Round0(drv: Driver, h: Helper, m: Mem, a: int)
    ensures Round(CsHandler(drv, h, a), m, [], []) == Asking(CsIovs(a), [])
  {
    assert Pieces(m, []) == [];
    HandlerReplies(drv, h, a, [], 0);
  }

  /** The cs struct is there. */
  lemma Round1(drv: Driver, h: Helper, m: Mem, a: int, cs: Cs)
    requires Mapped(m, a, 32) && cs == Read(m, a, 32)
    ensures Round(CsHandler(drv, h, a), m, CsIovs(a), []) ==
        if NumChunks(cs) != 0 then Asking(Ask1(a, cs), []) else Asking(Ask3(a, cs, [], []), CsIovs(a))
  {
    GatherCs(m, a);
    AskTotals(a, cs, [], []);
    assert cs[..32] == cs;
    HandlerReplies(drv, h, a, cs, 0);
    if NumChunks(cs) == 0 {
      assert Assemble(cs, [], [], []) == cs;
      ParseAssembled(cs, [], [], []);
      assert Ask3(a, cs, [], [])[..1] == CsIovs(a);
    }
  }

  /** The pointers to the chunk structs are there. */
  lemma Round2(drv: Driver, h: Helper, m: Mem, a: int, cs: Cs, ptrs: seq<Word>)
    requires HasPtrs(m, a, cs, ptrs) && NumChunks(cs) != 0
    ensures Round(CsHandler(drv, h, a), m, Ask1(a, cs), []) == Asking(Ask2(a, cs, ptrs), [])
  {
    hide Decode, Flatten, Split, PtrsAt, Get32, Get64, Gather;
    GatherAsk1(m, a, cs, ptrs);
    AskTotals(a, cs, ptrs, []);
    ParsePtrs(cs, ptrs);
    HandlerReplies(drv, h, a, cs + Flatten(ptrs), 0);
  }

  lemma ReplyChunks(drv: Driver, h: Helper, a: int, cs: Cs, ptrs: seq<Word>, chunks: seq<Chunk>)
    requires 0 < |ptrs| == |chunks| == NumChunks(cs) <= MAX_CHUNKS
    ensures CsHandler(drv, h, a)(cs + Flatten(ptrs) + Flatten(chunks), 0)
         == Retry(Ask3(a, cs, ptrs, chunks), 1)
  {
    hide Decode, Flatten, Split, Start;
    assert cs + Flatten(ptrs) + Flatten(chunks) == Assemble(cs, ptrs, chunks, []);
    ParseAssembled(cs, ptrs, chunks, []);
    HandlerReplies(drv, h, a, Assemble(cs, ptrs, chunks, []), 0);
  }

  /** The chunk structs are there. */
  lemma Round3(drv: Driver, h: Helper, m: Mem, a: int, cs: Cs, ptrs: seq<Word>, chunks: seq<Chunk>)
    requires HasChunks(m, a, cs, ptrs, chunks) && NumChunks(cs) != 0
    ensures Round(CsHandler(drv, h, a), m, Ask2(a, cs, ptrs), [])
         == Asking(Ask3(a, cs, ptrs, chunks), CsIovs(a))
  {
    hide Decode, Flatten, Split, Get32, Get64, Gather;
    GatherAsk2(m, a, cs, ptrs, chunks);
    RequestsReceivable(a, cs, ptrs, chunks);
    ReplyChunks(drv, h, a, cs, ptrs, chunks);
    assert Ask3(a, cs, ptrs, chunks)[..1] == CsIovs(a);
  }

  lemma ReplyAll(drv: Driver, h: Helper, a: int, cs: Cs, ptrs: seq<Word>, chunks: seq<Chunk>, d: seq<Byte>)
    requires |ptrs| == |chunks| == NumChunks(cs) <= MAX_CHUNKS && |d| == DataTotal(chunks)
    ensures CsHandler(drv, h, a)(Assemble(cs, ptrs, chunks, d), 32) ==
      if DataTotal(chunks) > SCRATCH_SIZE then Final(EINVAL, Assemble(cs, ptrs, chunks, d))
      else Process(drv, h, cs, chunks, d)
    ensures DataTotal(chunks) > 0 ==> |Assemble(cs, ptrs, chunks, d)| > 32
  {
    hide Decode, Flatten, Split;
    ParseAssembled(cs, ptrs, chunks, d);
    HandlerReplies(drv, h, a, Assemble(cs, ptrs, chunks, d), 32);
  }

  /** Everything is there: the final reply, with the cs struct alone as output. */
  lemma Round4(drv: Driver, h: Helper, m: Mem, a: int, cs: Cs, ptrs: seq<Word>, chunks: seq<Chunk>)
    requires HasChunks(m, a, cs, ptrs, chunks) && AllMapped(m, DataIovs(chunks))
    ensures Round(CsHandler(drv, h, a), m, Ask3(a, cs, ptrs, chunks), CsIovs(a)) ==
      if !Receives(chunks) then Done(EIO, m)
      else var r := Process(drv, h, cs, chunks, Gather(m, DataIovs(chunks)));
        if |r.payload| != 32 then Done(EIO, m) else Done(r.result, Write(m, a, r.payload))
  {
    hide Decode, Flatten, Split, Start, Process, CsHandler, Gather;
    var d := Gather(m, DataIovs(chunks));
    GatherAsk3(m, a, cs, ptrs, chunks);
    GatherLength(m, DataIovs(chunks));
    DataIovsTotal(chunks);
    RequestsReceivable(a, cs, ptrs, chunks);
    ReplyAll(drv, h, a, cs, ptrs, chunks, d);
    if Receives(chunks) {
      RoundToOne(CsHandler(drv, h, a), m, Ask3(a, cs, ptrs, chunks), Iov(a, 32), Process(drv, h, cs, chunks, d));
    }
  }

  /** More chunks than the helper has room for. */
  lemma Round2Refuses(drv: Driver, h: Helper, m: Mem, a: int, cs: Cs)
    requires Mapped(m, a, 32) && cs == Read(m, a, 32) && NumChunks(cs) > MAX_CHUNKS
    ensures Round(CsHandler(drv, h, a), m, Ask1(a, cs), []) ==
      if !Mapped(m, ChunksPtr(cs), PtrBytes(NumChunks(cs))) then Done(EFAULT, m)
      else if PtrBytes(NumChunks(cs)) == 0 then Asking(Ask1(a, cs), [])
      else Done(EIO, m)
  {
    hide Decode, Flatten, Split;
    GatherPtrs(m, a);
    AskTotals(a, cs, [], []);
    if Mapped(m, ChunksPtr(cs), PtrBytes(NumChunks(cs))) {
      var buf := cs + Read(m, ChunksPtr(cs), PtrBytes(NumChunks(cs)));
      assert buf[..32] == cs;
      HandlerReplies(drv, h, a, buf, 0);
    }
  }

  // ----- whole runs -----

  function Run(drv: Driver, h: Helper, m: Mem, a: int, k: nat): Status
  {
    Rounds(CsHandler(drv, h, a), m, k)
  }

  /** Where a run stands after five rounds, by what is mapped and how large it is. */
  function Expected(drv: Driver, h: Helper, m: Mem, a: int): Status
  {
    if !Mapped(m, a, 32) then Done(EFAULT, m)
    else
      var cs := CsAt(m, a);
      if NumChunks(cs) > MAX_CHUNKS then
        if !Mapped(m, ChunksPtr(cs), PtrBytes(NumChunks(cs))) then Done(EFAULT, m)
        else if PtrBytes(NumChunks(cs)) == 0 then Asking(Ask1(a, cs), [])
        else Done(EIO, m)
      else if !PtrsMapped(m, cs) then Done(EFAULT, m)
      else
        var ptrs := PtrsAt(m, cs);
        if !ChunksMapped(m, ptrs) then Done(EFAULT, m)
        else ExpectedLast(drv, h, m, a, cs, ChunksAt(m, ptrs))
  }

  function ExpectedLast(drv: Driver, h: Helper, m: Mem, a: int, cs: Cs, chunks: seq<Chunk>): (s: Status)
    ensures s.Done?
  {
    if !AllMapped(m, DataIovs(chunks)) then Done(EFAULT, m)
    else if !Receives(chunks) then Done(EIO, m)
    else
      var r := Process(drv, h, cs, chunks, Gather(m, DataIovs(chunks)));
      Done(r.result, Write(m, a, r.payload))
  }

  lemma FaultRound(h: Handler, m: Mem, ins: seq<Iov>, outs: seq<Iov>)
    requires !AllMapped(m, ins)
    ensures Round(h, m, ins, outs) == Done(EFAULT, m)
  {
  }

  lemma LastRound(drv: Driver, h: Helper, m: Mem, a: int, cs: Cs, ptrs: seq<Word>, chunks: seq<Chunk>)
    requires h.Valid() && HasChunks(m, a, cs, ptrs, chunks)
    ensures Round(CsHandler(drv, h, a), m, Ask3(a, cs, ptrs, chunks), CsIovs(a))
         == ExpectedLast(drv, h, m, a, cs, chunks)
  {
    hide Decode, Flatten, Split, Start, Process, CsHandler, Gather, Round;
    if AllMapped(m, DataIovs(chunks)) {
      Round4(drv, h, m, a, cs, ptrs, chunks);
      if Receives(chunks) {
        GatherLength(m, DataIovs(chunks));
        DataIovsTotal(chunks);
        ProcessKeepsCs(drv, h, cs, chunks, Gather(m, DataIovs(chunks)));
      }
    } else {
      AllMappedAppend(m, Ask2(a, cs, ptrs), DataIovs(chunks));
      FaultRound(CsHandler(drv, h, a), m, Ask3(a, cs, ptrs, chunks), CsIovs(a));
    }
  }

  /** Five rounds settle every run that is ever settled. */
  lemma Runs(drv: Driver, h: Helper, m: Mem, a: int)
    requires h.Valid()
    ensures Run(drv, h, m, a, 5) == Expected(drv, h, m, a)
  {
    hide Decode, Flatten, Split, Start, Process, CsHandler, Gather, Round;
    var hd := CsHandler(drv, h, a);
    Round0(drv, h, m, a);
    assert Rounds(hd, m, 1) == Asking(CsIovs(a), []);
    if !Mapped(m, a, 32) {
      assert CsIovs(a)[0] in CsIovs(a);
      FaultRound(hd, m, CsIovs(a), []);
      DoneStays(hd, m, 2, 5);
    } else {
      var cs := CsAt(m, a);
      Round1(drv, h, m, a, cs);
      if NumChunks(cs) == 0 {
        assert HasChunks(m, a, cs, [], []);
        LastRound(drv, h, m, a, cs, [], []);
        DoneStays(hd, m, 3, 5);
      } else {
        assert Rounds(hd, m, 2) == Asking(Ask1(a, cs), []);
        RunsFromPtrs(drv, h, m, a, cs);
      }
    }
  }

  lemma RunsFromPtrs(drv: Driver, h: Helper, m: Mem, a: int, cs: Cs)
    requires h.Valid() && Mapped(m, a, 32) && cs == CsAt(m, a) && NumChunks(cs) != 0
    requires Run(drv, h, m, a, 2) == Asking(Ask1(a, cs), [])
    ensures Run(drv, h, m, a, 5) == Expected(drv, h, m, a)
  {
    hide Decode, Flatten, Split, Start, Process, CsHandler, Gather, Round, ExpectedLast;
    var hd := CsHandler(drv, h, a);
    if NumChunks(cs) > MAX_CHUNKS {
      Round2Refuses(drv, h, m, a, cs);
      assert Rounds(hd, m, 3) == Round(hd, m, Ask1(a, cs), []);
      assert Rounds(hd, m, 4) == Rounds(hd, m, 3);
    } else if !PtrsMapped(m, cs) {
      GatherPtrs(m, a);
      FaultRound(hd, m, Ask1(a, cs), []);
      DoneStays(hd, m, 3, 5);
    } else {
      var ptrs := PtrsAt(m, cs);
      Round2(drv, h, m, a, cs, ptrs);
      assert Rounds(hd, m, 3) == Asking(Ask2(a, cs, ptrs), []);
      if !ChunksMapped(m, ptrs) {
        GatherChunks(m, ptrs);
        AllMappedAppend(m, Ask1(a, cs), ChunkIovs(ptrs));
        FaultRound(hd, m, Ask2(a, cs, ptrs), []);
        DoneStays(hd, m, 4, 5);
      } else {
        var chunks := ChunksAt(m, ptrs);
        Round3(drv, h, m, a, cs, ptrs, chunks);
        assert Rounds(hd, m, 4) == Asking(Ask3(a, cs, ptrs, chunks), CsIovs(a));
        LastRound(drv, h, m, a, cs, ptrs, chunks);
      }
    }
  }

  // ----- transparency, and exactly when -----

  /** The bytes of data that the chunk structs name, not reduced to 32 bits. */
  function TrueTotal(chunks: seq<Chunk>): nat
  {
    if chunks == [] then 0 else 4 * LengthDw(chunks[0]) + TrueTotal(chunks[1..])
  }

  lemma {:induction false} TrueTotalBounds(chunks: seq<Chunk>)
    ensures TrueTotal(chunks) <= SCRATCH_SIZE ==> NoWrap(chunks)
    ensures NoWrap(chunks) ==> DataTotal(chunks) == TrueTotal(chunks)
  {
    if chunks != [] {
      TrueTotalBounds(chunks[1..]);
      assert chunks == [chunks[0]] + chunks[1..];
    }
  }

  /** At most 4096 chunks that fit the receive buffer with all their data, as far as memory is mapped. */
  predicate Accepts(m: Mem, a: int)
  {
    Mapped(m, a, 32) ==>
      && NumChunks(CsAt(m, a)) <= MAX_CHUNKS
      && (PtrsMapped(m, CsAt(m, a)) && ChunksMapped(m, PtrsAt(m, CsAt(m, a))) ==>
            IOCTL_IN_SIZE + CS_SIZE + (8 + CHUNK_SIZE) * NumChunks(CsAt(m, a))
              + TrueTotal(ChunksAt(m, PtrsAt(m, CsAt(m, a)))) <= BUFSZ)
  }

  /**
   Transparency.  For every client memory and every driver, an accepted submission ends
   within five rounds with the client memory that running the driver directly on client
   memory gives, and with its status as ioctl() returns it in the helper; where a pointer
   leads nowhere, both fail with EFAULT and change nothing.
   */
  lemma Transparent(drv: Driver, h: Helper, m: Mem, a: int)
    requires h.Valid() && Accepts(m, a)
    ensures var (status, m') := RunDriver(drv, m, a);
      Run(drv, h, m, a, 5) == Done(if Reachable(m, a) then LibcResult(status) else EFAULT, m')
  {
    hide Decode, Flatten, Split, Start, Process, CsHandler, Gather, Answer, Round;
    Runs(drv, h, m, a);
    if Mapped(m, a, 32) && PtrsMapped(m, CsAt(m, a)) && ChunksMapped(m, PtrsAt(m, CsAt(m, a))) {
      var cs := CsAt(m, a);
      var chunks := ChunksAt(m, PtrsAt(m, cs));
      TrueTotalBounds(chunks);
      MappedAlike(m, chunks);
      if DataMapped(m, chunks) {
        ClientReaches(m, a);
        ProcessReplies(drv, h, cs, chunks, Gather(m, DataIovs(chunks)));
      }
    }
  }

  /** The client's ioctl behind the proxy is the one run directly: same result, same memory. */
  ghost predicate SameAsDirect(drv: Driver, h: Helper, m: Mem, a: int)
  {
    Run(drv, h, m, a, 5) == Done(RunDriver(drv, m, a).0, RunDriver(drv, m, a).1)
  }

  /**
   Exactly when, for one driver: an accepted submission that the driver can read ends
   like the direct ioctl if and only if the driver does not answer with an error other
   than -1.  The helper returns what ioctl() returns and loses the error number.
   */
  lemma SameAsDirectExactly(drv: Driver, h: Helper, m: Mem, a: int)
    requires h.Valid() && Reachable(m, a) && Accepts(m, a)
    ensures SameAsDirect(drv, h, m, a) <==> drv(Fetch(m, a)).status >= -1
  {
    hide Run, RunDriver, Accepts, Reachable;
    Transparent(drv, h, m, a);
    DirectStatus(drv, m, a);
  }

  /** A driver that answers EINVAL: the client is told EPERM. */
  lemma ErrorNumberLost(h: Helper)
    requires h.Valid()
    ensures var m := OneChunk(1); var drv: Driver := s => Verdict(EINVAL, 0, 0, 0);
      && RunDriver(drv, m, 0x1000).0 == EINVAL
      && Run(drv, h, m, 0x1000, 5) == Done(-1, RunDriver(drv, m, 0x1000).1)
  {
    hide Run, RunDriver, Accepts, Reachable, OneChunk;
    var drv: Driver := s => Verdict(EINVAL, 0, 0, 0);
    OneChunkAccepted(1);
    Transparent(drv, h, OneChunk(1), 0x1000);
    DirectStatus(drv, OneChunk(1), 0x1000);
  }

  /** A helper whose locals lie below 0x41000, with nothing else mapped. */
  function SmallHelper(): (h: Helper)
    ensures h.Valid()
  {
    Helper(0, 0x1000, 0x1_0000, 0x2_0000, map[])
  }

  lemma SmallImage(c: Cs, p: seq<Word>, k: seq<Chunk>, d: seq<Byte>)
    requires |p| <= MAX_CHUNKS && |k| <= MAX_CHUNKS && |d| <= SCRATCH_SIZE
    ensures forall i | i in SmallHelper().Image(c, p, k, d) :: i < 0x4_1000
  {
    FlattenLength(p);
    FlattenLength(k);
    OffsetUniform(p, 8, |p|);
    OffsetUniform(k, 16, |k|);
  }

  /** A length that wraps leads the driver out of the scratch area. */
  lemma WrappedEscapes(drv: Driver, cs: Cs, chunks: seq<Chunk>, d: seq<Byte>)
    requires |chunks| == NumChunks(cs) <= MAX_CHUNKS && |d| <= SCRATCH_SIZE && !NoWrap(chunks)
    ensures Process(drv, SmallHelper(), cs, chunks, d).result == -1
  {
    hide Decode, Encode, Flatten, Split, Pow256, Start, Put, Helper.Image, Write;
    var h := SmallHelper();
    var c := WithChunksPtr(cs, h.ptrs);
    var p, k := NewPtrs(h, |chunks|), NewChunks(h, chunks);
    var m := h.Image(c, p, k, d);
    ImageReads(h, c, p, k, d);
    RewrittenCs(cs, h.ptrs);
    ImagePtrs(h, m, c, p);
    ImageChunks(h, m, k);
    SmallImage(c, p, k, d);
    var x :| x in chunks && 4 * LengthDw(x) >= TWO_TO_THE_32;
    var i :| 0 <= i < |chunks| && chunks[i] == x;
    StartFits(chunks, i);
    RewrittenChunk(x, h.data + Start(chunks, i));
    assert h.data + Start(chunks, i) + 0x4_1000 !in m;
    assert k[i] in k && !Mapped(m, DataPtr(k[i]), 4 * LengthDw(k[i]));
  }

  lemma StartFits(chunks: seq<Chunk>, i: nat)
    requires i < |chunks| <= MAX_CHUNKS
    ensures SmallHelper().data + Start(chunks, i) < TWO_TO_THE_64
  {
    StartUpTo(chunks, i);
  }

  lemma {:induction false} StartUpTo(chunks: seq<Chunk>, i: nat)
    requires i <= |chunks|
    ensures Start(chunks, i) <= i * TWO_TO_THE_32
  {
    if i > 0 {
      StartUpTo(chunks[1..], i - 1);
    }
  }

  lemma Refuses(drv: Driver, m: Mem, a: int)
    requires Reachable(m, a) && !Accepts(m, a)
    ensures var s := Run(drv, SmallHelper(), m, a, 5);
      s.Done? ==> s.result < 0
  {
    hide Decode, Flatten, Split, Start, Process, Gather, CsHandler, Round, Write;
    var h := SmallHelper();
    Runs(drv, h, m, a);
    var cs := CsAt(m, a);
    if NumChunks(cs) <= MAX_CHUNKS {
      var chunks := ChunksAt(m, PtrsAt(m, cs));
      TrueTotalBounds(chunks);
      if AllMapped(m, DataIovs(chunks)) && Receives(chunks) {
        GatherLength(m, DataIovs(chunks));
        DataIovsTotal(chunks);
        WrappedEscapes(drv, cs, chunks, Gather(m, DataIovs(chunks)));
      }
    }
  }

  /** A driver that answers with a result, or with -1. */
  ghost predicate AnswersSurvive(drv: Driver)
  {
    forall s: Submission :: drv(s).status >= -1
  }

  /**
   Exactly when, for all drivers whose answers survive ioctl(): a submission that the
   driver could read directly is proxied faithfully, wherever the helper's locals lie, if
   and only if it has at most 4096 chunks and fits the receive buffer with all its data.
   The 32-bit length computed by the helper is not enough: 4 * length_dw can wrap.
   */
  lemma TransparentExactly(m: Mem, a: int)
    requires Reachable(m, a)
    ensures Accepts(m, a) <==>
      forall drv: Driver, h: Helper | h.Valid() && AnswersSurvive(drv) :: SameAsDirect(drv, h, m, a)
  {
    hide SameAsDirect, Accepts, Reachable;
    if Accepts(m, a) {
      forall drv: Driver, h: Helper | h.Valid() && AnswersSurvive(drv)
        ensures SameAsDirect(drv, h, m, a)
      {
        SameAsDirectExactly(drv, h, m, a);
      }
    } else {
      var drv: Driver := s => Verdict(1, 0, 0, 0);
      NotSame(drv, m, a);
      assert AnswersSurvive(drv);
      assert !SameAsDirect(drv, SmallHelper(), m, a);
    }
  }

  lemma NotSame(drv: Driver, m: Mem, a: int)
    requires Reachable(m, a) && !Accepts(m, a) && drv(Fetch(m, a)).status >= 0
    ensures !SameAsDirect(drv, SmallHelper(), m, a)
  {
    hide Run, RunDriver, Accepts, Reachable;
    Refuses(drv, m, a);
    DirectStatus(drv, m, a);
  }

  lemma DirectStatus(drv: Driver, m: Mem, a: int)
    requires Reachable(m, a)
    ensures RunDriver(drv, m, a).0 == drv(Fetch(m, a)).status
  {
  }

  // ----- termination -----

  /** 8 * num_chunks is zero in 32 bits although num_chunks is not. */
  predicate Stuck(m: Mem, a: int)
  {
    Mapped(m, a, 32) && NumChunks(CsAt(m, a)) != 0 && NumChunks(CsAt(m, a)) % 0x2000_0000 == 0
  }

  lemma WrapsToZero(m: Mem, a: int)
    requires Mapped(m, a, 32)
    ensures Stuck(m, a) <==> NumChunks(CsAt(m, a)) != 0 && PtrBytes(NumChunks(CsAt(m, a))) == 0
    ensures Stuck(m, a) ==> NumChunks(CsAt(m, a)) > MAX_CHUNKS
  {
    hide Get32;
    var n := NumChunks(CsAt(m, a));
    assert 8 * n % TWO_TO_THE_32 == 8 * (n % 0x2000_0000);
  }

  lemma {:induction false} StuckForever(drv: Driver, h: Helper, m: Mem, a: int, k: nat)
    requires h.Valid() && Stuck(m, a)
    ensures k >= 2 ==> Run(drv, h, m, a, k) == Asking(Ask1(a, CsAt(m, a)), [])
    ensures Run(drv, h, m, a, k).Asking?
  {
    hide Round, Get32, CsHandler;
    var cs := CsAt(m, a);
    WrapsToZero(m, a);
    var hd := CsHandler(drv, h, a);
    Round0(drv, h, m, a);
    assert Rounds(hd, m, 1) == Asking(CsIovs(a), []);
    Round1(drv, h, m, a, cs);
    assert Rounds(hd, m, 2) == Asking(Ask1(a, cs), []);
    if k > 2 {
      StuckForever(drv, h, m, a, k - 1);
      Round2Refuses(drv, h, m, a, cs);
    }
  }

  /** A run ends if and only if 8 * num_chunks does not wrap to zero, and then within five rounds. */
  lemma TerminatesExactly(drv: Driver, h: Helper, m: Mem, a: int)
    requires h.Valid()
    ensures (exists k: nat :: Run(drv, h, m, a, k).Done?) <==> !Stuck(m, a)
    ensures !Stuck(m, a) ==> Run(drv, h, m, a, 5).Done?
  {
    hide Run, ExpectedLast, Get32;
    Runs(drv, h, m, a);
    if Stuck(m, a) {
      forall k: nat
        ensures Run(drv, h, m, a, k).Asking?
      {
        StuckForever(drv, h, m, a, k);
      }
    } else {
      if Mapped(m, a, 32) {
        WrapsToZero(m, a);
      }
      assert Run(drv, h, m, a, 5).Done?;
    }
  }

  /**
   Whatever the client passes and whatever the driver does, a run that ends leaves
   client memory unchanged or writes one cs struct at the argument, with the client's
   own num_chunks and chunks pointer in it.
   */
  lemma ClientFrame(drv: Driver, h: Helper, m: Mem, a: int, k: nat)
    requires h.Valid() && Run(drv, h, m, a, k).Done?
    ensures var m' := Run(drv, h, m, a, k).mem;
      || m' == m
      || (&& Mapped(m, a, 32)
          && exists b: Cs :: m' == Write(m, a, b) && NumChunks(b) == NumChunks(CsAt(m, a))
                             && ChunksPtr(b) == ChunksPtr(CsAt(m, a)))
  {
    hide Decode, Flatten, Split, Start, Process, Gather, CsHandler, Round, Write, Get32, Get64;
    var hd := CsHandler(drv, h, a);
    TerminatesExactly(drv, h, m, a);
    DoneStays(hd, m, k, if k < 5 then 5 else k);
    DoneStays(hd, m, 5, if k < 5 then 5 else k);
    Runs(drv, h, m, a);
    if Mapped(m, a, 32) && NumChunks(CsAt(m, a)) <= MAX_CHUNKS {
      var cs := CsAt(m, a);
      if PtrsMapped(m, cs) && ChunksMapped(m, PtrsAt(m, cs)) {
        var chunks := ChunksAt(m, PtrsAt(m, cs));
        if AllMapped(m, DataIovs(chunks)) && Receives(chunks) {
          GatherLength(m, DataIovs(chunks));
          DataIovsTotal(chunks);
          ProcessKeepsCs(drv, h, cs, chunks, Gather(m, DataIovs(chunks)));
        }
      }
    }
  }

  // ----- submissions that fall outside -----

  function ZeroMem(): (m: Mem)
    ensures Mapped(m, 0, 4 * TWO_TO_THE_32)
  {
    Write(map[], 0, Zeros(4 * TWO_TO_THE_32))
  }

  /** Memory with a cs struct at 0x1000 that names one chunk, whose data is at address 0. */
  function OneChunk(lengthDw: U32): Mem
  {
    Write(Write(Write(ZeroMem(), 0x3000, TheChunk(lengthDw)), 0x2000, ThePtr()), 0x1000, TheCs(1))
  }

  function ThePtr(): Word { Encode(0x3000, 8) }

  function TheCs(n: U32): Cs { Put(Put(seq(32, _ => 0), 0, 4, n), 8, 8, 0x2000) }

  function TheChunk(lengthDw: U32): Chunk { Put(Put(seq(16, _ => 0), 4, 4, lengthDw), 8, 8, 0) }

  lemma TheCsFields(n: U32)
    ensures NumChunks(TheCs(n)) == n && ChunksPtr(TheCs(n)) == 0x2000
  {
    hide Put, Get, Pow256;
    WordBounds();
    var zeros := seq(32, _ => 0);
    GetPutSame(zeros, 0, 4, n);
    GetPutOther(Put(zeros, 0, 4, n), 8, 8, 0x2000, 0, 4);
    GetPutSame(Put(zeros, 0, 4, n), 8, 8, 0x2000);
  }

  lemma TheChunkFields(lengthDw: U32)
    ensures LengthDw(TheChunk(lengthDw)) == lengthDw && DataPtr(TheChunk(lengthDw)) == 0
  {
    hide Put, Get, Pow256;
    WordBounds();
    var zeros := seq(16, _ => 0);
    GetPutSame(zeros, 4, 4, lengthDw);
    GetPutOther(Put(zeros, 4, 4, lengthDw), 8, 8, 0, 4, 4);
    GetPutSame(Put(zeros, 4, 4, lengthDw), 8, 8, 0);
  }

  lemma OneChunkReads(lengthDw: U32)
    ensures var m := OneChunk(lengthDw);
      && Mapped(m, 0x1000, 32) && Read(m, 0x1000, 32) == TheCs(1)
      && Mapped(m, 0x2000, 8) && Read(m, 0x2000, 8) == ThePtr()
      && Mapped(m, 0x3000, 16) && Read(m, 0x3000, 16) == TheChunk(lengthDw)
      && Mapped(m, 0, 4 * lengthDw)
  {
    hide ThePtr, Write, TheCs, TheChunk, ZeroMem;
    var chunk, ptr, cs := TheChunk(lengthDw), ThePtr(), TheCs(1);
    var m1 := Write(ZeroMem(), 0x3000, chunk);
    var m2 := Write(m1, 0x2000, ptr);
    ReadWritten(m2, 0x1000, cs);
    ReadWritten(m1, 0x2000, ptr);
    ReadApart(m2, 0x1000, cs, 0x2000, 8);
    ReadWritten(ZeroMem(), 0x3000, chunk);
    ReadApart(m1, 0x2000, ptr, 0x3000, 16);
    ReadApart(m2, 0x1000, cs, 0x3000, 16);
  }

  /** A cs struct with one chunk, followed through memory. */
  lemma OneChunkAt(m: Mem, a: int, cs: Cs, ptr: Word, chunk: Chunk)
    requires Mapped(m, a, 32) && Read(m, a, 32) == cs && NumChunks(cs) == 1
    requires Mapped(m, ChunksPtr(cs), 8) && Read(m, ChunksPtr(cs), 8) == ptr
    requires Mapped(m, Address(ptr), 16) && Read(m, Address(ptr), 16) == chunk
    requires Mapped(m, DataPtr(chunk), 4 * LengthDw(chunk))
    ensures HasChunks(m, a, cs, [ptr], [chunk]) && Reachable(m, a)
  {
    hide Get32, Get64, Split, Read, Mapped;
    OnePtr(ptr);
    assert PtrsAt(m, cs) == [ptr];
    assert ChunksAt(m, [ptr]) == [chunk];
  }

  /** The driver can read this submission directly, however long its chunk claims to be. */
  lemma OneChunkReachable(lengthDw: U32)
    ensures var m := OneChunk(lengthDw);
      && HasChunks(m, 0x1000, TheCs(1), [ThePtr()], [TheChunk(lengthDw)])
      && Reachable(m, 0x1000)
  {
    hide Get32, Get64, ThePtr, TheCs, TheChunk, OneChunk, Address, Read, Mapped, HasChunks, Reachable;
    OneChunkReads(lengthDw);
    TheCsFields(1);
    TheChunkFields(lengthDw);
    PtrAddress();
    OneChunkAt(OneChunk(lengthDw), 0x1000, TheCs(1), ThePtr(), TheChunk(lengthDw));
  }

  lemma OnePtr(w: Word)
    ensures Split(w, 8) == [w]
  {
    assert w[..8] == w && w[8..] == [];
  }

  lemma PtrAddress()
    ensures Address(ThePtr()) == 0x3000
  {
    hide Encode, Decode;
    WordBounds();
    DecodeEncode(0x3000, 8);
    assert ThePtr()[0..8] == ThePtr();
  }

  /** It is accepted exactly up to 0x83EA dwords: the 0x8400 that fill the scratch area are too many. */
  lemma OneChunkAccepted(lengthDw: U32)
    ensures Reachable(OneChunk(lengthDw), 0x1000)
    ensures Accepts(OneChunk(lengthDw), 0x1000) <==> lengthDw <= 0x83EA
    ensures lengthDw == 0x4000_0000 ==> DataTotal([TheChunk(lengthDw)]) == 0
  {
    hide Reachable, OneChunk, TheCs, TheChunk, Get32, Get64;
    OneChunkReachable(lengthDw);
    TheCsFields(1);
    TheChunkFields(lengthDw);
    assert [TheChunk(lengthDw)][1..] == [];
    OneTrueTotal(TheChunk(lengthDw));
    StartStep([TheChunk(lengthDw)], 0);
  }

  lemma OneTrueTotal(c: Chunk)
    ensures TrueTotal([c]) == 4 * LengthDw(c)
  {
    assert [c][1..] == [];
  }

  /** A count of 2^29 keeps the helper asking for ever. */
  lemma StuckExists()
    ensures Stuck(Write(map[], 0x1000, TheCs(0x2000_0000)), 0x1000)
  {
    hide TheCs, Write, Get32;
    ReadWritten(map[], 0x1000, TheCs(0x2000_0000));
    TheCsFields(0x2000_0000);
  }

  // ----- what is asked for, round after round -----

  /** The lists of ranges that a run can ask for. */
  predicate AskedFor(m: Mem, a: int, ins: seq<Iov>, outs: seq<Iov>)
  {
    || (ins == [] && outs == [])
    || (ins == CsIovs(a) && outs == [])
    || (&& Mapped(m, a, 32)
        && var cs := CsAt(m, a);
        || (NumChunks(cs) != 0 && ins == Ask1(a, cs) && outs == [])
        || (&& NumChunks(cs) <= MAX_CHUNKS && PtrsMapped(m, cs)
            && var ptrs := PtrsAt(m, cs);
            || (NumChunks(cs) != 0 && ins == Ask2(a, cs, ptrs) && outs == [])
            || (ChunksMapped(m, ptrs) && ins == Ask3(a, cs, ptrs, ChunksAt(m, ptrs)) && outs == CsIovs(a))))
  }

  lemma FinalRoundEnds(drv: Driver, h: Helper, m: Mem, a: int, cs: Cs, ptrs: seq<Word>, chunks: seq<Chunk>)
    requires h.Valid() && HasChunks(m, a, cs, ptrs, chunks)
    ensures Round(CsHandler(drv, h, a), m, Ask3(a, cs, ptrs, chunks), CsIovs(a)).Done?
    ensures AllMapped(m, Ask3(a, cs, ptrs, chunks)) ==> WellFormed(Gather(m, Ask3(a, cs, ptrs, chunks)))
  {
    hide Decode, Flatten, Split, Start, Process, CsHandler, Gather, Round;
    LastRound(drv, h, m, a, cs, ptrs, chunks);
    AllMappedAppend(m, Ask2(a, cs, ptrs), DataIovs(chunks));
    if AllMapped(m, DataIovs(chunks)) {
      GatherAsk3(m, a, cs, ptrs, chunks);
      GatherLength(m, DataIovs(chunks));
      DataIovsTotal(chunks);
      ParseAssembled(cs, ptrs, chunks, Gather(m, DataIovs(chunks)));
    }
  }

  lemma SecondRound(drv: Driver, h: Helper, m: Mem, a: int)
    requires h.Valid()
    ensures var s := Round(CsHandler(drv, h, a), m, CsIovs(a), []);
      s.Asking? ==> AskedFor(m, a, s.ins, s.outs) && CsIovs(a) < s.ins
    ensures AllMapped(m, CsIovs(a)) ==> WellFormed(Gather(m, CsIovs(a)))
  {
    hide Decode, Flatten, Split, Start, CsHandler, Gather, Round;
    assert CsIovs(a)[0] in CsIovs(a);
    if Mapped(m, a, 32) {
      var cs := CsAt(m, a);
      GatherCs(m, a);
      Round1(drv, h, m, a, cs);
      if NumChunks(cs) == 0 {
        assert HasChunks(m, a, cs, [], []);
      }
    } else {
      FaultRound(CsHandler(drv, h, a), m, CsIovs(a), []);
    }
  }

  lemma ThirdRound(drv: Driver, h: Helper, m: Mem, a: int, cs: Cs)
    requires h.Valid() && Mapped(m, a, 32) && cs == CsAt(m, a) && NumChunks(cs) != 0
    ensures var s := Round(CsHandler(drv, h, a), m, Ask1(a, cs), []);
      s.Asking? ==> AskedFor(m, a, s.ins, s.outs) && (!Stuck(m, a) ==> Ask1(a, cs) < s.ins)
    ensures AllMapped(m, Ask1(a, cs)) ==> WellFormed(Gather(m, Ask1(a, cs)))
  {
    hide Decode, Flatten, Split, Start, CsHandler, Gather, Round, Get32, PtrsAt;
    GatherPtrs(m, a);
    if NumChunks(cs) > MAX_CHUNKS {
      WrapsToZero(m, a);
      Round2Refuses(drv, h, m, a, cs);
      if AllMapped(m, Ask1(a, cs)) {
        assert Gather(m, Ask1(a, cs))[..32] == cs;
      }
    } else if PtrsMapped(m, cs) {
      var ptrs := PtrsAt(m, cs);
      Round2(drv, h, m, a, cs, ptrs);
      GatherAsk1(m, a, cs, ptrs);
      ParsePtrs(cs, ptrs);
    } else {
      FaultRound(CsHandler(drv, h, a), m, Ask1(a, cs), []);
    }
  }

  lemma FourthRound(drv: Driver, h: Helper, m: Mem, a: int, cs: Cs, ptrs: seq<Word>)
    requires h.Valid() && HasPtrs(m, a, cs, ptrs) && NumChunks(cs) != 0
    ensures var s := Round(CsHandler(drv, h, a), m, Ask2(a, cs, ptrs), []);
      s.Asking? ==> AskedFor(m, a, s.ins, s.outs) && Ask2(a, cs, ptrs) < s.ins
    ensures AllMapped(m, Ask2(a, cs, ptrs)) ==> WellFormed(Gather(m, Ask2(a, cs, ptrs)))
  {
    hide Decode, Flatten, Split, Start, CsHandler, Gather, Round;
    GatherChunks(m, ptrs);
    AllMappedAppend(m, Ask1(a, cs), ChunkIovs(ptrs));
    if ChunksMapped(m, ptrs) {
      var chunks := ChunksAt(m, ptrs);
      Round3(drv, h, m, a, cs, ptrs, chunks);
      GatherAsk2(m, a, cs, ptrs, chunks);
      ParseAssembled(cs, ptrs, chunks, []);
      assert Assemble(cs, ptrs, chunks, []) == cs + Flatten(ptrs) + Flatten(chunks);
    } else {
      FaultRound(CsHandler(drv, h, a), m, Ask2(a, cs, ptrs), []);
    }
  }

  predicate GoesOn(m: Mem, a: int, ins: seq<Iov>, s: Status)
  {
    s.Asking? ==> AskedFor(m, a, s.ins, s.outs) && (!Stuck(m, a) ==> ins < s.ins)
  }

  lemma NextRound(drv: Driver, h: Helper, m: Mem, a: int, ins: seq<Iov>, outs: seq<Iov>)
    requires h.Valid() && AskedFor(m, a, ins, outs)
    ensures AllMapped(m, ins) ==> WellFormed(Gather(m, ins))
    ensures GoesOn(m, a, ins, Round(CsHandler(drv, h, a), m, ins, outs))
  {
    hide Decode, Flatten, Split, Start, CsHandler, Gather, Round, WellFormed, Get32, Ask1, Ask2, Ask3, CsIovs;
    hide AllMapped, Stuck;
    if ins == [] && outs == [] {
      Round0(drv, h, m, a);
      EmptyIsWellFormed(m);
      assert 0 < |CsIovs(a)| by { CsIovsLength(a); }
    } else if ins == CsIovs(a) && outs == [] {
      SecondRound(drv, h, m, a);
    } else {
      var cs := CsAt(m, a);
      if NumChunks(cs) != 0 && ins == Ask1(a, cs) && outs == [] {
        ThirdRound(drv, h, m, a, cs);
      } else {
        var ptrs := PtrsAt(m, cs);
        if NumChunks(cs) != 0 && ins == Ask2(a, cs, ptrs) && outs == [] {
          FourthRound(drv, h, m, a, cs, ptrs);
        } else {
          FinalRoundEnds(drv, h, m, a, cs, ptrs, ChunksAt(m, ptrs));
        }
      }
    }
  }

  lemma CsIovsLength(a: int)
    ensures |CsIovs(a)| == 1
  {
  }

  /**
   In every round of every run the helper is handed a buffer of a length it can parse,
   and unless 8 * num_chunks wraps to zero it asks for strictly more than last time.
   */
  lemma {:induction false} AsksForMore(drv: Driver, h: Helper, m: Mem, a: int, k: nat)
    requires h.Valid() && Run(drv, h, m, a, k).Asking?
    ensures var s := Run(drv, h, m, a, k);
      && AskedFor(m, a, s.ins, s.outs)
      && (AllMapped(m, s.ins) ==> WellFormed(Gather(m, s.ins)))
      && GoesOn(m, a, s.ins, Run(drv, h, m, a, k + 1))
  {
    hide CsHandler, Gather, Round, WellFormed, AllMapped, Stuck, AskedFor;
    if k == 0 {
      AskedForNothing(m, a);
    } else {
      AsksForMore(drv, h, m, a, k - 1);
    }
    var s := Run(drv, h, m, a, k);
    NextRound(drv, h, m, a, s.ins, s.outs);
  }

  lemma AskedForNothing(m: Mem, a: int)
    ensures AskedFor(m, a, [], [])
  {
  }

  lemma EmptyIsWellFormed(m: Mem)
    ensures WellFormed(Gather(m, []))
  {
    assert Pieces(m, []) == [];
  }
}
