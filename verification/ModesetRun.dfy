/** Whole runs of a modeset ioctl over every client memory and every callback. */
module ModesetRun {
  import opened Bytes
  import opened Memory
  import opened Kernel
  import opened IoctlTable
  import opened Generator
  import opened GeneratedCode
  import opened Modeset

  function RootIovs(decls: seq<Decl>, a: int): seq<Iov>
    requires ModesetEntry(decls)
  {
    [Iov(a, decls[0].size.n)]
  }

  function AllIovs(decls: seq<Decl>, a: int, root: seq<Byte>): seq<Iov>
    requires ModesetEntry(decls) && |root| == decls[0].size.n
  {
    RootIovs(decls, a) + ArrayIovs(decls, root)
  }

  function Run(decls: seq<Decl>, cb: Callback, delivered: bool, m: Mem, a: int, k: nat): Status
    requires ModesetEntry(decls)
  {
    Rounds(ModesetHandler(decls, cb, delivered, a), m, k)
  }

  lemma HandlerReplies(decls: seq<Decl>, cb: Callback, delivered: bool, a: int, buf: seq<Byte>, outsize: nat)
    requires ModesetEntry(decls)
    ensures ModesetHandler(decls, cb, delivered, a)(buf, outsize) ==
      match ParseEntry(decls, Call(a, buf, outsize))
      case Ask(ins, outCount) => Retry(ins, outCount)
      case Refuse(payload) => Final(EINVAL, payload)
      case Undefined => Final(EINVAL, [])
      case Forward(payload) => Forwarded(decls, cb, delivered, payload)
  {
    GeneratedIsCorrect(decls, Call(a, buf, outsize));
  }

  // ----- gather and parse agree -----

  lemma PiecesLengths(decls: seq<Decl>, m: Mem, root: seq<Byte>)
    requires ModesetEntry(decls) && |root| == decls[0].size.n
    requires AllMapped(m, ArrayIovs(decls, root))
    ensures Lengths(Pieces(m, ArrayIovs(decls, root))) == SizeList(decls, root)
  {
    hide ModesetEntry, Sizes;
  }

  /** The gathered payload is the root followed by exactly the arrays it counts. */
  lemma GatheredIsComplete(decls: seq<Decl>, m: Mem, a: int, root: seq<Byte>)
    requires ModesetEntry(decls) && Mapped(m, a, decls[0].size.n) && root == Read(m, a, decls[0].size.n)
    requires AllMapped(m, ArrayIovs(decls, root))
    ensures AllMapped(m, AllIovs(decls, a, root))
    ensures var payload := Gather(m, AllIovs(decls, a, root));
      && payload == root + Flatten(Pieces(m, ArrayIovs(decls, root)))
      && Complete(decls, payload) && payload[..decls[0].size.n] == root
      && ArraysOf(decls, payload) == Pieces(m, ArrayIovs(decls, root))
  {
    hide Sizes, Flatten, Cut;
    var arrays := Pieces(m, ArrayIovs(decls, root));
    var size := decls[0].size.n;
    GatherOne(m, Iov(a, size));
    GatherAppend(m, RootIovs(decls, a), ArrayIovs(decls, root));
    CutFlatten(arrays);
    PiecesLengths(decls, m, root);
    var payload := root + Flatten(arrays);
    assert payload[..size] == root && payload[size..] == Flatten(arrays);
  }

  // ----- the rounds -----

  lemma Round0(decls: seq<Decl>, cb: Callback, delivered: bool, m: Mem, a: int)
    requires ModesetEntry(decls)
    ensures Round(ModesetHandler(decls, cb, delivered, a), m, [], [])
         == Asking(RootIovs(decls, a), if |decls| == 1 then RootIovs(decls, a) else [])
  {
    assert Pieces(m, []) == [];
    HandlerReplies(decls, cb, delivered, a, [], 0);
    assert RootIovs(decls, a)[..1] == RootIovs(decls, a);
  }

  lemma Round1(decls: seq<Decl>, cb: Callback, delivered: bool, m: Mem, a: int, root: seq<Byte>)
    requires ModesetEntry(decls) && |decls| > 1
    requires Mapped(m, a, decls[0].size.n) && root == Read(m, a, decls[0].size.n)
    ensures Round(ModesetHandler(decls, cb, delivered, a), m, RootIovs(decls, a), []) ==
      if !Receivable(RootIovs(decls, a)) then Done(EIO, m)
      else if WithinLimits(decls, root) then Asking(AllIovs(decls, a, root), AllIovs(decls, a, root))
      else Done(EIO, m)
  {
    hide Sizes, WithinLimit;
    GatherOne(m, Iov(a, decls[0].size.n));
    assert root[..decls[0].size.n] == root;
    HandlerReplies(decls, cb, delivered, a, root, 0);
    assert Total([]) == 0;
  }

  /** The final reply once everything is gathered; with no arrays the root is everything. */
  function LastReply(decls: seq<Decl>, cb: Callback, delivered: bool, payload: seq<Byte>): Reply
    requires ModesetEntry(decls) && Complete(decls, payload)
  {
    if !delivered then Final(EINVAL, payload)
    else if !Returnable(|payload|) then Final(EINVAL, Zeros(|payload|))
    else Final(LibraryReply(decls, cb, payload).0, LibraryReply(decls, cb, payload).1)
  }

  lemma {:induction false} SumFirst(lens: seq<nat>)
    requires lens != []
    ensures Sum(lens) >= lens[0]
  {
  }

  lemma LastCall(decls: seq<Decl>, cb: Callback, delivered: bool, a: int, payload: seq<Byte>, outsize: nat)
    requires ModesetEntry(decls) && Complete(decls, payload) && outsize > 0
    ensures ModesetHandler(decls, cb, delivered, a)(payload, outsize) == LastReply(decls, cb, delivered, payload)
  {
    hide LibraryReply, Sizes;
    HandlerReplies(decls, cb, delivered, a, payload, outsize);
    var size := decls[0].size.n;
    if |decls| > 1 {
      SumFirst(SizeList(decls, payload[..size]));
      assert SizeList(decls, payload[..size])[0] == Sizes(decls, payload[..size], 1);
    }
  }

  lemma RootIsAll(decls: seq<Decl>, a: int, root: seq<Byte>)
    requires ModesetEntry(decls) && |decls| == 1 && |root| == decls[0].size.n
    ensures AllIovs(decls, a, root) == RootIovs(decls, a)
  {
  }

  lemma AllIovsTotal(decls: seq<Decl>, m: Mem, a: int, root: seq<Byte>)
    requires ModesetEntry(decls) && Mapped(m, a, decls[0].size.n) && root == Read(m, a, decls[0].size.n)
    requires AllMapped(m, ArrayIovs(decls, root))
    ensures Total(AllIovs(decls, a, root)) == |root| + Sum(SizeList(decls, root)) >= decls[0].size.n > 0
    ensures AllMapped(m, AllIovs(decls, a, root))
    ensures |Gather(m, AllIovs(decls, a, root))| == Total(AllIovs(decls, a, root))
  {
    hide Sizes, Flatten, Cut, ArraysOf;
    GatheredIsComplete(decls, m, a, root);
    GatherLength(m, AllIovs(decls, a, root));
  }

  /** What the last round does, once everything is mapped. */
  function LastStatus(decls: seq<Decl>, cb: Callback, delivered: bool, m: Mem, a: int, root: seq<Byte>): Status
    requires ModesetEntry(decls) && |root| == decls[0].size.n && AllMapped(m, ArrayIovs(decls, root))
  {
    var iovs := AllIovs(decls, a, root);
    if !Receivable(iovs) then Done(EIO, m)
    else if !delivered then Done(EINVAL, m)
    else if !Returnable(Total(iovs)) then Done(EINVAL, Scatter(m, iovs, Zeros(Total(iovs))))
    else
      var arrays := Pieces(m, ArrayIovs(decls, root));
      var e := cb(View(Blank(decls, root), arrays));
      Done(e.result, WriteBlocks(Write(m, a, NewRoot(decls, root, e)),
                                 Bases(ArrayIovs(decls, root)), NewArrays(arrays, e)))
  }

  /** The last round, by whether the payload is received, sent and comes back whole. */
  lemma Round2(decls: seq<Decl>, cb: Callback, delivered: bool, m: Mem, a: int, root: seq<Byte>)
    requires ModesetEntry(decls)
    requires Mapped(m, a, decls[0].size.n) && root == Read(m, a, decls[0].size.n)
    requires AllMapped(m, ArrayIovs(decls, root))
    ensures var iovs := AllIovs(decls, a, root);
      Round(ModesetHandler(decls, cb, delivered, a), m, iovs, iovs) == LastStatus(decls, cb, delivered, m, a, root)
  {
    hide Sizes, Flatten, Cut, ArraysOf, Complete, NewRoot, Blank, Gather, Total, Scatter;
    var iovs := AllIovs(decls, a, root);
    var h := ModesetHandler(decls, cb, delivered, a);
    GatheredIsComplete(decls, m, a, root);
    AllIovsTotal(decls, m, a, root);
    var payload := Gather(m, iovs);
    LastCall(decls, cb, delivered, a, payload, Total(iovs));
    if Receivable(iovs) {
      if !delivered {
        EchoLeavesMemory(h, m, iovs, EINVAL);
      } else if Returnable(Total(iovs)) {
        var arrays := Pieces(m, ArrayIovs(decls, root));
        var e := cb(View(Blank(decls, root), arrays));
        FlattenCons(NewRoot(decls, root, e), NewArrays(arrays, e));
        ScatterBlocks(m, iovs, [NewRoot(decls, root, e)] + NewArrays(arrays, e));
        BlocksCons(m, decls, a, root, NewRoot(decls, root, e), NewArrays(arrays, e));
      }
    }
  }

  lemma FlattenCons(b: seq<Byte>, blocks: seq<seq<Byte>>)
    ensures Flatten([b] + blocks) == b + Flatten(blocks)
  {
    assert ([b] + blocks)[1..] == blocks;
  }

  lemma BlocksCons(m: Mem, decls: seq<Decl>, a: int, root: seq<Byte>, b: seq<Byte>, blocks: seq<seq<Byte>>)
    requires ModesetEntry(decls) && |root| == decls[0].size.n && |blocks| == |decls| - 1
    ensures WriteBlocks(m, Bases(AllIovs(decls, a, root)), [b] + blocks)
         == WriteBlocks(Write(m, a, b), Bases(ArrayIovs(decls, root)), blocks)
  {
    var at := Bases(AllIovs(decls, a, root));
    assert at[1..] == Bases(ArrayIovs(decls, root));
    assert ([b] + blocks)[1..] == blocks;
  }

  // ----- whole runs -----

  /** Where a run stands after three rounds. */
  function Expected(decls: seq<Decl>, cb: Callback, delivered: bool, m: Mem, a: int): Status
    requires ModesetEntry(decls)
  {
    if !Mapped(m, a, decls[0].size.n) then Done(EFAULT, m)
    else
      var root := Read(m, a, decls[0].size.n);
      if !Receivable(RootIovs(decls, a)) then Done(EIO, m)
      else if !WithinLimits(decls, root) then Done(EIO, m)
      else if !AllMapped(m, ArrayIovs(decls, root)) then Done(EFAULT, m)
      else LastStatus(decls, cb, delivered, m, a, root)
  }

  lemma FaultRound(h: Handler, m: Mem, v: Iov, ins: seq<Iov>, outs: seq<Iov>)
    requires v in ins && !Mapped(m, v.base, v.len)
    ensures Round(h, m, ins, outs) == Done(EFAULT, m)
  {
  }

  /** Whether an entry with arrays goes into a third round. */
  predicate AsksForArrays(decls: seq<Decl>, m: Mem, a: int)
    requires ModesetEntry(decls)
  {
    && |decls| > 1
    && Mapped(m, a, decls[0].size.n)
    && Receivable(RootIovs(decls, a))
    && WithinLimits(decls, Read(m, a, decls[0].size.n))
  }

  /**
   Every run asks for the root first.  If the entry has arrays, and only then, the counts may
   lead to a second request, which strictly extends the first; otherwise the run is settled by
   its second round, and in any case by its third.
   */
  lemma Runs(decls: seq<Decl>, cb: Callback, delivered: bool, m: Mem, a: int)
    requires ModesetEntry(decls)
    ensures Run(decls, cb, delivered, m, a, 1)
         == Asking(RootIovs(decls, a), if |decls| == 1 then RootIovs(decls, a) else [])
    ensures !AsksForArrays(decls, m, a) ==>
      Run(decls, cb, delivered, m, a, 2) == Expected(decls, cb, delivered, m, a)
    ensures AsksForArrays(decls, m, a) ==>
      var iovs := AllIovs(decls, a, Read(m, a, decls[0].size.n));
      RootIovs(decls, a) < iovs && Run(decls, cb, delivered, m, a, 2) == Asking(iovs, iovs)
    ensures Run(decls, cb, delivered, m, a, 3) == Expected(decls, cb, delivered, m, a)
  {
    hide Round, WithinLimit, Sizes, NewRoot, NewArrays, Blank, ModesetHandler, ArrayDecl;
    var h := ModesetHandler(decls, cb, delivered, a);
    var size := decls[0].size.n;
    Round0(decls, cb, delivered, m, a);
    assert Rounds(h, m, 1) == Asking(RootIovs(decls, a), if |decls| == 1 then RootIovs(decls, a) else []);
    if !Mapped(m, a, size) {
      FaultRound(h, m, Iov(a, size), RootIovs(decls, a), if |decls| == 1 then RootIovs(decls, a) else []);
      DoneStays(h, m, 2, 3);
    } else {
      var root := Read(m, a, size);
      if |decls| == 1 {
        RootIsAll(decls, a, root);
        Round2(decls, cb, delivered, m, a, root);
        DoneStays(h, m, 2, 3);
      } else {
        RunsFromRoot(decls, cb, delivered, m, a, root);
      }
    }
  }

  lemma RunsFromRoot(decls: seq<Decl>, cb: Callback, delivered: bool, m: Mem, a: int, root: seq<Byte>)
    requires ModesetEntry(decls) && |decls| > 1
    requires Mapped(m, a, decls[0].size.n) && root == Read(m, a, decls[0].size.n)
    requires Run(decls, cb, delivered, m, a, 1) == Asking(RootIovs(decls, a), [])
    ensures Run(decls, cb, delivered, m, a, 2) ==
      if AsksForArrays(decls, m, a) then Asking(AllIovs(decls, a, root), AllIovs(decls, a, root))
      else Expected(decls, cb, delivered, m, a)
    ensures RootIovs(decls, a) < AllIovs(decls, a, root)
    ensures Run(decls, cb, delivered, m, a, 3) == Expected(decls, cb, delivered, m, a)
  {
    hide Round, WithinLimit, Sizes, NewRoot, NewArrays, Blank, ModesetHandler, ArrayDecl, ArrayIovs;
    var h := ModesetHandler(decls, cb, delivered, a);
    Round1(decls, cb, delivered, m, a, root);
    if !AsksForArrays(decls, m, a) {
      DoneStays(h, m, 2, 3);
    } else {
      var iovs := AllIovs(decls, a, root);
      assert Rounds(h, m, 2) == Asking(iovs, iovs);
      if AllMapped(m, ArrayIovs(decls, root)) {
        Round2(decls, cb, delivered, m, a, root);
      } else {
        var v :| v in ArrayIovs(decls, root) && !Mapped(m, v.base, v.len);
        FaultRound(h, m, v, iovs, iovs);
      }
    }
  }

  /** The helper for an entry without arguments, such as DRM_IOCTL_SET_MASTER; answer is the callback's, given NULL. */
  function NoArgumentHandler(answer: int, delivered: bool, arg: int): Handler
  {
    (buf: seq<Byte>, outsize: nat) =>
      match RunCode([CallModesetNoArgument], Call(arg, buf, outsize))
      case Forward(payload) => Final(if delivered then answer else EINVAL, payload)
      case _ => Final(EINVAL, [])
  }

  /** It asks for nothing: its first round settles the run, and client memory is not touched. */
  lemma NoArgumentRuns(answer: int, delivered: bool, m: Mem, a: int, k: nat)
    requires k > 0
    ensures Rounds(NoArgumentHandler(answer, delivered, a), m, k) == Done(if delivered then answer else EINVAL, m)
  {
    var h := NoArgumentHandler(answer, delivered, a);
    assert Pieces(m, []) == [];
    assert Rounds(h, m, 1) == Round(h, m, [], []);
    assert h([], 0) == Final(if delivered then answer else EINVAL, []);
    DoneStays(h, m, 1, k);
  }

  // ----- results -----

  /** The arrays do not overlap the root struct. */
  predicate RootApart(decls: seq<Decl>, a: int, root: seq<Byte>)
    requires ModesetEntry(decls) && |root| == decls[0].size.n
  {
    forall v | v in Described(decls, root) :: Apart(a, decls[0].size.n, v.base, v.len)
  }

  lemma CallbackWrites(decls: seq<Decl>, cb: Callback, m: Mem, a: int,
                       root: seq<Byte>, b: seq<Byte>, blocks: seq<seq<Byte>>)
    requires ModesetEntry(decls) && |root| == |b| == decls[0].size.n && RootApart(decls, a, root)
    requires AllMapped(m, Described(decls, root))
    requires |blocks| == |decls| - 1
    requires forall i | 0 <= i < |blocks| :: |blocks[i]| == Described(decls, root)[i].len
    ensures var at := Bases(Described(decls, root));
      WriteBlocks(Write(m, a, b), at, blocks) == Write(WriteBlocks(m, at, blocks), a, b)
  {
    hide TrueSize, Get;
    var v := Described(decls, root);
    forall i | 0 <= i < |v|
      ensures Apart(a, |b|, Bases(v)[i], |blocks[i]|)
    {
      assert v[i] in v;
    }
    WriteBeforeBlocks(m, a, b, Bases(v), blocks);
  }

  /**
   Transparency.  For every table entry, client memory and callback, an ioctl that is
   sent, whose arrays are within their limits and apart from the root and whose payload
   is small enough to come back, ends within three rounds with the result and the client
   memory of the callback run directly on client memory.  The callback may change the
   counts: what it stores still goes to the client's own buffers, at most their size, and
   the client's pointers come back.
   */
  lemma Transparent(decls: seq<Decl>, cb: Callback, m: Mem, a: int)
    requires ModesetEntry(decls)
    requires Mapped(m, a, decls[0].size.n) ==>
      var root := Read(m, a, decls[0].size.n);
      Admitted(decls, root) && Answerable(decls, root) && RootApart(decls, a, root)
    ensures var (result, m') := RunCallback(decls, cb, m, a);
      Run(decls, cb, true, m, a, 3) == Done(result, m')
  {
    hide Run, NewRoot, Blank, Sizes, TrueSize, Described, ArrayIovs, Fits, WithinLimit;
    Runs(decls, cb, true, m, a);
    if Mapped(m, a, decls[0].size.n) {
      var root := Read(m, a, decls[0].size.n);
      AdmittedSizes(decls, root);
      AnswerableRoot(decls, a, root);
      var ranges := Described(decls, root);
      if AllMapped(m, ranges) {
        var arrays := Pieces(m, ranges);
        var e := cb(View(Blank(decls, root), arrays));
        AnswerableFits(decls, m, a, root);
        CallbackWrites(decls, cb, m, a, root, NewRoot(decls, root, e), NewArrays(arrays, e));
      }
    }
  }

  /** What is small enough to come back is small enough to be received. */
  lemma AnswerableFits(decls: seq<Decl>, m: Mem, a: int, root: seq<Byte>)
    requires ModesetEntry(decls) && Mapped(m, a, decls[0].size.n) && root == Read(m, a, decls[0].size.n)
    requires AllMapped(m, ArrayIovs(decls, root))
    ensures Answerable(decls, root) <==> Returnable(Total(AllIovs(decls, a, root)))
    ensures Answerable(decls, root) ==> Receivable(AllIovs(decls, a, root))
  {
    hide Sizes;
    AllIovsTotal(decls, m, a, root);
  }

  lemma AnswerableRoot(decls: seq<Decl>, a: int, root: seq<Byte>)
    requires ModesetEntry(decls) && |root| == decls[0].size.n && Answerable(decls, root)
    ensures Receivable(RootIovs(decls, a))
  {
    hide Sizes;
    assert Total(RootIovs(decls, a)[1..]) == 0;
  }

  /**
   Exactly when: with everything mapped and the arrays apart from the root, the proxied
   ioctl is the direct one for every callback if and only if no array is larger than
   its declared limit and root and arrays together are small enough to come back.
   */
  lemma TransparentExactly(decls: seq<Decl>, m: Mem, a: int)
    requires ModesetEntry(decls) && Mapped(m, a, decls[0].size.n)
    requires var root := Read(m, a, decls[0].size.n);
      RootApart(decls, a, root) && AllMapped(m, Described(decls, root))
    ensures Admitted(decls, Read(m, a, decls[0].size.n)) && Answerable(decls, Read(m, a, decls[0].size.n)) <==>
      forall cb: Callback ::
        Run(decls, cb, true, m, a, 3) == Done(RunCallback(decls, cb, m, a).0, RunCallback(decls, cb, m, a).1)
  {
    hide Run, RunCallback, Admitted, Answerable, RootApart, ArrayDecl, AllMapped, Described;
    var root := Read(m, a, decls[0].size.n);
    if Admitted(decls, root) && Answerable(decls, root) {
      forall cb: Callback
        ensures Run(decls, cb, true, m, a, 3) == Done(RunCallback(decls, cb, m, a).0, RunCallback(decls, cb, m, a).1)
      {
        Transparent(decls, cb, m, a);
      }
    } else if Admitted(decls, root) {
      var cb: Callback := (v: View) => Effect(0, [], []);
      TooLongFails(decls, cb, m, a);
      DirectResult(decls, cb, m, a);
      assert Run(decls, cb, true, m, a, 3) != Done(RunCallback(decls, cb, m, a).0, RunCallback(decls, cb, m, a).1);
    } else {
      var i := TooLarge(decls, root);
      var cb: Callback := (v: View) => Effect(if i - 1 < |v.arrays| then |v.arrays[i - 1]| else 0, [], []);
      SeesTheDifference(decls, cb, m, a, i);
      assert Run(decls, cb, true, m, a, 3) != Done(RunCallback(decls, cb, m, a).0, RunCallback(decls, cb, m, a).1);
    }
  }

  lemma DirectResult(decls: seq<Decl>, cb: Callback, m: Mem, a: int)
    requires ModesetEntry(decls) && Mapped(m, a, decls[0].size.n)
    requires AllMapped(m, Described(decls, Read(m, a, decls[0].size.n)))
    requires forall v: View :: cb(v).result == 0
    ensures RunCallback(decls, cb, m, a).0 == 0
  {
    hide NewRoot, Blank, Described, WriteBlocks;
  }

  lemma TooLongFails(decls: seq<Decl>, cb: Callback, m: Mem, a: int)
    requires ModesetEntry(decls) && Mapped(m, a, decls[0].size.n)
    requires var root := Read(m, a, decls[0].size.n);
      Admitted(decls, root) && !Answerable(decls, root) && AllMapped(m, Described(decls, root))
    ensures var s := Run(decls, cb, true, m, a, 3);
      s.Done? && s.result < 0
  {
    hide Run, NewRoot, Blank, Sizes, Described, ArrayIovs, WithinLimit, Scatter, Answerable, Admitted;
    Runs(decls, cb, true, m, a);
    var root := Read(m, a, decls[0].size.n);
    AdmittedSizes(decls, root);
    AnswerableFits(decls, m, a, root);
  }

  /**
   A payload that is received and sent but does not come back whole is worse than
   refused: the client sees EINVAL, and its struct and all its arrays are erased.
   */
  lemma TooLongErases(decls: seq<Decl>, cb: Callback, m: Mem, a: int)
    requires ModesetEntry(decls) && Mapped(m, a, decls[0].size.n)
    requires var root := Read(m, a, decls[0].size.n);
      && WithinLimits(decls, root) && AllMapped(m, ArrayIovs(decls, root))
      && Receivable(AllIovs(decls, a, root)) && !Answerable(decls, root)
    ensures var iovs := AllIovs(decls, a, Read(m, a, decls[0].size.n));
      var s := Run(decls, cb, true, m, a, 3);
      && s.Done? && s.result == EINVAL && s.mem.Keys == m.Keys
      && forall i | i in m :: s.mem[i] == if InSome(iovs, i) then 0 else m[i]
  {
    hide Run, NewRoot, Blank, Sizes, ArrayIovs, WithinLimit, Scatter, Answerable;
    Runs(decls, cb, true, m, a);
    var root := Read(m, a, decls[0].size.n);
    AnswerableFits(decls, m, a, root);
    AllIovsTotal(decls, m, a, root);
    RootFits(decls, a, root);
    ScatterZeros(m, AllIovs(decls, a, root));
  }

  lemma RootFits(decls: seq<Decl>, a: int, root: seq<Byte>)
    requires ModesetEntry(decls) && |root| == decls[0].size.n && Receivable(AllIovs(decls, a, root))
    ensures Receivable(RootIovs(decls, a))
  {
    hide ArrayIovs;
    TotalAppend(RootIovs(decls, a), ArrayIovs(decls, root));
  }

  lemma TooLarge(decls: seq<Decl>, root: seq<Byte>) returns (i: nat)
    requires ModesetEntry(decls) && |root| == decls[0].size.n && !Admitted(decls, root)
    ensures 0 < i < |decls| && !Fits(decls, root, i)
  {
    i :| 0 < i < |decls| && !Fits(decls, root, i);
  }

  lemma SeesTheDifference(decls: seq<Decl>, cb: Callback, m: Mem, a: int, i: nat)
    requires ModesetEntry(decls) && Mapped(m, a, decls[0].size.n) && 0 < i < |decls|
    requires var root := Read(m, a, decls[0].size.n);
      AllMapped(m, Described(decls, root)) && !Fits(decls, root, i)
    requires forall v: View :: cb(v).result == if i - 1 < |v.arrays| then |v.arrays[i - 1]| else 0
    ensures var s := Run(decls, cb, true, m, a, 3);
      s.Done? ==> s.result != RunCallback(decls, cb, m, a).0
  {
    hide Run, RunCallback, LastStatus, Sizes, TrueSize, Get, Described, ArrayIovs, ArrayDecl, WithinLimits;
    Runs(decls, cb, true, m, a);
    var root := Read(m, a, decls[0].size.n);
    DirectSize(decls, cb, m, a, i);
    if WithinLimits(decls, root) && AllMapped(m, ArrayIovs(decls, root)) {
      ProxiedSize(decls, cb, m, a, root, i);
    }
  }

  /** Run directly, the callback sees array i at its true size, which exceeds the limit. */
  lemma DirectSize(decls: seq<Decl>, cb: Callback, m: Mem, a: int, i: nat)
    requires ModesetEntry(decls) && Mapped(m, a, decls[0].size.n) && 0 < i < |decls|
    requires var root := Read(m, a, decls[0].size.n);
      AllMapped(m, Described(decls, root)) && !Fits(decls, root, i)
    requires forall v: View :: cb(v).result == if i - 1 < |v.arrays| then |v.arrays[i - 1]| else 0
    ensures decls[i].limit.Some? && RunCallback(decls, cb, m, a).0 > decls[i].limit.value >= 0
  {
    hide NewRoot, Blank, TrueSize, Get, WriteBlocks;
    assert ArrayDecl(decls[0], decls[i]);
  }

  /** Behind the proxy it sees at most the limit, if it is called at all. */
  lemma ProxiedSize(decls: seq<Decl>, cb: Callback, m: Mem, a: int, root: seq<Byte>, i: nat)
    requires ModesetEntry(decls) && |root| == decls[0].size.n && 0 < i < |decls|
    requires WithinLimits(decls, root) && AllMapped(m, ArrayIovs(decls, root))
    requires forall v: View :: cb(v).result == if i - 1 < |v.arrays| then |v.arrays[i - 1]| else 0
    ensures var s := LastStatus(decls, cb, true, m, a, root);
      decls[i].limit.Some? && s.Done? && s.result <= decls[i].limit.value
  {
    hide NewRoot, Blank, Sizes, Get, WriteBlocks, Scatter, Total;
    assert ArrayDecl(decls[0], decls[i]) && WithinLimit(decls, root, i);
    var v := ArrayIovs(decls, root)[i - 1];
    assert Pieces(m, ArrayIovs(decls, root))[i - 1] == Read(m, v.base, Sizes(decls, root, i));
  }

  /** An ioctl refused in its last round leaves client memory byte for byte as it was. */
  lemma UndeliveredChangesNothing(decls: seq<Decl>, cb: Callback, m: Mem, a: int)
    requires ModesetEntry(decls)
    ensures var s := Run(decls, cb, false, m, a, 3);
      s.Done? && s.mem == m && s.result < 0
  {
    hide Run, NewRoot, Blank, Sizes, WithinLimit;
    Runs(decls, cb, false, m, a);
  }

  /**
   A count over its limit is refused before the arrays are gathered.  The reply carries
   the root struct although no output was asked for, so the client sees EIO, not EINVAL.
   */
  lemma OverLimitIsIoError(decls: seq<Decl>, cb: Callback, delivered: bool, m: Mem, a: int)
    requires ModesetEntry(decls) && Mapped(m, a, decls[0].size.n)
    requires !WithinLimits(decls, Read(m, a, decls[0].size.n))
    ensures Run(decls, cb, delivered, m, a, 2) == Run(decls, cb, delivered, m, a, 3) == Done(EIO, m)
  {
    hide Sizes, WithinLimit, Round, ModesetHandler;
    var h := ModesetHandler(decls, cb, delivered, a);
    Round0(decls, cb, delivered, m, a);
    Round1(decls, cb, delivered, m, a, Read(m, a, decls[0].size.n));
    assert Rounds(h, m, 1) == Asking(RootIovs(decls, a), []);
    DoneStays(h, m, 2, 3);
  }
}
