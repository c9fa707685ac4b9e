/**
 Running a generated parse_ function.  Its gotos only lead forward, so the state of the
 control is the list of statements still to come.
 */
module GeneratedCode {
  import opened Bytes
  import opened Kernel
  import opened IoctlTable
  import opened Options
  import opened Generator

  datatype Action =
    | Ask(ins: seq<Iov>, outCount: nat)
    | Forward(payload: seq<Byte>)
    | Refuse(payload: seq<Byte>)
    | Undefined

  /** The locals: loaded structs, the cursor buf, the bytes left len, fiov and n_iovs. */
  datatype Locals = Locals(structs: map<Ident, seq<Byte>>, pos: nat, len: int, fiov: map<nat, Iov>, nIovs: nat)

  datatype Call = Call(arg: int, buf: seq<Byte>, outsize: nat)

  function SizeOf(s: Size, structs: map<Ident, seq<Byte>>): Option<nat>
  {
    match s
    case Fixed(n) => Some(n)
    case Counted(struct, off, width, factor, wraps) =>
      if struct in structs && off + width <= |structs[struct]| then
        var size := Get(structs[struct], off, width) * factor;
        Some(if wraps then size % TWO_TO_THE_32 else size)
      else None
  }

  function BaseOf(p: Place, arg: int, structs: map<Ident, seq<Byte>>): Option<int>
  {
    match p
    case InArg => Some(arg)
    case Field(struct, off) =>
      if struct in structs && off + 8 <= |structs[struct]| then Some(Get(structs[struct], off, 8)) else None
  }

  /** What follows the first occurrence of a label. */
  function After(code: seq<Stmt>, mark: Stmt): (r: Option<seq<Stmt>>)
    ensures r.Some? ==> |r.value| < |code|
  {
    if code == [] then None
    else if code[0] == mark then Some(code[1..])
    else After(code[1..], mark)
  }

  /** Runs the statements to come; Undefined where C would read what is not there. */
  function Exec(code: seq<Stmt>, l: Locals, c: Call): Action
    decreases |code|, 0
  {
    if code == [] then Undefined else Do(code[0], code[1..], l, c)
  }

  function Do(s: Stmt, rest: seq<Stmt>, l: Locals, c: Call): Action
    decreases |rest|, 2
  {
    match s
    case GotoIfEmpty(size, target) =>
      (match size
       case None => if l.len == 0 then Goto(rest, Label(target), l, c) else Exec(rest, l, c)
       case Some(e) =>
         match SizeOf(e, l.structs)
         case None => Undefined
         case Some(n) => if n != 0 && l.len == 0 then Goto(rest, Label(target), l, c) else Exec(rest, l, c))
    case Load(d) =>
      (match SizeOf(d.size, l.structs)
       case Some(n) =>
         if l.pos + n <= |c.buf| then
           Exec(rest, l.(structs := l.structs[d.name := c.buf[l.pos..l.pos + n]]), c)
         else Undefined
       case None => Undefined)
    case Advance(d) =>
      (match SizeOf(d.size, l.structs)
       case Some(n) => Exec(rest, l.(pos := l.pos + n, len := l.len - n), c)
       case None => Undefined)
    case GotoIfNoOutput(target) =>
      if c.outsize == 0 then Goto(rest, Label(target), l, c) else Exec(rest, l, c)
    case CallModeset =>
      if rest != [] && rest[0] == Return then Forward(c.buf) else Undefined
    case CallModesetNoArgument => Forward([])
    case Return => Undefined
    case Label(_) => Exec(rest, l, c)
    case ErrorLabel => Exec(rest, l, c)
    case CheckLimit(d) =>
      (match (SizeOf(d.size, l.structs), d.limit)
       case (Some(n), Some(max)) => if n > max then Goto(rest, ErrorLabel, l, c) else Exec(rest, l, c)
       case _ => Undefined)
    case SetIov(slot, d) =>
      (match (BaseOf(d.place, c.arg, l.structs), SizeOf(d.size, l.structs))
       case (Some(base), Some(n)) =>
         Exec(rest, l.(fiov := l.fiov[slot := Iov(base, n)], nIovs := l.nIovs + 1), c)
       case _ => Undefined)
    case CallRetry(argN) =>
      if (rest == [] || rest[0] == Return) && forall i | 0 <= i < l.nIovs :: i in l.fiov then
        Ask(seq(l.nIovs, i requires 0 <= i < l.nIovs => l.fiov[i]), if l.nIovs == argN then l.nIovs else 0)
      else Undefined
    case CallReturnError => Refuse(c.buf)
  }

  function Goto(rest: seq<Stmt>, mark: Stmt, l: Locals, c: Call): Action
    decreases |rest|, 1
  {
    match After(rest, mark)
    case Some(code) => Exec(code, l, c)
    case None => Undefined
  }

  /** A whole call of the generated function. */
  function RunCode(code: seq<Stmt>, c: Call): Action
  {
    Exec(code, Locals(map[], 0, |c.buf|, map[], 0), c)
  }

  // ----- what a call does, by the entry -----

  function Sizes(decls: seq<Decl>, root: seq<Byte>, i: nat): nat
    requires ModesetEntry(decls) && 0 < i < |decls| && |root| == decls[0].size.n
  {
    var s := decls[i].size;
    var size := Get(root, s.off, s.width) * s.factor;
    if s.wraps then size % TWO_TO_THE_32 else size
  }

  function ArrayIov(decls: seq<Decl>, root: seq<Byte>, i: nat): Iov
    requires ModesetEntry(decls) && 0 < i < |decls| && |root| == decls[0].size.n
  {
    Iov(Get(root, decls[i].place.off, 8), Sizes(decls, root, i))
  }

  function ArrayIovs(decls: seq<Decl>, root: seq<Byte>): (v: seq<Iov>)
    requires ModesetEntry(decls) && |root| == decls[0].size.n
    ensures |v| == |decls| - 1
  {
    seq(|decls| - 1, i requires 0 <= i < |decls| - 1 => ArrayIov(decls, root, i + 1))
  }

  predicate WithinLimits(decls: seq<Decl>, root: seq<Byte>)
    requires ModesetEntry(decls) && |root| == decls[0].size.n
  {
    forall i | 0 < i < |decls| :: WithinLimit(decls, root, i)
  }

  /**
   The root alone is asked for first; with no arrays it is output as well.  Then, unless
   the arrays are already there, the root and all arrays are asked for as input and
   output, or the call is refused if one of them exceeds its limit.
   */
  function ParseEntry(decls: seq<Decl>, c: Call): Action
    requires ModesetEntry(decls)
  {
    var size := decls[0].size.n;
    if c.buf == [] then Ask([Iov(c.arg, size)], if |decls| == 1 then 1 else 0)
    else if |decls| == 1 then
      if c.outsize == 0 then Ask([Iov(c.arg, size)], 1) else Forward(c.buf)
    else if |c.buf| < size then Undefined
    else
      var root := c.buf[..size];
      if (Sizes(decls, root, 1) != 0 && |c.buf| == size) || c.outsize == 0 then
        if WithinLimits(decls, root) then Ask([Iov(c.arg, size)] + ArrayIovs(decls, root), |decls|)
        else Refuse(c.buf)
      else Forward(c.buf)
  }

  // ----- the generated code does what the entry says -----

  lemma {:induction false} AfterSkips(code: seq<Stmt>, rest: seq<Stmt>, mark: Stmt)
    requires mark !in code
    ensures After(code + rest, mark) == After(rest, mark)
  {
    if code == [] {
      assert code + rest == rest;
    } else {
      AfterSkips(code[1..], rest, mark);
      assert (code + rest)[1..] == code[1..] + rest;
    }
  }

  lemma AfterFound(mark: Stmt, rest: seq<Stmt>)
    ensures After([mark] + rest, mark) == Some(rest)
  {
    assert ([mark] + rest)[1..] == rest;
  }

  lemma {:induction false} NoLabelsInSlots(decls: seq<Decl>, i: nat, mark: Stmt)
    requires ModesetEntry(decls) && i < |decls| && (mark.Label? || mark.ErrorLabel?)
    ensures mark !in ArraySlots(decls, i)
  {
    hide ModesetEntry;
    if i > 0 {
      NoLabelsInSlots(decls, i - 1, mark);
    }
  }

  lemma ExecCons(s: Stmt, rest: seq<Stmt>, l: Locals, c: Call)
    ensures Exec([s] + rest, l, c) == Do(s, rest, l, c)
  {
    assert ([s] + rest)[1..] == rest;
  }

  /** The code from the label of the root's slot on. */
  function RootSlot(decls: seq<Decl>): seq<Stmt>
    requires ModesetEntry(decls)
  {
    [SetIov(0, decls[0])] + Tail(decls)
  }

  predicate Collected(l: Locals, arrays: seq<Iov>)
  {
    l.nIovs == |arrays| && forall i | 0 < i <= |arrays| :: i in l.fiov && l.fiov[i] == arrays[i - 1]
  }

  lemma RunRootSlot(decls: seq<Decl>, l: Locals, c: Call, arrays: seq<Iov>)
    requires ModesetEntry(decls) && Collected(l, arrays)
    ensures Exec(RootSlot(decls), l, c) ==
      Ask([Iov(c.arg, decls[0].size.n)] + arrays, if |arrays| + 1 == |decls| then |decls| else 0)
  {
    hide Exec, ArrayDecl;
    var l' := l.(fiov := l.fiov[0 := Iov(c.arg, decls[0].size.n)], nIovs := l.nIovs + 1);
    ExecCons(SetIov(0, decls[0]), Tail(decls), l, c);
    var rest := if |decls| == 1 then [] else [Return, ErrorLabel, CallReturnError];
    ExecCons(CallRetry(|decls|), rest, l', c);
    forall i | 0 <= i < l'.nIovs
      ensures i in l'.fiov
      ensures l'.fiov[i] == ([Iov(c.arg, decls[0].size.n)] + arrays)[i]
    {
      if i > 0 {
        assert i in l.fiov;
      }
    }
    assert seq(l'.nIovs, i requires 0 <= i < l'.nIovs => l'.fiov[i]) == [Iov(c.arg, decls[0].size.n)] + arrays;
  }

  /** The locals once the root struct has been loaded. */
  predicate Loaded(decls: seq<Decl>, root: seq<Byte>, l: Locals)
    requires ModesetEntry(decls)
  {
    |root| == decls[0].size.n && decls[0].name in l.structs && l.structs[decls[0].name] == root
  }

  lemma EvalArray(decls: seq<Decl>, root: seq<Byte>, l: Locals, arg: int, i: nat)
    requires ModesetEntry(decls) && Loaded(decls, root, l) && 0 < i < |decls|
    ensures SizeOf(decls[i].size, l.structs) == Some(Sizes(decls, root, i))
    ensures BaseOf(decls[i].place, arg, l.structs) == Some(Get(root, decls[i].place.off, 8))
    ensures decls[i].limit.Some?
  {
    hide Get;
    assert ArrayDecl(decls[0], decls[i]);
  }

  predicate WithinLimit(decls: seq<Decl>, root: seq<Byte>, i: nat)
    requires ModesetEntry(decls) && |root| == decls[0].size.n && 0 < i < |decls|
  {
    Sizes(decls, root, i) <= decls[i].limit.value
  }

  /** Arrays i, i - 1, ..., 1 are within their limits. */
  predicate WithinUpTo(decls: seq<Decl>, root: seq<Byte>, i: nat)
    requires ModesetEntry(decls) && |root| == decls[0].size.n && i < |decls|
  {
    forall j | 0 < j <= i :: WithinLimit(decls, root, j)
  }

  /** Slots i + 1, ..., n are filled. */
  predicate FilledFrom(decls: seq<Decl>, root: seq<Byte>, l: Locals, i: nat)
    requires ModesetEntry(decls) && |root| == decls[0].size.n && i < |decls|
  {
    && l.nIovs == |decls| - 1 - i
    && forall j | i < j < |decls| :: j in l.fiov && l.fiov[j] == ArrayIov(decls, root, j)
  }

  /** One slot: the array's range, or the error return. */
  lemma RunOneSlot(decls: seq<Decl>, root: seq<Byte>, l: Locals, c: Call, i: nat, code: seq<Stmt>)
    requires ModesetEntry(decls) && Loaded(decls, root, l) && 0 < i < |decls|
    ensures Exec([CheckLimit(decls[i]), SetIov(i, decls[i])] + code, l, c) ==
      if WithinLimit(decls, root, i) then
        Exec(code, l.(fiov := l.fiov[i := ArrayIov(decls, root, i)], nIovs := l.nIovs + 1), c)
      else Goto([SetIov(i, decls[i])] + code, ErrorLabel, l, c)
  {
    hide ModesetEntry, Sizes, SizeOf, BaseOf, Get, Exec;
    EvalArray(decls, root, l, c.arg, i);
    var setIov := [SetIov(i, decls[i])] + code;
    assert [CheckLimit(decls[i]), SetIov(i, decls[i])] + code == [CheckLimit(decls[i])] + setIov;
    ExecCons(CheckLimit(decls[i]), setIov, l, c);
    ExecCons(SetIov(i, decls[i]), code, l, c);
  }

  /** From the slot of array i on: either all slots are filled or the call is refused. */
  lemma {:induction false} RunSlots(decls: seq<Decl>, root: seq<Byte>, l: Locals, c: Call, i: nat)
    requires ModesetEntry(decls) && |decls| > 1 && Loaded(decls, root, l) && i < |decls|
    requires FilledFrom(decls, root, l, i)
    ensures Exec(ArraySlots(decls, i) + ([Label(0)] + RootSlot(decls)), l, c) ==
      if WithinUpTo(decls, root, i) then Ask([Iov(c.arg, decls[0].size.n)] + ArrayIovs(decls, root), |decls|)
      else Refuse(c.buf)
    decreases i
  {
    hide ModesetEntry, Sizes, SizeOf, BaseOf, Get, Exec, RootSlot;
    var end := [Label(0)] + RootSlot(decls);
    if i == 0 {
      assert ArraySlots(decls, 0) + end == end;
      ExecCons(Label(0), RootSlot(decls), l, c);
      RunRootSlot(decls, l, c, ArrayIovs(decls, root));
    } else {
      var code := ArraySlots(decls, i - 1) + end;
      assert ArraySlots(decls, i) + end == [CheckLimit(decls[i]), SetIov(i, decls[i])] + code;
      RunOneSlot(decls, root, l, c, i, code);
      if WithinLimit(decls, root, i) {
        RunSlots(decls, root, l.(fiov := l.fiov[i := ArrayIov(decls, root, i)], nIovs := l.nIovs + 1), c, i - 1);
      } else {
        ErrorFromSlots(decls, i);
        assert [SetIov(i, decls[i])] + code == (ArraySlots(decls, i) + end)[1..];
        RunError(c, l);
      }
    }
  }

  lemma RunError(c: Call, l: Locals)
    ensures Exec([CallReturnError], l, c) == Refuse(c.buf)
  {
  }

  lemma ErrorFromSlots(decls: seq<Decl>, i: nat)
    requires ModesetEntry(decls) && 0 < i < |decls|
    ensures After((ArraySlots(decls, i) + ([Label(0)] + RootSlot(decls)))[1..], ErrorLabel) == Some([CallReturnError])
  {
    hide ModesetEntry;
    NoLabelsInSlots(decls, i, ErrorLabel);
    var slots := ArraySlots(decls, i);
    var before := [Label(0), SetIov(0, decls[0]), CallRetry(|decls|), Return];
    assert (slots + ([Label(0)] + RootSlot(decls)))[1..]
      == slots[1..] + (before + ([ErrorLabel] + [CallReturnError]));
    AfterSkips(slots[1..], before + ([ErrorLabel] + [CallReturnError]), ErrorLabel);
    AfterSkips(before, [ErrorLabel] + [CallReturnError], ErrorLabel);
    AfterFound(ErrorLabel, [CallReturnError]);
  }

  /** goto checkpoint_0 from the head of the function. */
  lemma ToRootSlot(decls: seq<Decl>, before: seq<Stmt>)
    requires ModesetEntry(decls) && Label(0) !in before
    ensures After(before + Slots(decls) + Tail(decls), Label(0)) == Some(RootSlot(decls))
  {
    hide ArraySlots;
    NoLabelsInSlots(decls, |decls| - 1, Label(0));
    var skip := before + (if |decls| == 1 then [] else [Label(1)]) + ArraySlots(decls, |decls| - 1);
    assert before + Slots(decls) + Tail(decls) == skip + ([Label(0)] + RootSlot(decls));
    AfterSkips(skip, [Label(0)] + RootSlot(decls), Label(0));
    AfterFound(Label(0), RootSlot(decls));
  }

  /** goto checkpoint_1. */
  lemma ToArraySlots(decls: seq<Decl>, before: seq<Stmt>)
    requires ModesetEntry(decls) && |decls| > 1 && Label(1) !in before
    ensures After(before + Slots(decls) + Tail(decls), Label(1))
         == Some(ArraySlots(decls, |decls| - 1) + ([Label(0)] + RootSlot(decls)))
  {
    hide ModesetEntry;
    var code := ArraySlots(decls, |decls| - 1) + ([Label(0)] + RootSlot(decls));
    assert before + Slots(decls) + Tail(decls) == before + ([Label(1)] + code);
    AfterSkips(before, [Label(1)] + code, Label(1));
    AfterFound(Label(1), code);
  }

  lemma RunSingle(decls: seq<Decl>, c: Call)
    requires ModesetEntry(decls) && |decls| == 1
    ensures RunCode(SetuidCode(decls), c) == ParseEntry(decls, c)
  {
    hide Exec, RootSlot, Slots, Tail;
    var l := Locals(map[], 0, |c.buf|, map[], 0);
    var code0 := [CallModeset, Return] + Slots(decls) + Tail(decls);
    var code1 := Calls(decls) + Slots(decls) + Tail(decls);
    var rest := [Return] + Slots(decls) + Tail(decls);
    assert SetuidCode(decls) == [GotoIfEmpty(None, 0)] + code1;
    assert code1 == [GotoIfNoOutput(0)] + code0;
    assert code0 == [CallModeset] + rest;
    ExecCons(GotoIfEmpty(None, 0), code1, l, c);
    ExecCons(GotoIfNoOutput(0), code0, l, c);
    ExecCons(CallModeset, rest, l, c);
    ToRootSlot(decls, Calls(decls));
    ToRootSlot(decls, [CallModeset, Return]);
    RunRootSlot(decls, l, c, []);
    assert [Iov(c.arg, decls[0].size.n)] + [] == [Iov(c.arg, decls[0].size.n)];
  }

  lemma RunFirst(decls: seq<Decl>, c: Call)
    requires ModesetEntry(decls) && |decls| > 1 && c.buf == []
    ensures RunCode(SetuidCode(decls), c) == ParseEntry(decls, c)
  {
    hide Exec, RootSlot, Slots, Tail;
    var l := Locals(map[], 0, |c.buf|, map[], 0);
    var before := [Load(decls[0]), Advance(decls[0]), GotoIfEmpty(Some(decls[1].size), 1)] + Calls(decls);
    var code := before + Slots(decls) + Tail(decls);
    assert SetuidCode(decls) == [GotoIfEmpty(None, 0)] + code;
    ExecCons(GotoIfEmpty(None, 0), code, l, c);
    ToRootSlot(decls, before);
    RunRootSlot(decls, l, c, []);
    assert [Iov(c.arg, decls[0].size.n)] + [] == [Iov(c.arg, decls[0].size.n)];
  }

  /** The code that follows the loading of the root struct. */
  function LoadedCode(decls: seq<Decl>): seq<Stmt>
    requires ModesetEntry(decls) && |decls| > 1
  {
    [GotoIfEmpty(Some(decls[1].size), 1)] + (Calls(decls) + Slots(decls) + Tail(decls))
  }

  lemma RunLoaded(decls: seq<Decl>, c: Call, root: seq<Byte>, l: Locals)
    requires ModesetEntry(decls) && |decls| > 1 && Loaded(decls, root, l)
    requires l.nIovs == 0 && l.fiov == map[]
    ensures Exec(LoadedCode(decls), l, c) ==
      if (Sizes(decls, root, 1) != 0 && l.len == 0) || c.outsize == 0 then
        if WithinLimits(decls, root) then Ask([Iov(c.arg, decls[0].size.n)] + ArrayIovs(decls, root), |decls|)
        else Refuse(c.buf)
      else Forward(c.buf)
  {
    hide ModesetEntry, Sizes, SizeOf, BaseOf, Get, Slots, Tail, Exec, WithinLimit, RootSlot, ArrayIovs;
    EvalArray(decls, root, l, c.arg, 1);
    var code0 := [CallModeset, Return] + Slots(decls) + Tail(decls);
    var code1 := Calls(decls) + Slots(decls) + Tail(decls);
    var rest := [Return] + Slots(decls) + Tail(decls);
    assert code1 == [GotoIfNoOutput(1)] + code0;
    assert code0 == [CallModeset] + rest;
    ExecCons(GotoIfEmpty(Some(decls[1].size), 1), code1, l, c);
    ExecCons(GotoIfNoOutput(1), code0, l, c);
    ExecCons(CallModeset, rest, l, c);
    ToArraySlots(decls, Calls(decls));
    ToArraySlots(decls, [CallModeset, Return]);
    RunSlots(decls, root, l, c, |decls| - 1);
  }

  lemma RunSecond(decls: seq<Decl>, c: Call)
    requires ModesetEntry(decls) && |decls| > 1 && c.buf != []
    ensures RunCode(SetuidCode(decls), c) == ParseEntry(decls, c)
  {
    hide Sizes, Slots, Tail, Calls, Get, ArrayIovs, Exec, WithinLimit;
    var l := Locals(map[], 0, |c.buf|, map[], 0);
    var code2 := LoadedCode(decls);
    var code1 := [Advance(decls[0])] + code2;
    var code0 := [Load(decls[0])] + code1;
    assert SetuidCode(decls) == [GotoIfEmpty(None, 0)] + code0;
    ExecCons(GotoIfEmpty(None, 0), code0, l, c);
    ExecCons(Load(decls[0]), code1, l, c);
    var size := decls[0].size.n;
    if size <= |c.buf| {
      var root := c.buf[..size];
      var l1 := l.(structs := map[decls[0].name := root]);
      assert c.buf[0..0 + size] == root;
      ExecCons(Advance(decls[0]), code2, l1, c);
      RunLoaded(decls, c, root, l1.(pos := size, len := |c.buf| - size));
    }
  }

  /** Running the code generated for an entry does what the entry says, and nothing undefined. */
  lemma GeneratedIsCorrect(decls: seq<Decl>, c: Call)
    requires ModesetEntry(decls)
    ensures RunCode(SetuidCode(decls), c) == ParseEntry(decls, c)
  {
    if |decls| == 1 {
      RunSingle(decls, c);
    } else if c.buf == [] {
      RunFirst(decls, c);
    } else {
      RunSecond(decls, c);
    }
  }

  // ----- labels -----

  function Count(code: seq<Stmt>, s: Stmt): nat
  {
    if code == [] then 0 else (if code[0] == s then 1 else 0) + Count(code[1..], s)
  }

  lemma {:induction false} CountAppend(p: seq<Stmt>, q: seq<Stmt>, s: Stmt)
    ensures Count(p + q, s) == Count(p, s) + Count(q, s)
  {
    if p == [] {
      assert p + q == q;
    } else {
      CountAppend(p[1..], q, s);
      assert (p + q)[1..] == p[1..] + q;
    }
  }

  lemma {:induction false} CountNone(code: seq<Stmt>, s: Stmt)
    requires s !in code
    ensures Count(code, s) == 0
  {
    if code != [] {
      CountNone(code[1..], s);
    }
  }

  /** Every label a goto of the generated function names is there exactly once, and no other label is. */
  lemma LabelsAreUnique(decls: seq<Decl>, k: int)
    requires ModesetEntry(decls)
    ensures Count(SetuidCode(decls), Label(k)) == if k == 0 || (k == 1 && |decls| > 1) then 1 else 0
    ensures Count(SetuidCode(decls), ErrorLabel) == if |decls| > 1 then 1 else 0
  {
    hide ArrayDecl, Slots, Tail, ArraySlots;
    forall mark | mark == Label(k) || mark == ErrorLabel
      ensures Count(SetuidCode(decls), mark)
           == Count(Slots(decls), mark) + Count(Tail(decls), mark)
      ensures Count(Slots(decls), mark)
           == (if mark == Label(1) && |decls| > 1 then 1 else 0) + (if mark == Label(0) then 1 else 0)
    {
      CountNone(Head(decls) + Calls(decls), mark);
      CountAppend(Head(decls) + Calls(decls), Slots(decls), mark);
      CountAppend(Head(decls) + Calls(decls) + Slots(decls), Tail(decls), mark);
      NoLabelsInSlots(decls, |decls| - 1, mark);
      CountSlots(decls, mark);
    }
    CountTail(decls, Label(k));
    CountTail(decls, ErrorLabel);
  }

  lemma CountTail(decls: seq<Decl>, mark: Stmt)
    requires ModesetEntry(decls) && (mark.Label? || mark.ErrorLabel?)
    ensures Count(Tail(decls), mark) == if mark.ErrorLabel? && |decls| > 1 then 1 else 0
  {
    if |decls| == 1 || mark.Label? {
      CountNone(Tail(decls), mark);
    } else {
      CountAppend([CallRetry(|decls|), Return], [ErrorLabel] + [CallReturnError], mark);
      CountAppend([ErrorLabel], [CallReturnError], mark);
      assert Tail(decls) == [CallRetry(|decls|), Return] + ([ErrorLabel] + [CallReturnError]);
      CountNone([CallRetry(|decls|), Return], mark);
      CountNone([CallReturnError], mark);
    }
  }

  lemma CountSlots(decls: seq<Decl>, mark: Stmt)
    requires ModesetEntry(decls) && mark !in ArraySlots(decls, |decls| - 1)
    requires mark.Label? || mark.ErrorLabel?
    ensures Count(Slots(decls), mark)
         == (if mark == Label(1) && |decls| > 1 then 1 else 0) + (if mark == Label(0) then 1 else 0)
  {
    hide ArraySlots;
    var first := if |decls| == 1 then [] else [Label(1)];
    var mid := ArraySlots(decls, |decls| - 1);
    CountNone(mid, mark);
    CountAppend(first, mid, mark);
    CountAppend(first + mid, [Label(0), SetIov(0, decls[0])], mark);
    assert [Label(0), SetIov(0, decls[0])][1..] == [SetIov(0, decls[0])];
    CountNone([SetIov(0, decls[0])], mark);
    assert [Label(1)][1..] == [];
  }
}
