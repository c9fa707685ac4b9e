/**
 The library half of generate-ioctls.py: the statements printed for a table entry, and
 what running them does to a payload.
 */
module LibraryCode {
  import opened Bytes
  import opened Options
  import opened Memory
  import opened IoctlTable
  import opened GeneratedCode
  import opened Modeset
  import opened ModesetLibrary

  /** The number is the argument that a statement is printed for. */
  datatype Stmt =
    | CopyIn(i: nat)        // memcpy(name, buf, size)
    | KeepBuf(i: nat)       // name_buf_ptr = buf
    | Advance(i: nat)       // buf += size, len -= size
    | SaveSize(i: nat)      // name_actual_size = size
    | SavePtr(i: nat)       // name_actual_ptr = pointer
    | PointAt(i: nat)       // pointer = name
    | CallProcess
    | CopyOut(i: nat)       // memcpy(name_buf_ptr, name, name_actual_size)
    | PutBack(i: nat)       // pointer = name_actual_ptr

  function ArgumentIn(i: nat): seq<Stmt>
  {
    [CopyIn(i), KeepBuf(i), Advance(i), SaveSize(i), SavePtr(i), PointAt(i)]
  }

  function CodeIn(n: nat): seq<Stmt>
  {
    if n == 0 then [] else CodeIn(n - 1) + ArgumentIn(n - 1)
  }

  function CodeOut(n: nat): seq<Stmt>
  {
    if n == 0 then [] else [CopyOut(n - 1), PutBack(n - 1)] + CodeOut(n - 1)
  }

  function LibraryStatements(n: nat): seq<Stmt>
  {
    CodeIn(n) + [CallProcess] + CodeOut(n)
  }

  /** The printing loops: over the arguments, the call, and over the arguments in reverse. */
  method Emit(decls: seq<Decl>) returns (out: seq<Stmt>)
    ensures out == LibraryStatements(|decls|)
  {
    out := [];
    for i := 0 to |decls|
      invariant out == CodeIn(i)
    {
      out := out + [CopyIn(i), KeepBuf(i), Advance(i)];
      out := out + [SaveSize(i), SavePtr(i), PointAt(i)];
    }
    out := out + [CallProcess];
    var i := |decls|;
    while i > 0
      invariant 0 <= i <= |decls|
      invariant out + CodeOut(i) == LibraryStatements(|decls|)
    {
      i := i - 1;
      assert out + CodeOut(i + 1) == out + [CopyOut(i), PutBack(i)] + CodeOut(i);
      out := out + [CopyOut(i), PutBack(i)];
    }
  }

  // ----- running them -----

  /** buf and the variables that the statements declare; locals[0] is the root struct. */
  datatype Frame = Frame(
    payload: seq<Byte>, pos: nat, locals: seq<seq<Byte>>, bufPtrs: seq<nat>, sizes: seq<nat>, ptrs: seq<nat>,
    inarg: nat, result: int)

  function Start(payload: seq<Byte>): Frame
  {
    Frame(payload, 0, [], [], [], [], 0, 0)
  }

  datatype Context = Context(decls: seq<Decl>, lib: Library, run: Native)
  {
    ghost predicate Valid()
    {
      ValidEntry(decls) && ValidLibrary(decls, lib) && KeepsMapping(run)
    }
  }

  function SizeOfArgument(x: Context, f: Frame, i: nat): Option<nat>
    requires ModesetEntry(x.decls)
  {
    if i == 0 then Some(x.decls[0].size.n)
    else if i < |x.decls| && f.locals != [] && |f.locals[0]| == x.decls[0].size.n then
      Some(Sizes(x.decls, f.locals[0], i))
    else None
  }

  /** The pointer expression of argument i can be read and assigned. */
  predicate Addressable(x: Context, f: Frame, i: nat)
    requires ModesetEntry(x.decls)
  {
    i == 0 ||
    (i < |x.decls| && |x.lib.arrays| == |x.decls| - 1 && x.decls[i].place.Field? && f.locals != []
     && x.decls[i].place.off + 8 <= |f.locals[0]|)
  }

  function LoadPtr(x: Context, f: Frame, i: nat): nat
    requires ModesetEntry(x.decls) && Addressable(x, f, i)
  {
    if i == 0 then f.inarg else Get(f.locals[0], x.decls[i].place.off, 8)
  }

  function StorePtr(x: Context, f: Frame, i: nat, p: nat): Frame
    requires ModesetEntry(x.decls) && Addressable(x, f, i)
  {
    if i == 0 then f.(inarg := p)
    else f.(locals := f.locals[0 := Put(f.locals[0], x.decls[i].place.off, 8, p)])
  }

  function LocalAddress(x: Context, i: nat): nat
    requires i <= |x.lib.arrays|
  {
    if i == 0 then x.lib.root else x.lib.arrays[i - 1]
  }

  /** The room that the declaration of argument i reserves. */
  predicate HasRoom(x: Context, i: nat, n: nat)
    requires ModesetEntry(x.decls) && i < |x.decls|
  {
    i == 0 || n <= Limit(x.decls, i - 1)
  }

  /** One statement; nothing where C would leave the payload, a local array or a variable's scope. */
  function Do(x: Context, s: Stmt, f: Frame): Option<Frame>
    requires ModesetEntry(x.decls)
  {
    match s
    case CopyIn(i) =>
      (match SizeOfArgument(x, f, i)
       case None => None
       case Some(n) =>
         if i == |f.locals| < |x.decls| && f.pos + n <= |f.payload| && HasRoom(x, i, n) then
           Some(f.(locals := f.locals + [f.payload[f.pos..f.pos + n]]))
         else None)
    case KeepBuf(i) => if i == |f.bufPtrs| then Some(f.(bufPtrs := f.bufPtrs + [f.pos])) else None
    case Advance(i) =>
      (match SizeOfArgument(x, f, i)
       case None => None
       case Some(n) => Some(f.(pos := f.pos + n)))
    case SaveSize(i) =>
      (match SizeOfArgument(x, f, i)
       case None => None
       case Some(n) => if i == |f.sizes| then Some(f.(sizes := f.sizes + [n])) else None)
    case SavePtr(i) =>
      if Addressable(x, f, i) && i == |f.ptrs| then Some(f.(ptrs := f.ptrs + [LoadPtr(x, f, i)])) else None
    case PointAt(i) =>
      if Addressable(x, f, i) && i <= |x.lib.arrays| then Some(StorePtr(x, f, i, LocalAddress(x, i))) else None
    case CallProcess => Processed(x, f)
    case CopyOut(i) =>
      if i < |f.bufPtrs| && i < |f.sizes| && i < |f.locals| && f.sizes[i] <= |f.locals[i]|
         && f.bufPtrs[i] + f.sizes[i] <= |f.payload| then
        Some(f.(payload := Overwritten(f.payload, f.bufPtrs[i], f.locals[i][..f.sizes[i]])))
      else None
    case PutBack(i) =>
      if Addressable(x, f, i) && i < |f.ptrs| then Some(StorePtr(x, f, i, f.ptrs[i])) else None
  }

  /** ioctls_process(user, cmd, inarg): the locals lie in memory while it runs. */
  function Processed(x: Context, f: Frame): Option<Frame>
    requires ModesetEntry(x.decls)
  {
    if |f.locals| != |x.lib.arrays| + 1 || f.inarg != x.lib.root then None
    else
      var lens := Lengths(f.locals[1..]);
      var (result, m) := x.run(Image(x.decls, x.lib, f.locals[0], f.locals[1..]), f.inarg);
      if LocalsMapped(x.lib, m, |f.locals[0]|, lens) then
        Some(f.(result := result,
                locals := [Read(m, x.lib.root, |f.locals[0]|)] + ReadLocals(x.lib, m, |f.locals[0]|, lens)))
      else None
  }

  function Exec(x: Context, code: seq<Stmt>, f: Frame): Option<Frame>
    requires ModesetEntry(x.decls)
  {
    if code == [] then Some(f)
    else
      match Do(x, code[0], f)
      case None => None
      case Some(f') => Exec(x, code[1..], f')
  }

  lemma {:induction false} ExecAppend(x: Context, p: seq<Stmt>, q: seq<Stmt>, f: Frame)
    requires ModesetEntry(x.decls)
    ensures Exec(x, p + q, f) ==
      match Exec(x, p, f)
      case None => None
      case Some(f') => Exec(x, q, f')
    decreases |p|
  {
    hide Do, ModesetEntry;
    if p == [] {
      assert p + q == q;
    } else {
      assert (p + q)[1..] == p[1..] + q;
      match Do(x, p[0], f) {
        case None =>
        case Some(f') => ExecAppend(x, p[1..], q, f');
      }
    }
  }

  lemma ExecTwo(x: Context, a: Stmt, b: Stmt, f: Frame)
    requires ModesetEntry(x.decls)
    requires Do(x, a, f).Some? && Do(x, b, Do(x, a, f).value).Some?
    ensures Exec(x, [a, b], f) == Do(x, b, Do(x, a, f).value)
  {
    hide Do, ModesetEntry;
    assert [a, b][1..] == [b] && [b][1..] == [];
    assert Exec(x, [b], Do(x, a, f).value) == Do(x, b, Do(x, a, f).value);
  }

  lemma ExecSix(x: Context, c: seq<Stmt>, f: Frame, f1: Frame, f2: Frame, f3: Frame, f4: Frame, f5: Frame, f6: Frame)
    requires ModesetEntry(x.decls) && |c| == 6
    requires Do(x, c[0], f) == Some(f1) && Do(x, c[1], f1) == Some(f2) && Do(x, c[2], f2) == Some(f3)
    requires Do(x, c[3], f3) == Some(f4) && Do(x, c[4], f4) == Some(f5) && Do(x, c[5], f5) == Some(f6)
    ensures Exec(x, c, f) == Some(f6)
  {
    hide Do, ModesetEntry;
    assert c == [c[0], c[1]] + ([c[2], c[3]] + [c[4], c[5]]);
    ExecTwo(x, c[0], c[1], f);
    ExecTwo(x, c[2], c[3], f2);
    ExecTwo(x, c[4], c[5], f4);
    ExecAppend(x, [c[2], c[3]], [c[4], c[5]], f2);
    ExecAppend(x, [c[0], c[1]], [c[2], c[3]] + [c[4], c[5]], f);
  }

  // ----- the way in -----

  /** The frame after the statements of the root and the first k arrays. */
  function LoadedFrame(x: Context, payload: seq<Byte>, arrays: seq<seq<Byte>>, k: nat): Frame
    requires ModesetEntry(x.decls) && k < |x.decls| == |arrays| + 1 == |x.lib.arrays| + 1
    requires |payload| >= x.decls[0].size.n
  {
    var size := x.decls[0].size.n;
    var root := payload[..size];
    Frame(payload, size + Offset(arrays, k),
          [Pointed(x.decls, root, x.lib.arrays, k)] + arrays[..k],
          BufPtrs(size, arrays, k), [size] + Lengths(arrays)[..k], ClientPtrs(x.decls, root, k),
          x.lib.root, 0)
  }

  function BufPtrs(size: nat, arrays: seq<seq<Byte>>, k: nat): (b: seq<nat>)
    requires k <= |arrays|
    ensures |b| == k + 1
  {
    [0] + seq(k, i requires 0 <= i < k => size + Offset(arrays, i))
  }

  function ClientPtrs(decls: seq<Decl>, root: seq<Byte>, k: nat): (p: seq<nat>)
    requires ModesetEntry(decls) && k < |decls| && |root| == decls[0].size.n
    ensures |p| == k + 1
  {
    [0] + seq(k, i requires 0 <= i < k =>
      assert ArrayDecl(decls[0], decls[i + 1]);
      Get(root, decls[i + 1].place.off, 8))
  }

  lemma RootIn(x: Context, payload: seq<Byte>, arrays: seq<seq<Byte>>)
    requires x.Valid() && Complete(x.decls, payload) && arrays == ArraysOf(x.decls, payload)
    ensures Exec(x, ArgumentIn(0), Start(payload)) == Some(LoadedFrame(x, payload, arrays, 0))
  {
    hide ValidLibrary, FieldsDisjoint, ArraysOf, ArrayDecl, Sizes;
    var size := x.decls[0].size.n;
    LibraryShape(x, payload);
    var f := Start(payload);
    var f1 := f.(locals := f.locals + [payload[0..0 + size]]);
    var f2 := f1.(bufPtrs := f.bufPtrs + [0]);
    var f3 := f2.(pos := 0 + size);
    var f4 := f3.(sizes := f.sizes + [size]);
    var f5 := f4.(ptrs := f.ptrs + [0]);
    var f6 := f5.(inarg := x.lib.root);
    ExecSix(x, ArgumentIn(0), f, f1, f2, f3, f4, f5, f6);
    var end := LoadedFrame(x, payload, arrays, 0);
    assert f6.locals == end.locals && f6.bufPtrs == end.bufPtrs;
    assert f6.sizes == end.sizes && f6.ptrs == end.ptrs;
  }

  lemma LibraryShape(x: Context, payload: seq<Byte>)
    requires x.Valid() && Complete(x.decls, payload)
    ensures |x.lib.arrays| == |x.decls| - 1 == |ArraysOf(x.decls, payload)|
    ensures |payload| >= x.decls[0].size.n
  {
    hide FieldsDisjoint, Sizes, Cut;
  }

  /** The six statements of array k + 1. */
  lemma ArrayIn(x: Context, payload: seq<Byte>, arrays: seq<seq<Byte>>, k: nat)
    requires x.Valid() && Complete(x.decls, payload) && arrays == ArraysOf(x.decls, payload)
    requires WithinLimits(x.decls, payload[..x.decls[0].size.n]) && k < |arrays|
    ensures |x.lib.arrays| == |arrays| == |x.decls| - 1
    ensures Exec(x, ArgumentIn(k + 1), LoadedFrame(x, payload, arrays, k))
         == Some(LoadedFrame(x, payload, arrays, k + 1))
  {
    hide Get, Put, FieldsDisjoint, Flatten, Cut, Sizes, Limit, Pointed, WithinLimits, LocalBlocks, Offset;
    var size := x.decls[0].size.n;
    var root := payload[..size];
    var at := x.lib.arrays;
    LibraryShape(x, payload);
    LoadedBlocks(x.decls, payload);
    BlocksFit(x.decls, arrays, k);
    assert ArrayDecl(x.decls[0], x.decls[k + 1]) && LocalPlaced(x.decls, x.lib, k);
    PointedCount(x.decls, root, at, k, k + 1);
    PointedCount(x.decls, root, at, k + 1, k + 1);
    PointedField(x.decls, root, at, k, k + 1);
    FlattenSlice(arrays, k);
    FlattenCut(payload[size..], SizeList(x.decls, root));
    assert |arrays[k]| == SizeList(x.decls, root)[k] == Sizes(x.decls, root, k + 1);
    SliceOfRest(payload, size, Offset(arrays, k), |arrays[k]|);
    PointedStep(x.decls, root, at, k);
    PtrsStep(x.decls, root, size, arrays, k);
    SixStatements(x, LoadedFrame(x, payload, arrays, k), k + 1, arrays[k], at[k]);
    assert [size] + Lengths(arrays)[..k] + [|arrays[k]|] == [size] + Lengths(arrays)[..k + 1];
    assert ([Pointed(x.decls, root, at, k)] + arrays[..k] + [arrays[k]])[0 := Pointed(x.decls, root, at, k + 1)]
        == [Pointed(x.decls, root, at, k + 1)] + arrays[..k + 1];
  }

  /** The six statements of an array, on any frame that has come so far. */
  lemma SixStatements(x: Context, f: Frame, i: nat, block: seq<Byte>, at: nat)
    requires ModesetEntry(x.decls) && 0 < i < |x.decls| && |x.lib.arrays| == |x.decls| - 1 && at == x.lib.arrays[i - 1]
    requires i == |f.locals| == |f.bufPtrs| == |f.sizes| == |f.ptrs| && |f.locals[0]| == x.decls[0].size.n
    requires x.decls[i].place.Field? && x.decls[i].place.off + 8 <= |f.locals[0]|
    requires var pointed := Put(f.locals[0], x.decls[i].place.off, 8, at);
      |block| == Sizes(x.decls, f.locals[0], i) == Sizes(x.decls, pointed, i)
    requires HasRoom(x, i, |block|)
    requires f.pos + |block| <= |f.payload| && f.payload[f.pos..f.pos + |block|] == block
    ensures Exec(x, ArgumentIn(i), f) == Some(Frame(
      f.payload, f.pos + |block|,
      (f.locals + [block])[0 := Put(f.locals[0], x.decls[i].place.off, 8, at)],
      f.bufPtrs + [f.pos], f.sizes + [|block|], f.ptrs + [Get(f.locals[0], x.decls[i].place.off, 8)],
      f.inarg, f.result))
  {
    hide Get, Put, Sizes, Limit, ArrayDecl;
    var f1 := f.(locals := f.locals + [block]);
    var f2 := f1.(bufPtrs := f.bufPtrs + [f.pos]);
    var f3 := f2.(pos := f.pos + |block|);
    var f4 := f3.(sizes := f.sizes + [|block|]);
    var f5 := f4.(ptrs := f.ptrs + [Get(f.locals[0], x.decls[i].place.off, 8)]);
    var f6 := f5.(locals := f1.locals[0 := Put(f.locals[0], x.decls[i].place.off, 8, at)]);
    assert f1.locals[0] == f.locals[0];
    ExecSix(x, ArgumentIn(i), f, f1, f2, f3, f4, f5, f6);
  }

  lemma BlocksFit(decls: seq<Decl>, blocks: seq<seq<Byte>>, k: nat)
    requires ModesetEntry(decls) && LocalBlocks(decls, blocks) && k < |blocks|
    ensures BlockFits(decls, blocks, k)
  {
  }

  lemma PointedStep(decls: seq<Decl>, root: seq<Byte>, at: seq<nat>, k: nat)
    requires ModesetEntry(decls) && |root| == decls[0].size.n && k + 1 < |decls| == |at| + 1
    ensures decls[k + 1].place.Field? && decls[k + 1].place.off + 8 <= |root|
    ensures Pointed(decls, root, at, k + 1) == Put(Pointed(decls, root, at, k), decls[k + 1].place.off, 8, at[k])
  {
    assert ArrayDecl(decls[0], decls[k + 1]);
  }

  lemma PtrsStep(decls: seq<Decl>, root: seq<Byte>, size: nat, arrays: seq<seq<Byte>>, k: nat)
    requires ModesetEntry(decls) && |root| == decls[0].size.n && k + 1 < |decls| == |arrays| + 1
    ensures decls[k + 1].place.Field? && decls[k + 1].place.off + 8 <= |root|
    ensures BufPtrs(size, arrays, k + 1) == BufPtrs(size, arrays, k) + [size + Offset(arrays, k)]
    ensures ClientPtrs(decls, root, k + 1) == ClientPtrs(decls, root, k) + [Get(root, decls[k + 1].place.off, 8)]
    ensures Lengths(arrays)[..k + 1] == Lengths(arrays)[..k] + [|arrays[k]|]
    ensures arrays[..k + 1] == arrays[..k] + [arrays[k]]
  {
    hide Offset, Get;
    assert ArrayDecl(decls[0], decls[k + 1]);
  }

  lemma {:induction false} AllIn(x: Context, payload: seq<Byte>, arrays: seq<seq<Byte>>, k: nat)
    requires x.Valid() && Complete(x.decls, payload) && arrays == ArraysOf(x.decls, payload)
    requires WithinLimits(x.decls, payload[..x.decls[0].size.n]) && k <= |arrays|
    ensures |x.lib.arrays| == |arrays| == |x.decls| - 1
    ensures Exec(x, CodeIn(k + 1), Start(payload)) == Some(LoadedFrame(x, payload, arrays, k))
    decreases k
  {
    hide Do, Exec, LoadedFrame, Sizes, Cut, FieldsDisjoint, ArrayDecl, ValidLibrary, WithinLimits, Complete;
    LibraryShape(x, payload);
    if k == 0 {
      RootIn(x, payload, arrays);
      assert CodeIn(1) == ArgumentIn(0) by { FirstArgument(); }
    } else {
      AllIn(x, payload, arrays, k - 1);
      ArrayIn(x, payload, arrays, k - 1);
      ExecAppend(x, CodeIn(k), ArgumentIn(k), Start(payload));
    }
  }

  lemma FirstArgument()
    ensures CodeIn(1) == ArgumentIn(0)
  {
    assert CodeIn(0) == [];
  }

  // ----- the call -----

  lemma Called(x: Context, payload: seq<Byte>, arrays: seq<seq<Byte>>, f: Frame)
    requires x.Valid() && Complete(x.decls, payload) && arrays == ArraysOf(x.decls, payload)
    requires |x.lib.arrays| == |arrays| == |x.decls| - 1
    requires f == LoadedFrame(x, payload, arrays, |arrays|)
    ensures var root := payload[..x.decls[0].size.n];
      var image := Image(x.decls, x.lib, Pointed(x.decls, root, x.lib.arrays, |arrays|), arrays);
      var (result, m) := x.run(image, x.lib.root);
      && LocalsMapped(x.lib, m, |root|, Lengths(arrays))
      && Exec(x, [CallProcess], f) == Some(f.(result := result,
           locals := [Read(m, x.lib.root, |root|)] + ReadLocals(x.lib, m, |root|, Lengths(arrays))))
  {
    hide Pointed, Image, FieldsDisjoint, Cut, Sizes, BufPtrs, ClientPtrs, ReadLocals;
    var root := payload[..x.decls[0].size.n];
    var pointed := Pointed(x.decls, root, x.lib.arrays, |arrays|);
    assert f.locals[1..] == arrays[..|arrays|] == arrays;
    ImageMapped(x.decls, x.lib, pointed, arrays);
    StaysMapped(x.run, x.lib, Image(x.decls, x.lib, pointed, arrays), x.lib.root, |root|, Lengths(arrays));
    assert [CallProcess][1..] == [];
  }

  // ----- the way out -----

  /** The root with the pointers of the arrays behind the first k restored. */
  function RestoredRoot(decls: seq<Decl>, left: seq<Byte>, root: seq<Byte>, k: nat): (r: seq<Byte>)
    requires ModesetEntry(decls) && |left| == |root| == decls[0].size.n && k < |decls|
    ensures |r| == |left|
    decreases |decls| - k
  {
    if k == |decls| - 1 then left
    else
      assert ArrayDecl(decls[0], decls[k + 1]);
      var off := decls[k + 1].place.off;
      Put(RestoredRoot(decls, left, root, k + 1), off, 8, Get(root, off, 8))
  }

  lemma {:induction false} RestoredRootFrom(decls: seq<Decl>, left: seq<Byte>, root: seq<Byte>, k: nat)
    requires ValidEntry(decls) && |left| == |root| == decls[0].size.n && k < |decls|
    ensures RestoredFrom(decls, RestoredRoot(decls, left, root, k), left, root, k)
    decreases |decls| - k
  {
    hide RestoredFrom, FieldsDisjoint;
    if k == |decls| - 1 {
      NothingRestored(decls, left, root);
    } else {
      RestoredRootFrom(decls, left, root, k + 1);
      RestoreStep(decls, RestoredRoot(decls, left, root, k + 1), left, root, k + 1);
    }
  }

  /** The frame when the arrays behind the first k have been written back. */
  function StoredFrame(x: Context, f: Frame, root: seq<Byte>, left: seq<Byte>,
                       arrays: seq<seq<Byte>>, news: seq<seq<Byte>>, k: nat): Frame
    requires ModesetEntry(x.decls) && |left| == |root| == x.decls[0].size.n
    requires k <= |arrays| == |news| == |x.decls| - 1
    requires |root| + Offset(arrays, k) <= |root + Flatten(arrays)|
  {
    f.(payload := (root + Flatten(arrays))[..|root| + Offset(arrays, k)] + Flatten(news[k..]),
       locals := [RestoredRoot(x.decls, left, root, k)] + news)
  }

  lemma ArrayOut(x: Context, f: Frame, root: seq<Byte>, left: seq<Byte>,
                 arrays: seq<seq<Byte>>, news: seq<seq<Byte>>, k: nat)
    requires ModesetEntry(x.decls) && |left| == |root| == x.decls[0].size.n
    requires k < |arrays| == |news| == |x.decls| - 1 == |x.lib.arrays| && Lengths(news) == Lengths(arrays)
    requires f.bufPtrs == BufPtrs(|root|, arrays, |arrays|) && f.sizes == [|root|] + Lengths(arrays)
    requires f.ptrs == ClientPtrs(x.decls, root, |arrays|)
    ensures |root| + Offset(arrays, k) <= |root| + Offset(arrays, k + 1) <= |root + Flatten(arrays)|
    ensures Exec(x, [CopyOut(k + 1), PutBack(k + 1)], StoredFrame(x, f, root, left, arrays, news, k + 1))
         == Some(StoredFrame(x, f, root, left, arrays, news, k))
  {
    hide Get, Put, Flatten, Offset;
    assert ArrayDecl(x.decls[0], x.decls[k + 1]);
    FlattenSlice(arrays, k);
    FlattenFrom(news, k);
    var all, pos, block := root + Flatten(arrays), |root| + Offset(arrays, k), news[k];
    assert |block| == Lengths(news)[k] == Lengths(arrays)[k] == |arrays[k]|;
    var g := StoredFrame(x, f, root, left, arrays, news, k + 1);
    PartReplaced(all, pos, block, Flatten(news[k + 1..]));
    assert g.locals[k + 1][..|block|] == block;
    var g1 := g.(payload := all[..pos] + Flatten(news[k..]));
    assert g.bufPtrs[k + 1] == pos && g.sizes[k + 1] == |block|;
    assert Do(x, CopyOut(k + 1), g) == Some(g1);
    var r := RestoredRoot(x.decls, left, root, k);
    assert g1.ptrs[k + 1] == Get(root, x.decls[k + 1].place.off, 8);
    assert g1.locals[0 := r] == [r] + news;
    assert Do(x, PutBack(k + 1), g1) == Some(StoredFrame(x, f, root, left, arrays, news, k));
    ExecTwo(x, CopyOut(k + 1), PutBack(k + 1), g);
  }

  lemma PartReplaced(all: seq<Byte>, pos: nat, block: seq<Byte>, rest: seq<Byte>)
    requires pos + |block| <= |all|
    ensures Overwritten(all[..pos + |block|] + rest, pos, block) == all[..pos] + (block + rest)
  {
  }

  lemma {:induction false} AllOut(x: Context, f: Frame, root: seq<Byte>, left: seq<Byte>,
                                  arrays: seq<seq<Byte>>, news: seq<seq<Byte>>, k: nat)
    requires ModesetEntry(x.decls) && |left| == |root| == x.decls[0].size.n
    requires k <= |arrays| == |news| == |x.decls| - 1 == |x.lib.arrays| && Lengths(news) == Lengths(arrays)
    requires f.bufPtrs == BufPtrs(|root|, arrays, |arrays|) && f.sizes == [|root|] + Lengths(arrays)
    requires f.ptrs == ClientPtrs(x.decls, root, |arrays|)
    requires |root| + Offset(arrays, k) <= |root + Flatten(arrays)|
    ensures Exec(x, CodeOut(k + 1), StoredFrame(x, f, root, left, arrays, news, k))
         == Some(f.(payload := RestoredRoot(x.decls, left, root, 0) + Flatten(news),
                    locals := [RestoredRoot(x.decls, left, root, 0)] + news, inarg := f.ptrs[0]))
    decreases k
  {
    hide Do, Flatten, RestoredRoot, ModesetEntry, StoredFrame;
    if k == 0 {
      RootOut(x, f, root, left, arrays, news);
      assert CodeOut(1) == [CopyOut(0), PutBack(0)] by { LastArgument(); }
    } else {
      ArrayOut(x, f, root, left, arrays, news, k - 1);
      AllOut(x, f, root, left, arrays, news, k - 1);
      ExecAppend(x, [CopyOut(k), PutBack(k)], CodeOut(k), StoredFrame(x, f, root, left, arrays, news, k));
    }
  }

  lemma LastArgument()
    ensures CodeOut(1) == [CopyOut(0), PutBack(0)]
  {
    assert CodeOut(0) == [];
  }

  lemma RootOut(x: Context, f: Frame, root: seq<Byte>, left: seq<Byte>, arrays: seq<seq<Byte>>, news: seq<seq<Byte>>)
    requires ModesetEntry(x.decls) && |left| == |root| == x.decls[0].size.n
    requires |arrays| == |news| == |x.decls| - 1
    requires f.bufPtrs == BufPtrs(|root|, arrays, |arrays|) && f.sizes == [|root|] + Lengths(arrays)
    requires f.ptrs == ClientPtrs(x.decls, root, |arrays|)
    requires |root| + Offset(arrays, 0) <= |root + Flatten(arrays)|
    ensures Exec(x, [CopyOut(0), PutBack(0)], StoredFrame(x, f, root, left, arrays, news, 0))
         == Some(f.(payload := RestoredRoot(x.decls, left, root, 0) + Flatten(news),
                    locals := [RestoredRoot(x.decls, left, root, 0)] + news, inarg := f.ptrs[0]))
  {
    hide Get, Put, Flatten, RestoredRoot, Overwritten, ArrayDecl;
    var r := RestoredRoot(x.decls, left, root, 0);
    var g := StoredFrame(x, f, root, left, arrays, news, 0);
    assert news[0..] == news && Offset(arrays, 0) == 0;
    assert g.payload == root + Flatten(news);
    var g1 := g.(payload := r + Flatten(news));
    assert g.locals[0][..|root|] == r;
    FrontReplaced(root, r, Flatten(news));
    assert f.bufPtrs[0] == 0 && f.sizes[0] == |root|;
    assert Do(x, CopyOut(0), g) == Some(g1);
    ExecTwo(x, CopyOut(0), PutBack(0), g);
  }

  lemma FrontReplaced(root: seq<Byte>, r: seq<Byte>, rest: seq<Byte>)
    requires |root| == |r|
    ensures Overwritten(root + rest, 0, r) == r + rest
  {
  }

  // ----- all of it -----

  /**
   Running the printed statements stays inside the payload and the local arrays, and
   leaves the reply that the library owes, for any code behind the callback.
   */
  lemma PrintedLibraryIsCorrect(x: Context, payload: seq<Byte>)
    requires x.Valid() && Complete(x.decls, payload)
    requires WithinLimits(x.decls, payload[..x.decls[0].size.n])
    ensures var end := Exec(x, LibraryStatements(|x.decls|), Start(payload));
      && end.Some? && end.value.inarg == 0
      && (end.value.result, end.value.payload) == LocalReply(x.decls, x.run, x.lib, payload)
  {
    hide Do, Exec, Pointed, Image, Flatten, Cut, Sizes, FieldsDisjoint, ArrayDecl, WithinLimits, KeepPointers;
    hide RestoredRoot, ReadLocals, CodeIn, CodeOut, BufPtrs, Offset;
    var size := x.decls[0].size.n;
    var root := payload[..size];
    var arrays := ArraysOf(x.decls, payload);
    var n := |arrays|;
    AllIn(x, payload, arrays, n);
    var f := LoadedFrame(x, payload, arrays, n);
    Called(x, payload, arrays, f);
    var image := Image(x.decls, x.lib, Pointed(x.decls, root, x.lib.arrays, n), arrays);
    var (result, m) := x.run(image, x.lib.root);
    var left := Read(m, x.lib.root, size);
    var news := ReadLocals(x.lib, m, size, Lengths(arrays));
    var called := f.(result := result, locals := [left] + news);
    assert Lengths(news) == Lengths(arrays) && Lengths(arrays)[..n] == Lengths(arrays);
    StoredAtFirst(x, called, payload, root, left, arrays, news);
    AllOut(x, called, root, left, arrays, news, n);
    ExecAppend(x, CodeIn(n + 1), [CallProcess], Start(payload));
    ExecAppend(x, CodeIn(n + 1) + [CallProcess], CodeOut(n + 1), Start(payload));
    RestoredRootFrom(x.decls, left, root, 0);
    RestoredAll(x.decls, RestoredRoot(x.decls, left, root, 0), left, root);
  }

  lemma StoredAtFirst(x: Context, f: Frame, payload: seq<Byte>, root: seq<Byte>, left: seq<Byte>,
                      arrays: seq<seq<Byte>>, news: seq<seq<Byte>>)
    requires ModesetEntry(x.decls) && Complete(x.decls, payload) && arrays == ArraysOf(x.decls, payload)
    requires root == payload[..x.decls[0].size.n] && |left| == |root| && |news| == |arrays| == |x.decls| - 1
    requires f.payload == payload && f.locals == [left] + news
    ensures |root| + Offset(arrays, |arrays|) <= |root + Flatten(arrays)|
    ensures StoredFrame(x, f, root, left, arrays, news, |arrays|) == f
  {
    hide Sizes, Cut;
    FlattenCut(payload[|root|..], SizeList(x.decls, root));
    FlattenLength(arrays);
    assert news[|arrays|..] == [];
    assert root + Flatten(arrays) == payload;
  }
}
