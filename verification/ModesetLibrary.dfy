/**
 The library's parse_ function as generated for a table entry: a cursor over the payload,
 pointer fields of the local root struct pointed at local arrays for the callback, and
 everything written back in reverse order.
 */
module ModesetLibrary {
  import opened Bytes
  import opened Memory
  import opened Kernel
  import opened IoctlTable
  import opened GeneratedCode
  import opened Modeset

  /** Addresses of the local root struct and arrays, and the library's other memory. */
  datatype Library = Library(root: nat, arrays: seq<nat>, rest: Mem)

  /** Size of the local array for argument i + 1. */
  function Limit(decls: seq<Decl>, i: nat): nat
    requires ModesetEntry(decls) && i < |decls| - 1
  {
    assert ArrayDecl(decls[0], decls[i + 1]);
    decls[i + 1].limit.value
  }

  predicate LocalPlaced(decls: seq<Decl>, lib: Library, i: nat)
    requires ModesetEntry(decls) && i < |lib.arrays| == |decls| - 1
  {
    && lib.arrays[i] + Limit(decls, i) < TWO_TO_THE_64
    && Apart(lib.root, decls[0].size.n, lib.arrays[i], Limit(decls, i))
  }

  predicate LocalsDisjoint(decls: seq<Decl>, lib: Library, i: nat, j: nat)
    requires ModesetEntry(decls) && i < j < |lib.arrays| == |decls| - 1
  {
    Apart(lib.arrays[i], Limit(decls, i), lib.arrays[j], Limit(decls, j))
  }

  predicate ValidLibrary(decls: seq<Decl>, lib: Library)
    requires ModesetEntry(decls)
  {
    && |lib.arrays| == |decls| - 1
    && (forall i | 0 <= i < |lib.arrays| :: LocalPlaced(decls, lib, i))
    && (forall i, j | 0 <= i < j < |lib.arrays| :: LocalsDisjoint(decls, lib, i, j))
  }

  predicate BlockFits(decls: seq<Decl>, blocks: seq<seq<Byte>>, i: nat)
    requires ModesetEntry(decls) && i < |blocks| == |decls| - 1
  {
    |blocks[i]| <= Limit(decls, i)
  }

  /** One block for each local array, at most its size. */
  predicate LocalBlocks(decls: seq<Decl>, blocks: seq<seq<Byte>>)
    requires ModesetEntry(decls)
  {
    |blocks| == |decls| - 1 && forall i | 0 <= i < |blocks| :: BlockFits(decls, blocks, i)
  }

  predicate BlockCounted(decls: seq<Decl>, root: seq<Byte>, blocks: seq<seq<Byte>>, i: nat)
    requires ModesetEntry(decls) && |root| == decls[0].size.n && i < |blocks| == |decls| - 1
  {
    |blocks[i]| == TrueSize(decls, root, i + 1)
  }

  /** The blocks are the arrays that the root struct counts. */
  predicate CountedBlocks(decls: seq<Decl>, root: seq<Byte>, blocks: seq<seq<Byte>>)
    requires ModesetEntry(decls) && |root| == decls[0].size.n
  {
    |blocks| == |decls| - 1 && forall i | 0 <= i < |blocks| :: BlockCounted(decls, root, blocks, i)
  }

  /** The root struct with its first k pointer fields pointed at the local arrays. */
  function Pointed(decls: seq<Decl>, root: seq<Byte>, at: seq<nat>, k: nat): (r: seq<Byte>)
    requires ModesetEntry(decls) && |root| == decls[0].size.n && k < |decls| == |at| + 1
    ensures |r| == |root|
  {
    if k == 0 then root else Put(Pointed(decls, root, at, k - 1), decls[k].place.off, 8, at[k - 1])
  }

  /** The library's memory with the locals loaded. */
  function Image(decls: seq<Decl>, lib: Library, root: seq<Byte>, arrays: seq<seq<Byte>>): Mem
    requires |lib.arrays| == |arrays|
  {
    WriteBlocks(Write(lib.rest, lib.root, root), lib.arrays, arrays)
  }

  // ----- what pointing does to the root struct -----

  lemma {:induction false} PointedOutside(decls: seq<Decl>, root: seq<Byte>, at: seq<nat>, k: nat, j: nat)
    requires ModesetEntry(decls) && |root| == decls[0].size.n && k < |decls| == |at| + 1
    requires j < |root| && !InPointer(decls, j)
    ensures Pointed(decls, root, at, k)[j] == root[j]
  {
    hide Encode;
    if k > 0 {
      PointedOutside(decls, root, at, k - 1, j);
      assert ArrayDecl(decls[0], decls[k]);
    }
  }

  lemma {:induction false} PointedField(decls: seq<Decl>, root: seq<Byte>, at: seq<nat>, k: nat, i: nat)
    requires ValidEntry(decls) && |root| == decls[0].size.n && k < |decls| == |at| + 1
    requires 0 < i < |decls| && at[i - 1] < TWO_TO_THE_64
    ensures Get(Pointed(decls, root, at, k), decls[i].place.off, 8)
         == if i <= k then at[i - 1] else Get(root, decls[i].place.off, 8)
  {
    hide Decode, Encode, Put, Get;
    WordBounds();
    if k > 0 {
      PointedField(decls, root, at, k - 1, i);
      var before := Pointed(decls, root, at, k - 1);
      assert ArrayDecl(decls[0], decls[k]) && ArrayDecl(decls[0], decls[i]);
      if i == k {
        GetPutSame(before, decls[k].place.off, 8, at[k - 1]);
      } else {
        assert FieldsApart(decls[i].place.off, 8, decls[k].place.off, 8);
        GetPutOther(before, decls[k].place.off, 8, at[k - 1], decls[i].place.off, 8);
      }
    }
  }

  lemma {:induction false} PointedCount(decls: seq<Decl>, root: seq<Byte>, at: seq<nat>, k: nat, i: nat)
    requires ValidEntry(decls) && |root| == decls[0].size.n && k < |decls| == |at| + 1
    requires 0 < i < |decls|
    ensures TrueSize(decls, Pointed(decls, root, at, k), i) == TrueSize(decls, root, i)
    ensures Sizes(decls, Pointed(decls, root, at, k), i) == Sizes(decls, root, i)
  {
    hide Decode, Encode, Put, Get;
    if k > 0 {
      PointedCount(decls, root, at, k - 1, i);
      assert ArrayDecl(decls[0], decls[k]) && ArrayDecl(decls[0], decls[i]);
      assert FieldsApart(decls[k].place.off, 8, decls[i].size.off, decls[i].size.width);
      GetPutOther(Pointed(decls, root, at, k - 1), decls[k].place.off, 8, at[k - 1],
                  decls[i].size.off, decls[i].size.width);
    }
  }

  lemma PointedBlank(decls: seq<Decl>, root: seq<Byte>, at: seq<nat>, k: nat)
    requires ModesetEntry(decls) && |root| == decls[0].size.n && k < |decls| == |at| + 1
    ensures Blank(decls, Pointed(decls, root, at, k)) == Blank(decls, root)
  {
    hide Pointed, InPointer;
    forall j | 0 <= j < |root|
      ensures Blank(decls, Pointed(decls, root, at, k))[j] == Blank(decls, root)[j]
    {
      if !InPointer(decls, j) {
        PointedOutside(decls, root, at, k, j);
      }
    }
  }

  // ----- the callback through the local pointers -----

  /** Through the rewritten pointers the callback reaches the local arrays. */
  lemma PointedRanges(decls: seq<Decl>, lib: Library, root: seq<Byte>, arrays: seq<seq<Byte>>)
    requires ValidEntry(decls) && ValidLibrary(decls, lib) && |root| == decls[0].size.n
    requires CountedBlocks(decls, root, arrays)
    ensures var v := Described(decls, Pointed(decls, root, lib.arrays, |decls| - 1));
      && Bases(v) == lib.arrays
      && forall i | 0 <= i < |v| :: v[i] == Iov(lib.arrays[i], |arrays[i]|)
  {
    hide Pointed, TrueSize, Get;
    var r := Pointed(decls, root, lib.arrays, |decls| - 1);
    forall i | 0 <= i < |lib.arrays|
      ensures Described(decls, r)[i] == Iov(lib.arrays[i], |arrays[i]|)
    {
      assert LocalPlaced(decls, lib, i) && BlockCounted(decls, root, arrays, i);
      PointedField(decls, root, lib.arrays, |decls| - 1, i + 1);
      PointedCount(decls, root, lib.arrays, |decls| - 1, i + 1);
    }
  }

  lemma LocalsApart(decls: seq<Decl>, lib: Library, blocks: seq<seq<Byte>>)
    requires ModesetEntry(decls) && ValidLibrary(decls, lib) && LocalBlocks(decls, blocks)
    ensures BlocksApart(lib.arrays, blocks)
    ensures ApartFromAll(lib.root, decls[0].size.n, lib.arrays, blocks)
  {
    hide Limit, ArrayDecl;
    forall i, j | 0 <= i < j < |blocks|
      ensures Apart(lib.arrays[i], |blocks[i]|, lib.arrays[j], |blocks[j]|)
    {
      assert LocalsDisjoint(decls, lib, i, j) && BlockFits(decls, blocks, i) && BlockFits(decls, blocks, j);
    }
    forall i | 0 <= i < |blocks|
      ensures Apart(lib.root, decls[0].size.n, lib.arrays[i], |blocks[i]|)
    {
      assert LocalPlaced(decls, lib, i) && BlockFits(decls, blocks, i);
    }
  }

  /** The local arrays as the callback finds them. */
  lemma LocalsReached(decls: seq<Decl>, lib: Library, root: seq<Byte>, arrays: seq<seq<Byte>>)
    requires ValidEntry(decls) && ValidLibrary(decls, lib) && |root| == decls[0].size.n
    requires LocalBlocks(decls, arrays) && CountedBlocks(decls, root, arrays)
    ensures var r := Pointed(decls, root, lib.arrays, |decls| - 1);
      var m := Image(decls, lib, r, arrays);
      && Mapped(m, lib.root, |r|) && Read(m, lib.root, |r|) == r
      && AllMapped(m, Described(decls, r)) && Pieces(m, Described(decls, r)) == arrays
      && Bases(Described(decls, r)) == lib.arrays
  {
    hide Pointed, Described, FieldsDisjoint, ArrayDecl, CountedBlocks;
    var r := Pointed(decls, root, lib.arrays, |decls| - 1);
    var m0 := Write(lib.rest, lib.root, r);
    var m := Image(decls, lib, r, arrays);
    LocalsApart(decls, lib, arrays);
    ReadWritten(lib.rest, lib.root, r);
    ReadApartBlocks(m0, lib.arrays, arrays, lib.root, |r|);
    PointedRanges(decls, lib, root, arrays);
    var v := Described(decls, r);
    forall i | 0 <= i < |v|
      ensures Mapped(m, v[i].base, v[i].len) && Read(m, v[i].base, v[i].len) == arrays[i]
    {
      ReadBlock(m0, lib.arrays, arrays, i);
    }
  }

  /** The local arrays as the callback leaves them. */
  lemma LocalsLeft(decls: seq<Decl>, lib: Library, m: Mem, news: seq<seq<Byte>>, b: seq<Byte>)
    requires ModesetEntry(decls) && ValidLibrary(decls, lib) && LocalBlocks(decls, news)
    requires |b| == decls[0].size.n
    ensures var m' := Write(WriteBlocks(m, lib.arrays, news), lib.root, b);
      && Mapped(m', lib.root, |b|) && Read(m', lib.root, |b|) == b
      && forall i | 0 <= i < |news| ::
           Mapped(m', lib.arrays[i], |news[i]|) && Read(m', lib.arrays[i], |news[i]|) == news[i]
  {
    LocalsApart(decls, lib, news);
    var m1 := WriteBlocks(m, lib.arrays, news);
    ReadWritten(m1, lib.root, b);
    forall i | 0 <= i < |news|
      ensures var m' := Write(m1, lib.root, b);
        Mapped(m', lib.arrays[i], |news[i]|) && Read(m', lib.arrays[i], |news[i]|) == news[i]
    {
      ReadBlock(m, lib.arrays, news, i);
      ReadApart(m1, lib.root, b, lib.arrays[i], |news[i]|);
    }
  }

  /** The callback on a root struct whose ranges are known. */
  lemma CallbackFound(decls: seq<Decl>, cb: Callback, m: Mem, a: int, r: seq<Byte>, arrays: seq<seq<Byte>>)
    requires ModesetEntry(decls) && |r| == decls[0].size.n
    requires Mapped(m, a, |r|) && Read(m, a, |r|) == r
    requires AllMapped(m, Described(decls, r)) && Pieces(m, Described(decls, r)) == arrays
    ensures var e := cb(View(Blank(decls, r), arrays));
      RunCallback(decls, cb, m, a) ==
        (e.result, Write(WriteBlocks(m, Bases(Described(decls, r)), NewArrays(arrays, e)), a, NewRoot(decls, r, e)))
  {
    hide Described, Blank, NewRoot, NewArrays, Write, WriteBlocks, Bases;
  }

  lemma NewsFit(decls: seq<Decl>, arrays: seq<seq<Byte>>, e: Effect)
    requires ModesetEntry(decls) && LocalBlocks(decls, arrays)
    ensures LocalBlocks(decls, NewArrays(arrays, e))
  {
    hide NewArrays;
    forall i | 0 <= i < |arrays|
      ensures BlockFits(decls, NewArrays(arrays, e), i)
    {
      assert BlockFits(decls, arrays, i);
    }
  }

  /** What the callback leaves in the library's locals. */
  lemma CallbackOnLocals(decls: seq<Decl>, cb: Callback, lib: Library, root: seq<Byte>, arrays: seq<seq<Byte>>)
    requires ValidEntry(decls) && ValidLibrary(decls, lib) && |root| == decls[0].size.n
    requires LocalBlocks(decls, arrays) && CountedBlocks(decls, root, arrays)
    ensures var r := Pointed(decls, root, lib.arrays, |decls| - 1);
      var e := cb(View(Blank(decls, root), arrays));
      var (result, m') := RunCallback(decls, cb, Image(decls, lib, r, arrays), lib.root);
      && result == e.result
      && Mapped(m', lib.root, |root|) && Read(m', lib.root, |root|) == NewRoot(decls, r, e)
      && forall i | 0 <= i < |arrays| ::
           && Mapped(m', lib.arrays[i], |arrays[i]|)
           && Read(m', lib.arrays[i], |arrays[i]|) == NewArrays(arrays, e)[i]
  {
    hide Pointed, NewRoot, NewArrays, Blank, FieldsDisjoint, ArrayDecl, Described, Image;
    hide RunCallback, BlockFits, CountedBlocks, LocalPlaced, LocalsDisjoint, Write, WriteBlocks;
    var r := Pointed(decls, root, lib.arrays, |decls| - 1);
    var m := Image(decls, lib, r, arrays);
    var e := cb(View(Blank(decls, root), arrays));
    LocalsReached(decls, lib, root, arrays);
    PointedBlank(decls, root, lib.arrays, |decls| - 1);
    CallbackFound(decls, cb, m, lib.root, r, arrays);
    NewsFit(decls, arrays, e);
    LocalsLeft(decls, lib, m, NewArrays(arrays, e), NewRoot(decls, r, e));
  }

  // ----- restoring -----

  predicate InField(decls: seq<Decl>, k: nat, j: int)
    requires ModesetEntry(decls) && 0 < k < |decls|
  {
    decls[k].place.off <= j < decls[k].place.off + 8
  }

  lemma RestoreField(b: seq<Byte>, root: seq<Byte>, off: nat)
    requires off + 8 <= |b| == |root|
    ensures var r := Put(b, off, 8, Get(root, off, 8));
      forall j | 0 <= j < |b| :: r[j] == if off <= j < off + 8 then root[j] else b[j]
  {
    EncodeDecode(root[off..off + 8]);
  }

  /** Pointer fields k + 1, ..., n are the client's again; the rest is as the callback left it. */
  predicate RestoredFrom(decls: seq<Decl>, r: seq<Byte>, left: seq<Byte>, root: seq<Byte>, k: nat)
    requires ModesetEntry(decls) && |r| == |left| == |root| == decls[0].size.n && k < |decls|
  {
    && (forall j | 0 <= j < |r| && !InPointer(decls, j) :: r[j] == left[j])
    && (forall i, j | k < i < |decls| && 0 <= j < |r| && InField(decls, i, j) :: r[j] == root[j])
  }

  lemma RestoreStep(decls: seq<Decl>, r: seq<Byte>, left: seq<Byte>, root: seq<Byte>, k: nat)
    requires ValidEntry(decls) && |r| == |left| == |root| == decls[0].size.n && 0 < k < |decls|
    requires RestoredFrom(decls, r, left, root, k)
    ensures decls[k].place.off + 8 <= |r|
    ensures RestoredFrom(decls, Put(r, decls[k].place.off, 8, Get(root, decls[k].place.off, 8)), left, root, k - 1)
  {
    hide Put, Get, FieldsDisjoint;
    assert ArrayDecl(decls[0], decls[k]);
    var off := decls[k].place.off;
    RestoreField(r, root, off);
    var r' := Put(r, off, 8, Get(root, off, 8));
    forall j | 0 <= j < |r| && !InPointer(decls, j)
      ensures r'[j] == left[j]
    {
    }
    forall i, j | k - 1 < i < |decls| && 0 <= j < |r| && InField(decls, i, j)
      ensures r'[j] == root[j]
    {
      if i == k {
        assert InField(decls, k, j);
      }
    }
  }

  /** With all pointer fields restored, the root is what the callback left, with the client's pointers. */
  lemma RestoredAll(decls: seq<Decl>, r: seq<Byte>, left: seq<Byte>, root: seq<Byte>)
    requires ModesetEntry(decls) && |r| == |left| == |root| == decls[0].size.n
    requires RestoredFrom(decls, r, left, root, 0)
    ensures r == KeepPointers(decls, left, root)
  {
    forall j | 0 <= j < |r|
      ensures r[j] == KeepPointers(decls, left, root)[j]
    {
      if InPointer(decls, j) {
        var i :| 0 < i < |decls| && decls[i].place.off <= j < decls[i].place.off + 8;
        assert InField(decls, i, j);
      }
    }
  }

  /** What the callback makes of the pointed struct is, with the client's pointers, what it makes of the client's. */
  lemma PointedNewRoot(decls: seq<Decl>, root: seq<Byte>, at: seq<nat>, e: Effect)
    requires ModesetEntry(decls) && |root| == decls[0].size.n && |at| == |decls| - 1
    ensures KeepPointers(decls, NewRoot(decls, Pointed(decls, root, at, |decls| - 1), e), root)
         == NewRoot(decls, root, e)
  {
    hide Pointed;
    PointedBlank(decls, root, at, |decls| - 1);
  }

  // ----- the reply, for any code behind the callback -----

  /** What a C callback does with the library's memory, given the address of the root struct. */
  type Native = (Mem, int) -> (int, Mem)

  ghost predicate KeepsMapping(run: Native)
  {
    forall m: Mem, a: int :: m.Keys <= run(m, a).1.Keys
  }

  predicate LocalsMapped(lib: Library, m: Mem, size: nat, lens: seq<nat>)
    requires |lib.arrays| == |lens|
  {
    Mapped(m, lib.root, size) && forall i | 0 <= i < |lens| :: Mapped(m, lib.arrays[i], lens[i])
  }

  function ReadLocals(lib: Library, m: Mem, size: nat, lens: seq<nat>): (blocks: seq<seq<Byte>>)
    requires |lib.arrays| == |lens| && LocalsMapped(lib, m, size, lens)
    ensures |blocks| == |lens| && forall i | 0 <= i < |blocks| :: |blocks[i]| == lens[i]
  {
    seq(|lens|, i requires 0 <= i < |lens| => Read(m, lib.arrays[i], lens[i]))
  }

  lemma {:induction false} BlocksMapped(m: Mem, at: seq<int>, blocks: seq<seq<Byte>>)
    requires |at| == |blocks|
    ensures m.Keys <= WriteBlocks(m, at, blocks).Keys
    ensures forall i | 0 <= i < |at| :: Mapped(WriteBlocks(m, at, blocks), at[i], |blocks[i]|)
    decreases |at|
  {
    if at != [] {
      var m1 := Write(m, at[0], blocks[0]);
      BlocksMapped(m1, at[1..], blocks[1..]);
      assert forall i | 0 < i < |at| :: at[i] == at[1..][i - 1] && blocks[i] == blocks[1..][i - 1];
      assert Mapped(m1, at[0], |blocks[0]|);
    }
  }

  lemma ImageMapped(decls: seq<Decl>, lib: Library, root: seq<Byte>, arrays: seq<seq<Byte>>)
    requires |lib.arrays| == |arrays|
    ensures LocalsMapped(lib, Image(decls, lib, root, arrays), |root|, Lengths(arrays))
  {
    hide Write;
    BlocksMapped(Write(lib.rest, lib.root, root), lib.arrays, arrays);
  }

  lemma StaysMapped(run: Native, lib: Library, m: Mem, a: int, size: nat, lens: seq<nat>)
    requires KeepsMapping(run) && |lib.arrays| == |lens| && LocalsMapped(lib, m, size, lens)
    ensures LocalsMapped(lib, run(m, a).1, size, lens)
  {
    assert m.Keys <= run(m, a).1.Keys;
  }

  /**
   The sizes are those of the payload before the call: each array's slot receives as
   many bytes of its local array, and the root comes back with the client's pointers,
   whatever the callback did to counts, pointers and arrays.
   */
  ghost function LocalReply(decls: seq<Decl>, run: Native, lib: Library, payload: seq<Byte>): (int, seq<Byte>)
    requires ModesetEntry(decls) && ValidLibrary(decls, lib) && Complete(decls, payload) && KeepsMapping(run)
  {
    var size := decls[0].size.n;
    var root := payload[..size];
    var arrays := ArraysOf(decls, payload);
    var pointed := Pointed(decls, root, lib.arrays, |decls| - 1);
    var image := Image(decls, lib, pointed, arrays);
    var (result, m) := run(image, lib.root);
    ImageMapped(decls, lib, pointed, arrays);
    StaysMapped(run, lib, image, lib.root, size, Lengths(arrays));
    (result, KeepPointers(decls, Read(m, lib.root, size), root) + Flatten(ReadLocals(lib, m, size, Lengths(arrays))))
  }

  /** For any callback the reply is as long as the payload and has the client's pointers. */
  lemma LocalReplyFrame(decls: seq<Decl>, run: Native, lib: Library, payload: seq<Byte>)
    requires ModesetEntry(decls) && ValidLibrary(decls, lib) && Complete(decls, payload) && KeepsMapping(run)
    ensures var reply := LocalReply(decls, run, lib, payload).1;
      && |reply| == |payload|
      && forall j | 0 <= j < decls[0].size.n && InPointer(decls, j) :: reply[j] == payload[j]
  {
    hide Pointed, Image, Flatten, Cut, InPointer, Sizes;
    var size := decls[0].size.n;
    var arrays := ArraysOf(decls, payload);
    var pointed := Pointed(decls, payload[..size], lib.arrays, |decls| - 1);
    var image := Image(decls, lib, pointed, arrays);
    ImageMapped(decls, lib, pointed, arrays);
    StaysMapped(run, lib, image, lib.root, size, Lengths(arrays));
    var m := run(image, lib.root).1;
    var locals := ReadLocals(lib, m, size, Lengths(arrays));
    CutFlatten(locals);
    CutFlatten(arrays);
    FlattenCut(payload[size..], SizeList(decls, payload[..size]));
    assert Lengths(locals) == Lengths(arrays);
  }

  /** The callback of the model, as code that runs on memory. */
  function AsNative(decls: seq<Decl>, cb: Callback): Native
    requires ModesetEntry(decls)
  {
    (m: Mem, a: int) => RunCallback(decls, cb, m, a)
  }

  lemma CallbackKeepsMapping(decls: seq<Decl>, cb: Callback)
    requires ModesetEntry(decls)
    ensures KeepsMapping(AsNative(decls, cb))
  {
    forall m: Mem, a: int
      ensures m.Keys <= RunCallback(decls, cb, m, a).1.Keys
    {
      hide Described, NewRoot, Blank, Write;
      if Mapped(m, a, decls[0].size.n) {
        var root := Read(m, a, decls[0].size.n);
        var ranges := Described(decls, root);
        if AllMapped(m, ranges) {
          var arrays := Pieces(m, ranges);
          BlocksMapped(m, Bases(ranges), NewArrays(arrays, cb(View(Blank(decls, root), arrays))));
        }
      }
    }
  }

  /** With true sizes within the limits, the reply through the locals is the callback's own. */
  lemma LocalReplyIsLibraryReply(decls: seq<Decl>, cb: Callback, lib: Library, payload: seq<Byte>)
    requires ValidEntry(decls) && ValidLibrary(decls, lib) && Complete(decls, payload)
    requires Admitted(decls, payload[..decls[0].size.n])
    ensures KeepsMapping(AsNative(decls, cb))
    ensures LocalReply(decls, AsNative(decls, cb), lib, payload) == LibraryReply(decls, cb, payload)
  {
    hide Pointed, Image, Flatten, Cut, NewRoot, Blank, RunCallback, FieldsDisjoint, Sizes, Admitted, KeepPointers;
    CallbackKeepsMapping(decls, cb);
    var size := decls[0].size.n;
    var root := payload[..size];
    var arrays := ArraysOf(decls, payload);
    var pointed := Pointed(decls, root, lib.arrays, |decls| - 1);
    var image := Image(decls, lib, pointed, arrays);
    AdmittedSizes(decls, root);
    LoadedBlocks(decls, payload);
    CountedWhenAdmitted(decls, payload);
    CallbackOnLocals(decls, cb, lib, root, arrays);
    ImageMapped(decls, lib, pointed, arrays);
    StaysMapped(AsNative(decls, cb), lib, image, lib.root, size, Lengths(arrays));
    var e := cb(View(Blank(decls, root), arrays));
    PointedNewRoot(decls, root, lib.arrays, e);
    var m := AsNative(decls, cb)(image, lib.root).1;
    assert ReadLocals(lib, m, size, Lengths(arrays)) == NewArrays(arrays, e);
  }

  // ----- the function -----

  /** What the unpacking statements keep for each array. */
  datatype Saved = Saved(bufPtr: nat, actualSize: nat, actualPtr: nat)

  predicate SavedAt(decls: seq<Decl>, root: seq<Byte>, arrays: seq<seq<Byte>>, saved: seq<Saved>, i: nat)
    requires ModesetEntry(decls) && |root| == decls[0].size.n && |arrays| == |decls| - 1 && i < |saved| <= |arrays|
  {
    assert ArrayDecl(decls[0], decls[i + 1]);
    saved[i] == Saved(decls[0].size.n + Offset(arrays, i), |arrays[i]|, Get(root, decls[i + 1].place.off, 8))
  }

  /** The unpacking statements: copy out, save, and point the root at the local arrays. */
  method Unpack(decls: seq<Decl>, lib: Library, payload: array<Byte>, ghost arrays: seq<seq<Byte>>)
    returns (root: seq<Byte>, locals: seq<seq<Byte>>, saved: seq<Saved>)
    requires ValidEntry(decls) && ValidLibrary(decls, lib)
    requires Complete(decls, payload[..]) && arrays == ArraysOf(decls, payload[..])
    requires WithinLimits(decls, payload[..][..decls[0].size.n])
    ensures |root| == decls[0].size.n && |saved| == |arrays| == |decls| - 1
    ensures root == Pointed(decls, payload[..decls[0].size.n], lib.arrays, |decls| - 1)
    ensures locals == arrays && LocalBlocks(decls, locals)
    ensures forall i | 0 <= i < |saved| :: SavedAt(decls, payload[..decls[0].size.n], arrays, saved, i)
  {
    hide Get, Put, FieldsDisjoint, Flatten, Cut, Sizes, Limit;
    LoadedBlocks(decls, payload[..]);
    var size := decls[0].size.n;
    ghost var root0 := payload[..size];
    assert payload[..][..size] == root0;
    FlattenCut(payload[..][size..], SizeList(decls, root0));
    root, locals, saved := payload[..size], [], [];
    var pos := size;
    for i := 0 to |decls| - 1
      invariant root == Pointed(decls, root0, lib.arrays, i)
      invariant |locals| == |saved| == i && locals == arrays[..i]
      invariant pos == size + Offset(arrays, i)
      invariant forall k | 0 <= k < i :: SavedAt(decls, root0, arrays, saved, k)
    {
      assert ArrayDecl(decls[0], decls[i + 1]) && LocalPlaced(decls, lib, i);
      PointedCount(decls, root0, lib.arrays, i, i + 1);
      PointedField(decls, root0, lib.arrays, i, i + 1);
      FlattenSlice(arrays, i);
      var n := Sizes(decls, root, i + 1);
      var off := decls[i + 1].place.off;
      assert n == |arrays[i]|;
      SliceOfRest(payload[..], size, pos - size, n);
      assert payload[pos..pos + n] == arrays[i];
      assert BlockFits(decls, arrays, i) && n <= Limit(decls, i);
      locals := locals + [payload[pos..pos + n]];
      saved := saved + [Saved(pos, n, Get(root, off, 8))];
      root := Put(root, off, 8, lib.arrays[i]);
      pos := pos + n;
      assert forall k | 0 <= k < i ::
        SavedAt(decls, root0, arrays, saved[..i], k) ==> SavedAt(decls, root0, arrays, saved, k);
    }
  }

  /** The write-back statements, last array first: each array to its own slot, each pointer to its own field. */
  method WriteBack(decls: seq<Decl>, payload: array<Byte>, m: Mem, lib: Library, left: seq<Byte>,
                   saved: seq<Saved>,
                   ghost root0: seq<Byte>, ghost arrays: seq<seq<Byte>>, ghost news: seq<seq<Byte>>)
    returns (root: seq<Byte>)
    requires ValidEntry(decls) && ValidLibrary(decls, lib)
    requires |left| == |root0| == decls[0].size.n && |saved| == |arrays| == |news| == |decls| - 1
    requires payload[..] == root0 + Flatten(arrays) && Lengths(news) == Lengths(arrays)
    requires forall i | 0 <= i < |saved| :: SavedAt(decls, root0, arrays, saved, i)
    requires forall i | 0 <= i < |news| ::
      Mapped(m, lib.arrays[i], |news[i]|) && Read(m, lib.arrays[i], |news[i]|) == news[i]
    modifies payload
    ensures payload[..] == root0 + Flatten(news)
    ensures |root| == |left| && RestoredFrom(decls, root, left, root0, 0)
  {
    hide Get, Put, FieldsDisjoint, Flatten, RestoredFrom, ArrayDecl, InPointer;
    root := left;
    var i := |saved|;
    ghost var size := decls[0].size.n;
    FlattenLength(arrays);
    assert RestoredFrom(decls, root, left, root0, i) by { NothingRestored(decls, left, root0); }
    assert news[i..] == [] && Flatten([]) == [] by { FlattenNone(); }
    while i > 0
      invariant 0 <= i <= |saved|
      invariant |root| == |left| && RestoredFrom(decls, root, left, root0, i)
      invariant size + Offset(arrays, i) <= payload.Length
      invariant payload[..] == (root0 + Flatten(arrays))[..size + Offset(arrays, i)] + Flatten(news[i..])
    {
      i := i - 1;
      assert SavedAt(decls, root0, arrays, saved, i);
      assert |news[i]| == Lengths(news)[i] == Lengths(arrays)[i] == |arrays[i]|;
      OffsetStep(arrays, i);
      var block := Read(m, lib.arrays[i], saved[i].actualSize);
      WriteSlot(payload, saved[i].bufPtr, block, root0 + Flatten(arrays), news, i);
      root := PutBackPointer(decls, root, saved[i].actualPtr, i + 1, left, root0);
    }
    assert (root0 + Flatten(arrays))[..size + Offset(arrays, 0)] == root0;
    assert news[0..] == news;
  }

  method WriteSlot(payload: array<Byte>, pos: nat, block: seq<Byte>,
                   ghost all: seq<Byte>, ghost news: seq<seq<Byte>>, ghost i: nat)
    requires i < |news| && block == news[i] && pos + |block| <= |all|
    requires payload[..] == all[..pos + |block|] + Flatten(news[i + 1..])
    modifies payload
    ensures payload[..] == all[..pos] + Flatten(news[i..])
  {
    hide Flatten;
    CopyInto(payload, pos, block);
    FlattenFrom(news, i);
  }

  lemma FlattenNone()
    ensures Flatten([]) == []
  {
  }

  lemma OffsetStep(arrays: seq<seq<Byte>>, i: nat)
    requires i < |arrays|
    ensures Offset(arrays, i) + |arrays[i]| == Offset(arrays, i + 1)
  {
    FlattenSlice(arrays, i);
  }

  lemma FlattenFrom(blocks: seq<seq<Byte>>, i: nat)
    requires i < |blocks|
    ensures Flatten(blocks[i..]) == blocks[i] + Flatten(blocks[i + 1..])
  {
    assert blocks[i..][1..] == blocks[i + 1..];
  }

  lemma NothingRestored(decls: seq<Decl>, left: seq<Byte>, root: seq<Byte>)
    requires ModesetEntry(decls) && |left| == |root| == decls[0].size.n
    ensures RestoredFrom(decls, left, left, root, |decls| - 1)
  {
  }

  method PutBackPointer(decls: seq<Decl>, r: seq<Byte>, ptr: nat, k: nat, ghost left: seq<Byte>, ghost root: seq<Byte>)
    returns (r': seq<Byte>)
    requires ValidEntry(decls) && |r| == |left| == |root| == decls[0].size.n && 0 < k < |decls|
    requires ArrayDecl(decls[0], decls[k]) && ptr == Get(root, decls[k].place.off, 8)
    requires RestoredFrom(decls, r, left, root, k)
    ensures |r'| == |r| && RestoredFrom(decls, r', left, root, k - 1)
  {
    hide RestoredFrom, FieldsDisjoint;
    RestoreStep(decls, r, left, root, k);
    r' := Put(r, decls[k].place.off, 8, ptr);
  }

  /**
   The whole function, for any code behind the callback and whatever the counts are, as
   long as the helper's own test passes them.
   */
  method ParseAndProcess(decls: seq<Decl>, run: Native, lib: Library, payload: array<Byte>) returns (result: int)
    requires ValidEntry(decls) && ValidLibrary(decls, lib) && KeepsMapping(run)
    requires Complete(decls, payload[..]) && WithinLimits(decls, payload[..][..decls[0].size.n])
    modifies payload
    ensures (result, payload[..]) == LocalReply(decls, run, lib, old(payload[..]))
  {
    hide Get, Put, FieldsDisjoint, Flatten, Cut, ArrayDecl, Pointed, Image, RestoredFrom, Sizes, KeepPointers;
    hide WithinLimits, LocalBlocks;
    var size := decls[0].size.n;
    ghost var b := payload[..];
    ghost var root0 := payload[..size];
    assert b[..size] == root0;
    ghost var arrays := ArraysOf(decls, b);
    FlattenCut(b[size..], SizeList(decls, root0));
    var root, locals, saved := Unpack(decls, lib, payload, arrays);
    var image := Image(decls, lib, root, locals);
    ImageMapped(decls, lib, root, locals);
    StaysMapped(run, lib, image, lib.root, size, Lengths(arrays));
    var (r, m) := run(image, lib.root);
    result := r;
    var left := Read(m, lib.root, size);
    ghost var news := ReadLocals(lib, m, size, Lengths(arrays));
    assert Lengths(news) == Lengths(arrays);
    root := WriteBack(decls, payload, m, lib, left, saved, root0, arrays, news);
    RestoredAll(decls, root, left, root0);
    CopyInto(payload, 0, root);
    assert payload[..] == root + Flatten(news);
  }

  /** The sizes that pass the helper's test fit the local arrays. */
  lemma LoadedBlocks(decls: seq<Decl>, b: seq<Byte>)
    requires ModesetEntry(decls) && Complete(decls, b) && WithinLimits(decls, b[..decls[0].size.n])
    ensures LocalBlocks(decls, ArraysOf(decls, b))
  {
    hide Get, Cut, Sizes;
    var root := b[..decls[0].size.n];
    var arrays := ArraysOf(decls, b);
    forall i | 0 <= i < |arrays|
      ensures BlockFits(decls, arrays, i)
    {
      assert WithinLimit(decls, root, i + 1);
    }
  }

  /** And if the true sizes do, the arrays are the ones that the root counts. */
  lemma CountedWhenAdmitted(decls: seq<Decl>, b: seq<Byte>)
    requires ModesetEntry(decls) && Complete(decls, b) && Admitted(decls, b[..decls[0].size.n])
    ensures CountedBlocks(decls, b[..decls[0].size.n], ArraysOf(decls, b))
  {
    hide Get, Cut;
    var root := b[..decls[0].size.n];
    var arrays := ArraysOf(decls, b);
    AdmittedSizes(decls, root);
    forall i | 0 <= i < |arrays|
      ensures BlockCounted(decls, root, arrays, i)
    {
      assert Fits(decls, root, i + 1);
      assert ArrayIovs(decls, root)[i] == Described(decls, root)[i];
    }
  }
}
