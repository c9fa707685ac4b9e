/**
 What a modeset ioctl comes to, byte by byte: what the callback is shown of client memory,
 and where each byte that it stores is found by the client.
 */
module ModesetAnswer {
  import opened Bytes
  import opened Memory
  import opened Kernel
  import opened IoctlTable
  import opened Modeset
  import opened ModesetRun

  /** Where the client's array i lies. */
  function ArrayAt(decls: seq<Decl>, root: seq<Byte>, i: nat): nat
    requires ModesetEntry(decls) && 0 < i < |decls| && |root| == decls[0].size.n
  {
    Get(root, decls[i].place.off, 8)
  }

  predicate OutsidePointers(decls: seq<Decl>, j: nat)
    requires ModesetEntry(decls)
  {
    forall i | 0 < i < |decls| :: !(decls[i].place.off <= j < decls[i].place.off + 8)
  }

  predicate ShownAt(decls: seq<Decl>, m: Mem, root: seq<Byte>, arrays: seq<seq<Byte>>, i: nat)
    requires ModesetEntry(decls) && 0 < i < |decls| == |arrays| + 1 && |root| == decls[0].size.n
  {
    && Mapped(m, ArrayAt(decls, root, i), TrueSize(decls, root, i))
    && arrays[i - 1] == Read(m, ArrayAt(decls, root, i), TrueSize(decls, root, i))
  }

  /** The client's struct with zeros for its pointers, and the arrays at its pointers. */
  ghost predicate Shown(decls: seq<Decl>, m: Mem, root: seq<Byte>, view: View)
    requires ModesetEntry(decls) && |root| == decls[0].size.n
  {
    && |view.root| == |root| && |view.arrays| == |decls| - 1
    && (forall j | 0 <= j < |root| :: view.root[j] == if OutsidePointers(decls, j) then root[j] else 0)
    && (forall i | 0 < i < |decls| :: ShownAt(decls, m, root, view.arrays, i))
  }

  predicate ArraysApart(decls: seq<Decl>, root: seq<Byte>)
    requires ModesetEntry(decls) && |root| == decls[0].size.n
  {
    forall i, j | 0 < i < j < |decls| ::
      Apart(ArrayAt(decls, root, i), TrueSize(decls, root, i), ArrayAt(decls, root, j), TrueSize(decls, root, j))
  }

  /** Every stored byte of the struct is there, up to its size; the pointers are the client's. */
  predicate RootAnswered(decls: seq<Decl>, root: seq<Byte>, m: Mem, a: int, stored: seq<Byte>)
    requires ModesetEntry(decls) && |root| == decls[0].size.n
  {
    forall j | 0 <= j < |root| ::
      a + j in m && m[a + j] == if OutsidePointers(decls, j) && j < |stored| then stored[j] else root[j]
  }

  predicate ByteAnswered(m: Mem, m': Mem, p: int, stored: seq<Byte>, k: nat)
    requires p + k in m
  {
    p + k in m' && m'[p + k] == if k < |stored| then stored[k] else m[p + k]
  }

  /** Every stored byte of an array is there, up to its size; behind them the array is as it was. */
  predicate ArrayAnswered(m: Mem, m': Mem, p: int, size: nat, stored: seq<Byte>)
    requires Mapped(m, p, size)
  {
    forall k | 0 <= k < size :: ByteAnswered(m, m', p, stored, k)
  }

  predicate AtArray(decls: seq<Decl>, root: seq<Byte>, i: nat, x: int)
    requires ModesetEntry(decls) && 0 < i < |decls| && |root| == decls[0].size.n
  {
    ArrayAt(decls, root, i) <= x < ArrayAt(decls, root, i) + TrueSize(decls, root, i)
  }

  // ----- blocks in memory -----

  lemma {:induction false} BlocksFrame(m: Mem, at: seq<int>, blocks: seq<seq<Byte>>, x: int)
    requires |at| == |blocks| && x in m
    requires forall i | 0 <= i < |at| :: !(at[i] <= x < at[i] + |blocks[i]|)
    ensures x in WriteBlocks(m, at, blocks) && WriteBlocks(m, at, blocks)[x] == m[x]
    decreases |at|
  {
    if at != [] {
      hide Write;
      assert forall i | 0 <= i < |at[1..]| :: at[1..][i] == at[i + 1] && blocks[1..][i] == blocks[i + 1];
      assert !(at[0] <= x < at[0] + |blocks[0]|);
      BlocksFrame(Write(m, at[0], blocks[0]), at[1..], blocks[1..], x);
    }
  }

  lemma {:induction false} BlocksDomain(m: Mem, at: seq<int>, blocks: seq<seq<Byte>>)
    requires |at| == |blocks| && forall i | 0 <= i < |at| :: Mapped(m, at[i], |blocks[i]|)
    ensures WriteBlocks(m, at, blocks).Keys == m.Keys
    decreases |at|
  {
    if at != [] {
      hide Write;
      var m1 := Write(m, at[0], blocks[0]);
      assert Mapped(m, at[0], |blocks[0]|);
      assert m1.Keys == m.Keys;
      forall i | 0 <= i < |at[1..]|
        ensures Mapped(m1, at[1..][i], |blocks[1..][i]|)
      {
        assert Mapped(m, at[i + 1], |blocks[i + 1]|);
      }
      BlocksDomain(m1, at[1..], blocks[1..]);
    }
  }

  // ----- the callback, run directly -----

  lemma ShownIsView(decls: seq<Decl>, m: Mem, root: seq<Byte>, view: View)
    requires ModesetEntry(decls) && |root| == decls[0].size.n && Shown(decls, m, root, view)
    ensures AllMapped(m, Described(decls, root))
    ensures view == View(Blank(decls, root), Pieces(m, Described(decls, root)))
  {
    hide Get, TrueSize, ArrayDecl;
    var v := Described(decls, root);
    forall i | 0 <= i < |v|
      ensures Mapped(m, v[i].base, v[i].len) && Read(m, v[i].base, v[i].len) == view.arrays[i]
    {
      assert ShownAt(decls, m, root, view.arrays, i + 1);
    }
    forall j | 0 <= j < |root|
      ensures OutsidePointers(decls, j) <==> !InPointer(decls, j)
    {
    }
    assert Blank(decls, root) == view.root;
    assert Pieces(m, v) == view.arrays;
  }

  lemma NewRootAt(decls: seq<Decl>, root: seq<Byte>, e: Effect, j: nat)
    requires ModesetEntry(decls) && |root| == decls[0].size.n && j < |root|
    ensures NewRoot(decls, root, e)[j] == if OutsidePointers(decls, j) && j < |e.root| then e.root[j] else root[j]
  {
    hide ArrayDecl;
    assert OutsidePointers(decls, j) <==> !InPointer(decls, j);
  }

  lemma NewArrayAt(arrays: seq<seq<Byte>>, e: Effect, i: nat, k: nat)
    requires i < |arrays| && k < |arrays[i]|
    ensures NewArrays(arrays, e)[i][k] ==
      if i < |e.arrays| && k < |e.arrays[i]| then e.arrays[i][k] else arrays[i][k]
  {
  }

  /** What the callback has left when it is run on client memory. */
  ghost predicate Answered(decls: seq<Decl>, m: Mem, a: int, root: seq<Byte>, e: Effect, m': Mem)
    requires ModesetEntry(decls) && |root| == decls[0].size.n
    requires forall i | 0 < i < |decls| :: Mapped(m, ArrayAt(decls, root, i), TrueSize(decls, root, i))
  {
    && m'.Keys == m.Keys
    && RootAnswered(decls, root, m', a, e.root)
    && (ArraysApart(decls, root) ==> forall i | 0 < i < |decls| ::
          ArrayAnswered(m, m', ArrayAt(decls, root, i), TrueSize(decls, root, i),
                        if i - 1 < |e.arrays| then e.arrays[i - 1] else []))
    && (forall x | x in m && !(a <= x < a + |root|) && (forall i | 0 < i < |decls| :: !AtArray(decls, root, i, x)) ::
          m'[x] == m[x])
  }

  lemma ArrayLengths(decls: seq<Decl>, m: Mem, root: seq<Byte>, view: View, i: nat)
    requires ModesetEntry(decls) && |root| == decls[0].size.n && Shown(decls, m, root, view) && 0 < i < |decls|
    ensures var v := Described(decls, root);
      && v[i - 1] == Iov(ArrayAt(decls, root, i), TrueSize(decls, root, i))
      && v[i - 1] in v
      && |view.arrays[i - 1]| == TrueSize(decls, root, i)
      && Mapped(m, ArrayAt(decls, root, i), TrueSize(decls, root, i))
  {
    hide Get, TrueSize, ArrayDecl;
    assert ShownAt(decls, m, root, view.arrays, i);
  }

  lemma DirectRoot(decls: seq<Decl>, root: seq<Byte>, e: Effect, m1: Mem, a: int)
    requires ModesetEntry(decls) && |root| == decls[0].size.n
    ensures RootAnswered(decls, root, Write(m1, a, NewRoot(decls, root, e)), a, e.root)
  {
    hide Write, NewRoot, OutsidePointers, ArrayDecl;
    var b := NewRoot(decls, root, e);
    var m' := Write(m1, a, b);
    forall j | 0 <= j < |root|
      ensures a + j in m' && m'[a + j] == if OutsidePointers(decls, j) && j < |e.root| then e.root[j] else root[j]
    {
      NewRootAt(decls, root, e, j);
      assert m'[a + j] == b[j];
    }
  }

  lemma DirectArray(decls: seq<Decl>, m: Mem, a: int, root: seq<Byte>, view: View, e: Effect, i: nat)
    requires ModesetEntry(decls) && |root| == decls[0].size.n && Shown(decls, m, root, view) && 0 < i < |decls|
    requires RootApart(decls, a, root) && ArraysApart(decls, root)
    ensures Mapped(m, ArrayAt(decls, root, i), TrueSize(decls, root, i))
    ensures
      var m1 := WriteBlocks(m, Bases(Described(decls, root)), NewArrays(view.arrays, e));
      ArrayAnswered(m, Write(m1, a, NewRoot(decls, root, e)), ArrayAt(decls, root, i), TrueSize(decls, root, i),
                    if i - 1 < |e.arrays| then e.arrays[i - 1] else [])
  {
    hide Write, WriteBlocks, NewRoot, NewArrays, Described, TrueSize, ArrayAt, OutsidePointers, ArrayDecl, Mapped, Read;
    var v, news := Described(decls, root), NewArrays(view.arrays, e);
    var at := Bases(v);
    forall k: nat | k < |v|
      ensures v[k] == Iov(ArrayAt(decls, root, k + 1), TrueSize(decls, root, k + 1)) && |news[k]| == v[k].len
    {
      ArrayLengths(decls, m, root, view, k + 1);
    }
    assert BlocksApart(at, news);
    var p, size := ArrayAt(decls, root, i), TrueSize(decls, root, i);
    ArrayLengths(decls, m, root, view, i);
    assert ShownAt(decls, m, root, view.arrays, i);
    ReadBlock(m, at, news, i - 1);
    var m1 := WriteBlocks(m, at, news);
    var b := NewRoot(decls, root, e);
    assert Apart(a, |b|, p, size);
    ReadApart(m1, a, b, p, size);
    ArrayByBytes(m, Write(m1, a, b), p, size, view.arrays, e, i - 1);
  }

  lemma ArrayByBytes(m: Mem, m': Mem, p: int, size: nat, arrays: seq<seq<Byte>>, e: Effect, i: nat)
    requires i < |arrays| && |arrays[i]| == size && Mapped(m, p, size) && Read(m, p, size) == arrays[i]
    requires Mapped(m', p, size) && Read(m', p, size) == NewArrays(arrays, e)[i]
    ensures ArrayAnswered(m, m', p, size, if i < |e.arrays| then e.arrays[i] else [])
  {
    hide NewArrays;
    var stored := if i < |e.arrays| then e.arrays[i] else [];
    forall k | 0 <= k < size
      ensures ByteAnswered(m, m', p, stored, k)
    {
      NewArrayAt(arrays, e, i, k);
      assert m'[p + k] == Read(m', p, size)[k];
      assert m[p + k] == arrays[i][k];
    }
  }

  lemma DirectFrame(decls: seq<Decl>, m: Mem, a: int, root: seq<Byte>, view: View, e: Effect, x: int)
    requires ModesetEntry(decls) && |root| == decls[0].size.n && Shown(decls, m, root, view) && Mapped(m, a, |root|)
    requires x in m
    ensures
      var m1 := WriteBlocks(m, Bases(Described(decls, root)), NewArrays(view.arrays, e));
      var m' := Write(m1, a, NewRoot(decls, root, e));
      && m'.Keys == m.Keys
      && (!(a <= x < a + |root|) && (forall i | 0 < i < |decls| :: !AtArray(decls, root, i, x)) ==> m'[x] == m[x])
  {
    hide Write, WriteBlocks, NewRoot, NewArrays, Described, TrueSize, ArrayAt, OutsidePointers, ArrayDecl;
    var v, news := Described(decls, root), NewArrays(view.arrays, e);
    var at := Bases(v);
    forall k: nat | k < |v|
      ensures at[k] == ArrayAt(decls, root, k + 1) && |news[k]| == TrueSize(decls, root, k + 1)
      ensures Mapped(m, at[k], |news[k]|)
    {
      ArrayLengths(decls, m, root, view, k + 1);
    }
    BlocksDomain(m, at, news);
    if forall i | 0 < i < |decls| :: !AtArray(decls, root, i, x) {
      forall k | 0 <= k < |at|
        ensures !(at[k] <= x < at[k] + |news[k]|)
      {
        assert !AtArray(decls, root, k + 1, x);
      }
      BlocksFrame(m, at, news, x);
    }
    var m1 := WriteBlocks(m, at, news);
    assert Write(m1, a, NewRoot(decls, root, e)).Keys == m.Keys;
  }

  lemma ShownMapped(decls: seq<Decl>, m: Mem, root: seq<Byte>, view: View)
    requires ModesetEntry(decls) && |root| == decls[0].size.n && Shown(decls, m, root, view)
    ensures forall i | 0 < i < |decls| :: Mapped(m, ArrayAt(decls, root, i), TrueSize(decls, root, i))
  {
    forall i: nat | 0 < i < |decls|
      ensures Mapped(m, ArrayAt(decls, root, i), TrueSize(decls, root, i))
    {
      assert ShownAt(decls, m, root, view.arrays, i);
    }
  }

  lemma DirectAnswer(decls: seq<Decl>, cb: Callback, m: Mem, a: int, view: View)
    requires ModesetEntry(decls) && Mapped(m, a, decls[0].size.n)
    requires var root := Read(m, a, decls[0].size.n); RootApart(decls, a, root) && Shown(decls, m, root, view)
    ensures var root := Read(m, a, decls[0].size.n);
      && (forall i | 0 < i < |decls| :: Mapped(m, ArrayAt(decls, root, i), TrueSize(decls, root, i)))
      && RunCallback(decls, cb, m, a).0 == cb(view).result
      && Answered(decls, m, a, root, cb(view), RunCallback(decls, cb, m, a).1)
  {
    hide Write, WriteBlocks, NewRoot, NewArrays, Described, TrueSize, ArrayAt, OutsidePointers, ArrayDecl;
    hide ShownAt, RootApart, ArraysApart, RootAnswered, ArrayAnswered, AtArray, Blank;
    var root := Read(m, a, decls[0].size.n);
    var e := cb(view);
    ShownIsView(decls, m, root, view);
    ShownMapped(decls, m, root, view);
    var m1 := WriteBlocks(m, Bases(Described(decls, root)), NewArrays(view.arrays, e));
    var m' := Write(m1, a, NewRoot(decls, root, e));
    assert RunCallback(decls, cb, m, a) == (e.result, m');
    DirectRoot(decls, root, e, m1, a);
    if ArraysApart(decls, root) {
      forall i: nat | 0 < i < |decls|
        ensures ArrayAnswered(m, m', ArrayAt(decls, root, i), TrueSize(decls, root, i),
                              if i - 1 < |e.arrays| then e.arrays[i - 1] else [])
      {
        DirectArray(decls, m, a, root, view, e, i);
      }
    }
    forall x | x in m
      ensures m'.Keys == m.Keys
      ensures !(a <= x < a + |root|) && (forall i | 0 < i < |decls| :: !AtArray(decls, root, i, x)) ==> m'[x] == m[x]
    {
      DirectFrame(decls, m, a, root, view, e, x);
    }
    assert a in m;
  }

  /**
   The whole way.  Under the conditions of transparency the callback is shown the client's
   struct without its pointers and the client's arrays; its result is the client's; every byte
   it stores within a buffer is in the client's own buffer, and nothing else has changed.
   */
  lemma AnswerReachesClient(decls: seq<Decl>, cb: Callback, m: Mem, a: int, view: View)
    requires ModesetEntry(decls) && Mapped(m, a, decls[0].size.n)
    requires var root := Read(m, a, decls[0].size.n);
      && Admitted(decls, root) && Answerable(decls, root) && RootApart(decls, a, root)
      && Shown(decls, m, root, view)
    ensures var root := Read(m, a, decls[0].size.n); var s := Run(decls, cb, true, m, a, 3);
      && (forall i | 0 < i < |decls| :: Mapped(m, ArrayAt(decls, root, i), TrueSize(decls, root, i)))
      && s.Done? && s.result == cb(view).result
      && Answered(decls, m, a, root, cb(view), s.mem)
  {
    hide Run, RunCallback, Answered, Shown, Admitted, Answerable, RootApart, ArrayDecl;
    Transparent(decls, cb, m, a);
    DirectAnswer(decls, cb, m, a, view);
  }
}
