/** Bytes, little-endian fields of C structs, and concatenations of byte blocks. */
module Bytes {

  type Byte = x: int | 0 <= x < 256

  const TWO_TO_THE_32: int := 0x1_0000_0000
  const TWO_TO_THE_64: int := 0x1_0000_0000_0000_0000

  type U32 = x: int | 0 <= x < 0x1_0000_0000
  type U64 = x: int | 0 <= x < 0x1_0000_0000_0000_0000

  // ----- little-endian numbers -----

  function Pow256(k: nat): (p: nat)
    ensures p > 0
  {
    if k == 0 then 1 else 256 * Pow256(k - 1)
  }

  function Decode(b: seq<Byte>): (n: nat)
    ensures n < Pow256(|b|)
  {
    if b == [] then 0 else b[0] + 256 * Decode(b[1..])
  }

  function Encode(n: nat, k: nat): (b: seq<Byte>)
    ensures |b| == k
  {
    if k == 0 then [] else [n % 256] + Encode(n / 256, k - 1)
  }

  lemma {:induction false} DecodeEncode(n: nat, k: nat)
    requires n < Pow256(k)
    ensures Decode(Encode(n, k)) == n
  {
    if k > 0 {
      DecodeEncode(n / 256, k - 1);
      assert Encode(n, k)[1..] == Encode(n / 256, k - 1);
    }
  }

  lemma {:induction false} EncodeDecode(b: seq<Byte>)
    ensures Encode(Decode(b), |b|) == b
  {
    if b != [] {
      EncodeDecode(b[1..]);
      var n := Decode(b);
      assert n % 256 == b[0] && n / 256 == Decode(b[1..]);
      assert b == [b[0]] + b[1..];
    }
  }

  lemma {:induction false} DecodeZeros(k: nat)
    ensures Decode(seq(k, _ => 0)) == 0
  {
    if k > 0 {
      DecodeZeros(k - 1);
      var z := seq(k, _ => 0);
      assert z[1..] == seq(k - 1, _ => 0);
    }
  }

  /** The first byte is the least significant one. */
  lemma LittleEndian(b: seq<Byte>)
    requires |b| == 4
    ensures Decode(b) == b[0] as int + 0x100 * b[1] as int + 0x1_0000 * b[2] as int + 0x100_0000 * b[3] as int
  {
    assert Decode(b[3..]) == b[3] by {
      assert b[3..][1..] == [];
    }
    assert b[1..][1..] == b[2..] && b[2..][1..] == b[3..];
    assert Decode(b[2..]) == b[2] + 256 * Decode(b[3..]);
    assert Decode(b[1..]) == b[1] + 256 * Decode(b[2..]);
  }

  lemma WordBounds()
    ensures Pow256(4) == TWO_TO_THE_32
    ensures Pow256(8) == TWO_TO_THE_64
  {
    assert Pow256(2) == 0x1_0000;
    assert Pow256(4) == 256 * (256 * Pow256(2));
    assert Pow256(6) == 256 * (256 * Pow256(4));
    assert Pow256(8) == 256 * (256 * Pow256(6));
  }

  // ----- struct fields: w bytes at offset off -----

  function Get(b: seq<Byte>, off: nat, w: nat): nat
    requires off + w <= |b|
  {
    Decode(b[off..off + w])
  }

  function Put(b: seq<Byte>, off: nat, w: nat, v: nat): (r: seq<Byte>)
    requires off + w <= |b|
    ensures |r| == |b|
  {
    b[..off] + Encode(v, w) + b[off + w..]
  }

  lemma GetPutSame(b: seq<Byte>, off: nat, w: nat, v: nat)
    requires off + w <= |b| && v < Pow256(w)
    ensures Get(Put(b, off, w, v), off, w) == v
  {
    assert Put(b, off, w, v)[off..off + w] == Encode(v, w);
    DecodeEncode(v, w);
  }

  lemma GetPutOther(b: seq<Byte>, off: nat, w: nat, v: nat, off': nat, w': nat)
    requires off + w <= |b| && off' + w' <= |b|
    requires off' + w' <= off || off + w <= off'
    ensures Get(Put(b, off, w, v), off', w') == Get(b, off', w')
  {
    assert Put(b, off, w, v)[off'..off' + w'] == b[off'..off' + w'];
  }

  lemma PutGet(b: seq<Byte>, off: nat, w: nat)
    requires off + w <= |b|
    ensures Put(b, off, w, Get(b, off, w)) == b
  {
    EncodeDecode(b[off..off + w]);
  }

  /** A field overwritten and then put back. */
  lemma PutBack(b: seq<Byte>, off: nat, w: nat, v: nat)
    requires off + w <= |b|
    ensures Put(Put(b, off, w, v), off, w, Get(b, off, w)) == b
  {
    EncodeDecode(b[off..off + w]);
  }

  lemma PutCommutes(b: seq<Byte>, off: nat, w: nat, v: nat, off': nat, w': nat, v': nat)
    requires off + w <= |b| && off' + w' <= |b|
    requires off' + w' <= off || off + w <= off'
    ensures Put(Put(b, off, w, v), off', w', v') == Put(Put(b, off', w', v'), off, w, v)
  {
    hide Put;
    var r, r' := Put(Put(b, off, w, v), off', w', v'), Put(Put(b, off', w', v'), off, w, v);
    forall i | 0 <= i < |b|
      ensures r[i] == r'[i]
    {
      PutAt(b, off, w, v, i);
      PutAt(Put(b, off, w, v), off', w', v', i);
      PutAt(b, off', w', v', i);
      PutAt(Put(b, off', w', v'), off, w, v, i);
    }
  }

  lemma PutAt(b: seq<Byte>, off: nat, w: nat, v: nat, i: nat)
    requires off + w <= |b| && i < |b|
    ensures Put(b, off, w, v)[i] == if off <= i < off + w then Encode(v, w)[i - off] else b[i]
  {
    hide Encode;
  }

  function Get32(b: seq<Byte>, off: nat): U32
    requires off + 4 <= |b|
  {
    WordBounds();
    Get(b, off, 4)
  }

  function Get64(b: seq<Byte>, off: nat): U64
    requires off + 8 <= |b|
  {
    WordBounds();
    Get(b, off, 8)
  }

  /** A buffer after memcpy into it. */
  function Overwritten(b: seq<Byte>, pos: nat, part: seq<Byte>): (r: seq<Byte>)
    requires pos + |part| <= |b|
    ensures |r| == |b|
  {
    b[..pos] + part + b[pos + |part|..]
  }

  /** memcpy into a buffer. */
  method CopyInto(a: array<Byte>, pos: nat, b: seq<Byte>)
    requires pos + |b| <= a.Length
    modifies a
    ensures a[..] == old(a[..pos]) + b + old(a[pos + |b|..])
  {
    forall j | 0 <= j < |b| {
      a[pos + j] := b[j];
    }
  }

  // ----- concatenation of blocks -----

  function Flatten(parts: seq<seq<Byte>>): seq<Byte>
  {
    if parts == [] then [] else parts[0] + Flatten(parts[1..])
  }

  /** Offset of block i in the concatenation: the prefix sum of the block lengths. */
  function Offset(parts: seq<seq<Byte>>, i: nat): nat
    requires i <= |parts|
  {
    if i == 0 then 0 else |parts[0]| + Offset(parts[1..], i - 1)
  }

  lemma FirstPart(parts: seq<seq<Byte>>)
    ensures parts == [] ==> Flatten(parts) == []
    ensures parts != [] ==> Flatten(parts) == parts[0] + Flatten(parts[1..])
  {
  }

  lemma {:induction false} FlattenAppend(p: seq<seq<Byte>>, q: seq<seq<Byte>>)
    ensures Flatten(p + q) == Flatten(p) + Flatten(q)
    decreases |p|
  {
    hide Flatten;
    FirstPart(p);
    if p == [] {
      assert p + q == q;
    } else {
      FlattenAppend(p[1..], q);
      FirstPart(p + q);
      assert (p + q)[1..] == p[1..] + q;
      Reassociate(p[0], Flatten(p[1..]), Flatten(q));
    }
  }

  lemma Reassociate(a: seq<Byte>, b: seq<Byte>, c: seq<Byte>)
    ensures a + (b + c) == a + b + c
  {
  }

  /** Block i occupies exactly the bytes from its offset on. */
  lemma {:induction false} FlattenSlice(parts: seq<seq<Byte>>, i: nat)
    requires i < |parts|
    ensures Offset(parts, i) + |parts[i]| == Offset(parts, i + 1) <= |Flatten(parts)|
    ensures Flatten(parts)[Offset(parts, i)..Offset(parts, i) + |parts[i]|] == parts[i]
  {
    hide Flatten;
    FirstPart(parts);
    if i > 0 {
      FlattenSlice(parts[1..], i - 1);
      SliceBehind(parts[0], Flatten(parts[1..]), Offset(parts[1..], i - 1), |parts[i]|);
    }
  }

  lemma SliceBehind(a: seq<Byte>, rest: seq<Byte>, o: nat, n: nat)
    requires o + n <= |rest|
    ensures (a + rest)[|a| + o..|a| + o + n] == rest[o..o + n]
  {
  }

  lemma {:induction false} FlattenLength(parts: seq<seq<Byte>>)
    ensures |Flatten(parts)| == Offset(parts, |parts|)
  {
    if parts != [] {
      FlattenLength(parts[1..]);
    }
  }

  /** Blocks of one common size w sit at multiples of w. */
  lemma {:induction false} OffsetUniform(parts: seq<seq<Byte>>, w: nat, i: nat)
    requires i <= |parts|
    requires forall p | p in parts :: |p| == w
    ensures Offset(parts, i) == w * i
  {
    if i > 0 {
      OffsetUniform(parts[1..], w, i - 1);
      assert w * i == w + w * (i - 1);
    }
  }

  /** Element i of an array of w-byte elements. */
  lemma FlattenElement(parts: seq<seq<Byte>>, w: nat, i: nat)
    requires i < |parts| && forall p | p in parts :: |p| == w
    ensures w * i + w <= |Flatten(parts)| == w * |parts|
    ensures Flatten(parts)[w * i..w * i + w] == parts[i]
  {
    OffsetUniform(parts, w, i);
    OffsetUniform(parts, w, |parts|);
    FlattenSlice(parts, i);
    FlattenLength(parts);
  }

  /** Cuts an array of w-byte elements into its elements. */
  function Split(b: seq<Byte>, w: nat): (parts: seq<seq<Byte>>)
    requires w > 0
    ensures forall p | p in parts :: |p| == w
  {
    if |b| < w then [] else [b[..w]] + Split(b[w..], w)
  }

  lemma OneLess(w: nat, n: nat)
    requires n > 0
    ensures w * n - w == w * (n - 1) >= 0
  {
  }

  lemma {:induction false} SplitCount(b: seq<Byte>, w: nat, n: nat)
    requires w > 0 && |b| == w * n
    ensures |Split(b, w)| == n
  {
    if n > 0 {
      OneLess(w, n);
      SplitCount(b[w..], w, n - 1);
    }
  }

  lemma {:induction false} SplitElement(b: seq<Byte>, w: nat, i: nat)
    requires w > 0 && i < |Split(b, w)|
    ensures 0 <= w * i && w * i + w <= |b| && Split(b, w)[i] == b[w * i..w * i + w]
  {
    if i > 0 {
      SplitElement(b[w..], w, i - 1);
      OneLess(w, i);
      SliceOfRest(b, w, w * (i - 1), w);
    }
  }

  lemma SliceOfRest(b: seq<Byte>, k: nat, off: nat, n: nat)
    requires k + off + n <= |b|
    ensures b[k..][off..off + n] == b[k + off..k + off + n]
  {
  }

  lemma {:induction false} FlattenSplit(b: seq<Byte>, w: nat, n: nat)
    requires w > 0 && |b| == w * n
    ensures Flatten(Split(b, w)) == b
  {
    if n > 0 {
      OneLess(w, n);
      FlattenSplit(b[w..], w, n - 1);
    }
  }

  lemma {:induction false} SplitFlatten(parts: seq<seq<Byte>>, w: nat)
    requires w > 0 && forall p | p in parts :: |p| == w
    ensures Split(Flatten(parts), w) == parts
  {
    if parts != [] {
      SplitFlatten(parts[1..], w);
      assert Flatten(parts)[..w] == parts[0];
      assert Flatten(parts)[w..] == Flatten(parts[1..]);
    }
  }

  function Zeros(n: nat): (b: seq<Byte>)
    ensures |b| == n
    ensures forall i | 0 <= i < n :: b[i] == 0
  {
    seq(n, i => 0)
  }

  // ----- blocks of given lengths -----

  function Lengths(parts: seq<seq<Byte>>): (lens: seq<nat>)
    ensures |lens| == |parts|
  {
    seq(|parts|, i requires 0 <= i < |parts| => |parts[i]|)
  }

  function Sum(lens: seq<nat>): nat
  {
    if lens == [] then 0 else lens[0] + Sum(lens[1..])
  }

  function Cut(b: seq<Byte>, lens: seq<nat>): (parts: seq<seq<Byte>>)
    requires |b| == Sum(lens)
    ensures |parts| == |lens|
    ensures forall i | 0 <= i < |parts| :: |parts[i]| == lens[i]
  {
    if lens == [] then [] else [b[..lens[0]]] + Cut(b[lens[0]..], lens[1..])
  }

  lemma {:induction false} FlattenCut(b: seq<Byte>, lens: seq<nat>)
    requires |b| == Sum(lens)
    ensures Flatten(Cut(b, lens)) == b
  {
    if lens != [] {
      FlattenCut(b[lens[0]..], lens[1..]);
    }
  }

  lemma {:induction false} CutFlatten(parts: seq<seq<Byte>>)
    ensures |Flatten(parts)| == Sum(Lengths(parts))
    ensures Cut(Flatten(parts), Lengths(parts)) == parts
  {
    if parts != [] {
      CutFlatten(parts[1..]);
      assert Lengths(parts)[1..] == Lengths(parts[1..]);
      assert Flatten(parts)[..|parts[0]|] == parts[0];
      assert Flatten(parts)[|parts[0]|..] == Flatten(parts[1..]);
    }
  }
}
