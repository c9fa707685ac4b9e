/** An address space: the mapped addresses with their bytes. */
module Memory {
  import opened Bytes

  type Mem = map<int, Byte>

  predicate Mapped(m: Mem, a: int, n: nat)
  {
    forall i | a <= i < a + n :: i in m
  }

  function Read(m: Mem, a: int, n: nat): (b: seq<Byte>)
    requires Mapped(m, a, n)
    ensures |b| == n
    ensures forall i | 0 <= i < n :: b[i] == m[a + i]
  {
    seq(n, i requires 0 <= i < n => m[a + i])
  }

  function Write(m: Mem, a: int, b: seq<Byte>): (w: Mem)
    ensures forall i :: i in w <==> i in m || a <= i < a + |b|
    ensures forall i | i in w :: w[i] == if a <= i < a + |b| then b[i - a] else m[i]
    decreases |b|
  {
    if b == [] then m else Write(m[a := b[0]], a + 1, b[1..])
  }

  predicate Apart(a: int, n: nat, a': int, n': nat)
  {
    a + n <= a' || a' + n' <= a
  }

  lemma ReadWritten(m: Mem, a: int, b: seq<Byte>)
    ensures Mapped(Write(m, a, b), a, |b|)
    ensures Read(Write(m, a, b), a, |b|) == b
  {
  }

  /** A read apart from the written range does not see the write. */
  lemma ReadApart(m: Mem, a: int, b: seq<Byte>, a': int, n: nat)
    requires Mapped(m, a', n) && Apart(a, |b|, a', n)
    ensures Mapped(Write(m, a, b), a', n)
    ensures Read(Write(m, a, b), a', n) == Read(m, a', n)
  {
    var w := Write(m, a, b);
    forall i | a' <= i < a' + n
      ensures i in w && w[i] == m[i]
    {
    }
    assert Mapped(w, a', n);
  }

  lemma WriteRead(m: Mem, a: int, n: nat)
    requires Mapped(m, a, n)
    ensures Write(m, a, Read(m, a, n)) == m
  {
  }

  lemma ReadPrefix(m: Mem, a: int, n: nat, off: nat, k: nat)
    requires Mapped(m, a, n) && off + k <= n
    ensures Mapped(m, a + off, k)
    ensures Read(m, a + off, k) == Read(m, a, n)[off..off + k]
  {
    forall i | a + off <= i < a + off + k
      ensures i in m
    {
    }
  }

  // ----- several writes -----

  function WriteBlocks(m: Mem, at: seq<int>, blocks: seq<seq<Byte>>): Mem
    requires |at| == |blocks|
    decreases |at|
  {
    if at == [] then m else WriteBlocks(Write(m, at[0], blocks[0]), at[1..], blocks[1..])
  }

  predicate ApartFromAll(a: int, n: nat, at: seq<int>, blocks: seq<seq<Byte>>)
    requires |at| == |blocks|
  {
    forall i | 0 <= i < |at| :: Apart(a, n, at[i], |blocks[i]|)
  }

  lemma {:induction false} ReadApartBlocks(m: Mem, at: seq<int>, blocks: seq<seq<Byte>>, a: int, n: nat)
    requires |at| == |blocks| && Mapped(m, a, n) && ApartFromAll(a, n, at, blocks)
    ensures Mapped(WriteBlocks(m, at, blocks), a, n)
    ensures Read(WriteBlocks(m, at, blocks), a, n) == Read(m, a, n)
    decreases |at|
  {
    if at != [] {
      assert Apart(a, n, at[0], |blocks[0]|);
      ReadApart(m, at[0], blocks[0], a, n);
      assert forall i | 0 <= i < |at[1..]| :: at[1..][i] == at[i + 1] && blocks[1..][i] == blocks[i + 1];
      ReadApartBlocks(Write(m, at[0], blocks[0]), at[1..], blocks[1..], a, n);
    }
  }

  predicate BlocksApart(at: seq<int>, blocks: seq<seq<Byte>>)
    requires |at| == |blocks|
  {
    forall i, j | 0 <= i < j < |at| :: Apart(at[i], |blocks[i]|, at[j], |blocks[j]|)
  }

  /** Blocks written apart from each other can all be read back. */
  lemma {:induction false} ReadBlock(m: Mem, at: seq<int>, blocks: seq<seq<Byte>>, i: nat)
    requires |at| == |blocks| && BlocksApart(at, blocks) && i < |at|
    ensures Mapped(WriteBlocks(m, at, blocks), at[i], |blocks[i]|)
    ensures Read(WriteBlocks(m, at, blocks), at[i], |blocks[i]|) == blocks[i]
    decreases |at|
  {
    var m1 := Write(m, at[0], blocks[0]);
    assert forall k | 0 <= k < |at[1..]| :: at[1..][k] == at[k + 1] && blocks[1..][k] == blocks[k + 1];
    if i == 0 {
      ReadWritten(m, at[0], blocks[0]);
      assert forall k | 0 < k < |at| :: Apart(at[0], |blocks[0]|, at[k], |blocks[k]|);
      ReadApartBlocks(m1, at[1..], blocks[1..], at[0], |blocks[0]|);
    } else {
      ReadBlock(m1, at[1..], blocks[1..], i - 1);
    }
  }

  lemma WritesCommute(m: Mem, a: int, b: seq<Byte>, a': int, b': seq<Byte>)
    requires Apart(a, |b|, a', |b'|)
    ensures Write(Write(m, a, b), a', b') == Write(Write(m, a', b'), a, b)
  {
  }

  lemma {:induction false} WriteBeforeBlocks(m: Mem, a: int, b: seq<Byte>, at: seq<int>, blocks: seq<seq<Byte>>)
    requires |at| == |blocks| && ApartFromAll(a, |b|, at, blocks)
    ensures WriteBlocks(Write(m, a, b), at, blocks) == Write(WriteBlocks(m, at, blocks), a, b)
    decreases |at|
  {
    if at != [] {
      assert Apart(a, |b|, at[0], |blocks[0]|);
      WritesCommute(m, a, b, at[0], blocks[0]);
      assert forall i | 0 <= i < |at[1..]| :: at[1..][i] == at[i + 1] && blocks[1..][i] == blocks[i + 1];
      WriteBeforeBlocks(Write(m, at[0], blocks[0]), a, b, at[1..], blocks[1..]);
    }
  }
}
