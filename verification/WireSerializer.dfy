/**
 serialize.c: every routine writes what fits and returns how many bytes the whole
 encoding takes.  The array models the memory around the buffer, so that a write past
 the buffer's bufSz bytes can be seen.  The remaining size is a signed int.
 */
module WireSerializer {
  import opened Bytes
  import opened Wire

  /** The comparison with sizeof is unsigned, so a negative remaining size does not count as too small. */
  predicate TooSmall(bufSz: int)
  {
    0 <= bufSz < 4
  }

  method SerializeU32(n: U32, mem: array<Byte>, pos: nat, bufSz: int) returns (r: nat)
    requires TooSmall(bufSz) || pos + 4 <= mem.Length
    modifies mem
    ensures r == 4
    ensures mem[..] == if TooSmall(bufSz) then old(mem[..]) else Overwritten(old(mem[..]), pos, Big32(n))
  {
    hide ShiftRight, Big32;
    if !TooSmall(bufSz) {
      for i := 0 to 4
        invariant forall k | 0 <= k < mem.Length ::
          mem[k] == if pos <= k < pos + i then Big32(n)[k - pos] else old(mem[k])
      {
        mem[pos + i] := ShiftRight(n, 3 - i) % 256;
        BigDigit(n, i);
      }
      assert mem[..] == Overwritten(old(mem[..]), pos, Big32(n));
    }
    r := 4;
  }

  lemma BigDigit(n: U32, i: nat)
    requires i < 4
    ensures Big32(n)[i] == ShiftRight(n, 3 - i) % 256
  {
    assert ShiftRight(n, 0) == n;
  }

  /** The loop stops at the end of the string or of the buffer, and never starts when nothing is left. */
  method SerializeString(s: seq<Byte>, mem: array<Byte>, pos: nat, bufSz: int) returns (r: nat)
    requires NulFree(s) && (bufSz > 0 ==> pos + bufSz <= mem.Length)
    modifies mem
    ensures r == |StringBytes(s)|
    ensures forall j | 0 <= j < mem.Length && (j < pos || pos + bufSz <= j) :: mem[j] == old(mem[j])
    ensures r <= bufSz ==> mem[pos..pos + r] == StringBytes(s)
  {
    r := |s| + 1;
    var i, left := 0, bufSz;
    var bytes := StringBytes(s);
    while left > 0
      invariant i <= |s| && left == bufSz - i && (bufSz > 0 ==> i <= bufSz)
      invariant bufSz > 0 ==> mem[pos..pos + i] == bytes[..i]
      invariant forall j | 0 <= j < mem.Length && (j < pos || pos + bufSz <= j) :: mem[j] == old(mem[j])
      decreases left
    {
      mem[pos + i] := bytes[i];
      assert mem[pos..pos + i + 1] == bytes[..i + 1];
      NulIsLast(s, i);
      if bytes[i] == 0 {
        break;
      }
      i := i + 1;
      left := left - 1;
    }
    assert r <= bufSz ==> bytes[..r] == bytes;
  }

  lemma NulIsLast(s: seq<Byte>, i: nat)
    requires NulFree(s) && i <= |s|
    ensures StringBytes(s)[i] == 0 <==> i == |s|
  {
    if i < |s| {
      assert s[i] in s;
    }
  }

  // ----- sizes -----

  lemma StringsBytesFirst(argv: seq<seq<Byte>>)
    requires argv != []
    ensures StringsBytes(argv) == StringBytes(argv[0]) + StringsBytes(argv[1..])
  {
  }

  lemma {:induction false} StringsBytesAppend(p: seq<seq<Byte>>, q: seq<seq<Byte>>)
    ensures StringsBytes(p + q) == StringsBytes(p) + StringsBytes(q)
  {
    hide StringBytes, StringsBytes;
    if p == [] {
      assert p + q == q;
      NoStrings();
    } else {
      StringsBytesAppend(p[1..], q);
      assert (p + q)[0] == p[0] && (p + q)[1..] == p[1..] + q;
      StringsBytesFirst(p);
      StringsBytesFirst(p + q);
      calc {
        StringsBytes(p + q);
        StringBytes(p[0]) + StringsBytes(p[1..] + q);
        StringBytes(p[0]) + (StringsBytes(p[1..]) + StringsBytes(q));
        StringBytes(p[0]) + StringsBytes(p[1..]) + StringsBytes(q);
      }
    }
  }

  lemma StringsBytesUpTo(argv: seq<seq<Byte>>, i: nat)
    requires i < |argv|
    ensures StringsBytes(argv[..i + 1]) == StringsBytes(argv[..i]) + StringBytes(argv[i])
    ensures |StringsBytes(argv[..i + 1])| <= |StringsBytes(argv)|
  {
    hide StringsBytes;
    StringsBytesAppend(argv[..i], [argv[i]]);
    OneString(argv[i]);
    assert argv[..i] + [argv[i]] == argv[..i + 1];
    StringsBytesAppend(argv[..i + 1], argv[i + 1..]);
    assert argv[..i + 1] + argv[i + 1..] == argv;
  }

  lemma OneString(s: seq<Byte>)
    ensures StringsBytes([s]) == StringBytes(s)
  {
    assert [s][1..] == [];
  }

  /** The strings after the count: what fits of them is there, and nothing lands behind the buffer. */
  method SerializeStrings(argv: seq<seq<Byte>>, mem: array<Byte>, pos: nat, bufSz: int) returns (r: nat)
    requires AllNulFree(argv) && pos <= mem.Length && pos + bufSz <= mem.Length
    modifies mem
    ensures r == |StringsBytes(argv)|
    ensures mem[..pos] == old(mem[..pos])
    ensures forall j | pos + bufSz <= j < mem.Length && pos <= j :: mem[j] == old(mem[j])
    ensures r <= bufSz ==> mem[pos..pos + r] == StringsBytes(argv)
  {
    hide StringsBytes, StringBytes;
    r := 0;
    assert argv[..0] == [];
    NoStrings();
    for i := 0 to |argv|
      invariant r == |StringsBytes(argv[..i])|
      invariant mem[..pos] == old(mem[..pos])
      invariant forall j | pos + bufSz <= j < mem.Length && pos <= j :: mem[j] == old(mem[j])
      invariant r <= bufSz ==> mem[pos..pos + r] == StringsBytes(argv[..i])
    {
      assert argv[i] in argv;
      StringsBytesUpTo(argv, i);
      ghost var before, at := mem[..], r;
      var k := SerializeString(argv[i], mem, pos + r, bufSz - r);
      r := r + k;
      if r <= bufSz {
        assert mem[pos..pos + at] == before[pos..pos + at];
        assert mem[pos..pos + r] == mem[pos..pos + at] + mem[pos + at..pos + r];
      }
    }
    assert argv[..|argv|] == argv;
  }

  lemma NoStrings()
    ensures StringsBytes([]) == []
  {
  }

  method SerializeArgv(argv: seq<seq<Byte>>, mem: array<Byte>, pos: nat, bufSz: int) returns (r: nat)
    requires AllNulFree(argv) && |argv| < TWO_TO_THE_32
    requires pos + 4 <= mem.Length && pos + bufSz <= mem.Length
    modifies mem
    ensures r == |ArgvBytes(argv)|
    ensures mem[..pos] == old(mem[..pos])
    ensures r <= bufSz ==> mem[pos..pos + r] == ArgvBytes(argv)
    ensures forall j | pos <= j < mem.Length && pos + bufSz <= j ::
      mem[j] == if bufSz < 0 && j < pos + 4 then Big32(|argv|)[j - pos] else old(mem[j])
  {
    hide Big32, StringsBytes;
    r := SerializeU32(|argv|, mem, pos, bufSz);
    ghost var counted := mem[..];
    var k := SerializeStrings(argv, mem, pos + r, bufSz - r);
    r := r + k;
    assert mem[..pos] == mem[..pos + 4][..pos];
    forall j | pos <= j < mem.Length && pos + bufSz <= j
      ensures mem[j] == if bufSz < 0 && j < pos + 4 then Big32(|argv|)[j - pos] else old(mem[j])
    {
      if j < pos + 4 {
        assert mem[..pos + 4][j] == counted[..pos + 4][j];
      }
    }
    if r <= bufSz {
      assert mem[pos..pos + 4] == mem[..pos + 4][pos..] == counted[pos..pos + 4];
      assert mem[pos..pos + r] == mem[pos..pos + 4] + mem[pos + 4..pos + r];
    }
  }

  /**
   The size contract: the returned length is that of the whole encoding whatever bufSz
   is, and if it fits the buffer holds exactly the encoding.  Behind the buffer nothing
   is written, unless the type and the path alone do not fit: then the four bytes of the
   argument count land behind it.
   */
  method SerializeMessageIn(path: seq<Byte>, argv: seq<seq<Byte>>, mem: array<Byte>, bufSz: nat) returns (r: nat)
    requires NulFree(path) && AllNulFree(argv) && |argv| < TWO_TO_THE_32
    requires bufSz <= mem.Length && 9 + |path| <= mem.Length
    modifies mem
    ensures r == |MessageBytes(path, argv)|
    ensures r <= bufSz ==> mem[..r] == MessageBytes(path, argv)
    ensures forall j | bufSz <= j < mem.Length ::
      mem[j] ==
        if 5 + |path| > bufSz && 5 + |path| <= j < 9 + |path| then Big32(|argv|)[j - (5 + |path|)] else old(mem[j])
  {
    hide Big32, StringBytes, StringsBytes, ArgvBytes, MessageBytes, Overwritten;
    ghost var was := mem[..];
    r := SerializeU32(RUN_COMMAND, mem, 0, bufSz);
    ghost var typed := mem[..];
    var k := SerializeString(path, mem, r, bufSz - r);
    PathLength(path);
    r := r + k;
    ghost var pathed, at := mem[..], r;
    k := SerializeArgv(argv, mem, r, bufSz - r);
    r := r + k;
    TypeWritten(was, typed, bufSz);
    forall j | bufSz <= j < mem.Length
      ensures mem[j] ==
        if at > bufSz && at <= j < at + 4 then Big32(|argv|)[j - at] else old(mem[j])
    {
      assert pathed[j] == typed[j] == was[j];
      if j < at {
        assert mem[j] == mem[..at][j] == pathed[..at][j];
      }
    }
    MessageParts(path, argv);
    if r <= bufSz {
      assert pathed[..4] == typed[..4];
      ThreeParts(mem[..], pathed, typed, at, r);
      assert mem[..][at..r] == mem[at..r];
      assert mem[..][..r] == mem[..r];
    }
  }

  lemma TypeWritten(was: seq<Byte>, typed: seq<Byte>, bufSz: nat)
    requires TooSmall(bufSz) || 4 <= |was|
    requires typed == if TooSmall(bufSz) then was else Overwritten(was, 0, Big32(RUN_COMMAND))
    ensures forall j | bufSz <= j < |was| :: typed[j] == was[j]
    ensures bufSz >= 4 ==> typed[..4] == Big32(RUN_COMMAND)
  {
    hide Big32;
  }

  lemma MessageParts(path: seq<Byte>, argv: seq<seq<Byte>>)
    requires |argv| < TWO_TO_THE_32
    ensures MessageBytes(path, argv) == Big32(RUN_COMMAND) + StringBytes(path) + ArgvBytes(argv)
  {
  }

  lemma PathLength(path: seq<Byte>)
    ensures |StringBytes(path)| == |path| + 1
  {
  }

  lemma ThreeParts(m: seq<Byte>, p: seq<Byte>, t: seq<Byte>, at: nat, r: nat)
    requires 4 <= at <= r <= |m| == |p| == |t|
    requires m[..at] == p[..at] && p[..4] == t[..4]
    ensures m[..r] == t[..4] + p[4..at] + m[at..r]
  {
    assert m[..4] == m[..at][..4] && p[..4] == p[..at][..4];
    assert m[4..at] == m[..at][4..] && p[4..at] == p[..at][4..];
    assert m[..r] == m[..4] + m[4..at] + m[at..r];
  }
}
