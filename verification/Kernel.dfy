/**
 The kernel's side of one unrestricted ioctl on the CUSE device: it gathers the
 ranges asked for last time, hands them over, and either starts another round or
 scatters the final reply into the ranges named for output.
 */
module Kernel {
  import opened Bytes
  import opened Memory

  const EINVAL: int := -22
  const EFAULT: int := -14
  const EIO: int := -5

  /**
   What ioctl() returns in a program when the kernel answers with this status: the error
   number of a failure goes to errno, and -1 is returned.
   */
  function LibcResult(status: int): (r: int)
    ensures r == status <==> status >= -1
    ensures status < 0 <==> r == -1
  {
    if status < 0 then -1 else status
  }

  datatype Iov = Iov(base: int, len: nat)

  /** What the helper writes back on the device (FUSE_IOCTL_RETRY or a result). */
  datatype Reply =
    | Retry(ins: seq<Iov>, outCount: nat)
    | Final(result: int, payload: seq<Byte>)

  datatype Status =
    | Asking(ins: seq<Iov>, outs: seq<Iov>)
    | Done(result: int, mem: Mem)

  type Handler = (seq<Byte>, nat) -> Reply

  function Total(iovs: seq<Iov>): nat
  {
    if iovs == [] then 0 else iovs[0].len + Total(iovs[1..])
  }

  predicate AllMapped(m: Mem, iovs: seq<Iov>)
  {
    forall v | v in iovs :: Mapped(m, v.base, v.len)
  }

  function Pieces(m: Mem, iovs: seq<Iov>): (p: seq<seq<Byte>>)
    requires AllMapped(m, iovs)
    ensures |p| == |iovs|
  {
    seq(|iovs|, i requires 0 <= i < |iovs| => Read(m, iovs[i].base, iovs[i].len))
  }

  function Gather(m: Mem, iovs: seq<Iov>): seq<Byte>
    requires AllMapped(m, iovs)
  {
    Flatten(Pieces(m, iovs))
  }

  function Scatter(m: Mem, iovs: seq<Iov>, data: seq<Byte>): Mem
    requires |data| == Total(iovs)
    decreases iovs
  {
    if iovs == [] then m
    else Scatter(Write(m, iovs[0].base, data[..iovs[0].len]), iovs[1..], data[iovs[0].len..])
  }

  function Prefix(iovs: seq<Iov>, n: nat): (p: seq<Iov>)
    ensures p <= iovs
    ensures n == 0 ==> p == []
    ensures n >= |iovs| ==> p == iovs
  {
    if n <= |iovs| then iovs[..n] else iovs
  }

  /** The helper's receive buffer, which holds a struct fuse_ioctl_in and the gathered bytes. */
  const BUFSZ: nat := 0x21000
  const IOCTL_IN_SIZE: nat := 32

  predicate Receivable(iovs: seq<Iov>)
  {
    IOCTL_IN_SIZE + Total(iovs) <= BUFSZ
  }

  /**
   One round.  A request that does not fit the helper's buffer never reaches it, and a
   reply whose payload does not have the size of the output ranges is not accepted;
   either way the client's ioctl fails with EIO.
   */
  function Round(h: Handler, m: Mem, ins: seq<Iov>, outs: seq<Iov>): Status
  {
    if !AllMapped(m, ins) then Done(EFAULT, m)
    else if !Receivable(ins) then Done(EIO, m)
    else
      match h(Gather(m, ins), Total(outs))
      case Retry(ins', outCount) =>
        Asking(ins', Prefix(ins', outCount))
      case Final(result, payload) =>
        if |payload| != Total(outs) then Done(EIO, m)
        else Done(result, Scatter(m, outs, payload))
  }

  /** Where the ioctl stands after k rounds. */
  function Rounds(h: Handler, m: Mem, k: nat): Status
  {
    if k == 0 then Asking([], [])
    else
      match Rounds(h, m, k - 1)
      case Asking(ins, outs) => Round(h, m, ins, outs)
      case Done(r, m') => Done(r, m')
  }

  // ----- properties -----

  lemma {:induction false} DoneStays(h: Handler, m: Mem, k: nat, k': nat)
    requires k <= k' && Rounds(h, m, k).Done?
    ensures Rounds(h, m, k') == Rounds(h, m, k)
    decreases k'
  {
    if k < k' {
      DoneStays(h, m, k, k' - 1);
    }
  }

  /** A final reply with one output range. */
  lemma RoundToOne(h: Handler, m: Mem, ins: seq<Iov>, v: Iov, r: Reply)
    requires AllMapped(m, ins) && Receivable(ins) && r.Final? && h(Gather(m, ins), v.len) == r
    ensures Round(h, m, ins, [v]) ==
      if |r.payload| != v.len then Done(EIO, m) else Done(r.result, Write(m, v.base, r.payload))
  {
    assert Total([v]) == v.len;
    if |r.payload| == v.len {
      assert [v][1..] == [];
      assert r.payload[..v.len] == r.payload && r.payload[v.len..] == [];
      assert Scatter(m, [v], r.payload) == Write(m, v.base, r.payload);
    }
  }

  lemma {:induction false} TotalAppend(a: seq<Iov>, b: seq<Iov>)
    ensures Total(a + b) == Total(a) + Total(b)
  {
    if a == [] {
      assert a + b == b;
    } else {
      TotalAppend(a[1..], b);
      assert (a + b)[1..] == a[1..] + b;
    }
  }

  lemma PiecesTail(m: Mem, iovs: seq<Iov>)
    requires AllMapped(m, iovs) && iovs != []
    ensures AllMapped(m, iovs[1..])
    ensures Pieces(m, iovs)[0] == Read(m, iovs[0].base, iovs[0].len)
    ensures Pieces(m, iovs)[1..] == Pieces(m, iovs[1..])
  {
    assert forall v | v in iovs[1..] :: v in iovs;
  }

  lemma {:induction false} GatherLength(m: Mem, iovs: seq<Iov>)
    requires AllMapped(m, iovs)
    ensures |Gather(m, iovs)| == Total(iovs)
  {
    if iovs != [] {
      PiecesTail(m, iovs);
      GatherLength(m, iovs[1..]);
    }
  }

  lemma GatherAppend(m: Mem, a: seq<Iov>, b: seq<Iov>)
    requires AllMapped(m, a) && AllMapped(m, b)
    ensures AllMapped(m, a + b)
    ensures Gather(m, a + b) == Gather(m, a) + Gather(m, b)
  {
    assert AllMapped(m, a + b);
    assert Pieces(m, a + b) == Pieces(m, a) + Pieces(m, b);
    FlattenAppend(Pieces(m, a), Pieces(m, b));
  }

  lemma GatherOne(m: Mem, v: Iov)
    requires Mapped(m, v.base, v.len)
    ensures AllMapped(m, [v]) && Gather(m, [v]) == Read(m, v.base, v.len)
  {
    assert Pieces(m, [v]) == [Read(m, v.base, v.len)];
    assert Flatten(Pieces(m, [v])) == Read(m, v.base, v.len) + Flatten([]);
  }

  /**
   Scattering what was gathered changes nothing, for any list of ranges,
   overlapping or not.
   */
  lemma {:induction false} ScatterGather(m: Mem, iovs: seq<Iov>)
    requires AllMapped(m, iovs)
    ensures |Gather(m, iovs)| == Total(iovs)
    ensures Scatter(m, iovs, Gather(m, iovs)) == m
  {
    GatherLength(m, iovs);
    if iovs != [] {
      PiecesTail(m, iovs);
      var v := iovs[0];
      var data := Gather(m, iovs);
      assert data == Read(m, v.base, v.len) + Gather(m, iovs[1..]);
      assert data[..v.len] == Read(m, v.base, v.len);
      assert data[v.len..] == Gather(m, iovs[1..]);
      WriteRead(m, v.base, v.len);
      ScatterGather(m, iovs[1..]);
    }
  }

  /** Hence a reply that echoes the gathered bytes leaves client memory as it was. */
  lemma EchoLeavesMemory(h: Handler, m: Mem, ins: seq<Iov>, result: int)
    requires AllMapped(m, ins) && Receivable(ins)
    requires h(Gather(m, ins), Total(ins)) == Final(result, Gather(m, ins))
    ensures Round(h, m, ins, ins) == Done(result, m)
  {
    ScatterGather(m, ins);
  }

  predicate InSome(iovs: seq<Iov>, i: int)
  {
    exists v :: v in iovs && v.base <= i < v.base + v.len
  }

  /** A payload of zeros erases every range and nothing else. */
  lemma {:induction false} ScatterZeros(m: Mem, iovs: seq<Iov>)
    requires AllMapped(m, iovs)
    ensures var m' := Scatter(m, iovs, Zeros(Total(iovs)));
      && m'.Keys == m.Keys
      && forall i | i in m :: m'[i] == if InSome(iovs, i) then 0 else m[i]
    decreases |iovs|
  {
    if iovs != [] {
      hide Write;
      var v, rest := iovs[0], iovs[1..];
      var zeros := Zeros(Total(iovs));
      assert zeros[..v.len] == Zeros(v.len) && zeros[v.len..] == Zeros(Total(rest));
      var m1 := Write(m, v.base, Zeros(v.len));
      assert v in iovs;
      assert forall w | w in rest :: w in iovs;
      assert m1.Keys == m.Keys;
      ScatterZeros(m1, rest);
      forall i | i in m
        ensures InSome(iovs, i) <==> v.base <= i < v.base + v.len || InSome(rest, i)
      {
        assert forall w :: w in iovs <==> w == v || w in rest;
      }
    }
  }

  function Bases(iovs: seq<Iov>): (at: seq<int>)
    ensures |at| == |iovs|
  {
    seq(|iovs|, i requires 0 <= i < |iovs| => iovs[i].base)
  }

  predicate Fills(iovs: seq<Iov>, blocks: seq<seq<Byte>>)
  {
    |iovs| == |blocks| && forall i | 0 <= i < |iovs| :: iovs[i].len == |blocks[i]|
  }

  /** A payload of one block for each range is scattered block by block. */
  lemma {:induction false} ScatterBlocks(m: Mem, iovs: seq<Iov>, blocks: seq<seq<Byte>>)
    requires Fills(iovs, blocks)
    ensures Total(iovs) == |Flatten(blocks)|
    ensures Scatter(m, iovs, Flatten(blocks)) == WriteBlocks(m, Bases(iovs), blocks)
    decreases |iovs|
  {
    if iovs != [] {
      var m1 := Write(m, iovs[0].base, blocks[0]);
      assert forall i | 0 <= i < |iovs[1..]| :: iovs[1..][i] == iovs[i + 1] && blocks[1..][i] == blocks[i + 1];
      ScatterBlocks(m1, iovs[1..], blocks[1..]);
      assert Flatten(blocks)[..iovs[0].len] == blocks[0];
      assert Flatten(blocks)[iovs[0].len..] == Flatten(blocks[1..]);
      assert Bases(iovs)[1..] == Bases(iovs[1..]);
      assert Total(iovs) == iovs[0].len + Total(iovs[1..]);
    }
  }
}
