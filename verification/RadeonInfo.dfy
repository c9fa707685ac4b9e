/**
 DRM_IOCTL_RADEON_INFO: a render ioctl whose struct holds a pointer through which a
 32-bit value is read and an answer of any length is stored.
 */
module RadeonInfo {
  import opened Bytes
  import opened Memory
  import opened Kernel

  const INFO_SIZE: nat := 16
  const VALUE_SIZE: nat := 4

  type Info = b: seq<Byte> | |b| == 16 witness seq(16, _ => 0)
  type Half = b: seq<Byte> | |b| == 8 witness seq(8, _ => 0)
  type Value = b: seq<Byte> | |b| == 4 witness seq(4, _ => 0)

  function ValuePtr(info: Info): U64 { Get64(info, 8) }

  function WithValuePtr(info: Info, p: nat): Info { Put(info, 8, 8, p) }

  /** What the driver returns, what it leaves in request and pad, and what it stores at the pointer. */
  datatype Answer = Answer(status: int, head: Half, stored: seq<Byte>)

  /** Any driver: it sees request, pad and the value that the pointer leads to. */
  type Driver = (Half, Value) -> Answer

  function NewInfo(info: Info, answer: Answer): Info
  {
    answer.head + info[8..]
  }

  /** ioctl(card, DRM_IOCTL_RADEON_INFO, a): the answer is stored, then the struct is copied back. */
  function RunDriver(drv: Driver, m: Mem, a: int): (int, Mem)
  {
    if !Mapped(m, a, 16) then (EFAULT, m)
    else
      var info: Info := Read(m, a, 16);
      if !Mapped(m, ValuePtr(info), 4) then (EFAULT, m)
      else
        var answer := drv(info[..8], Read(m, ValuePtr(info), 4));
        if !Mapped(m, ValuePtr(info), |answer.stored|) then (EFAULT, m)
        else (answer.status, Write(Write(m, ValuePtr(info), answer.stored), a, NewInfo(info, answer)))
  }

  /** The addresses of the locals info and value, and the helper's other memory. */
  datatype Helper = Helper(info: nat, value: nat, rest: Mem)
  {
    predicate Valid()
    {
      value < TWO_TO_THE_64 && Apart(info, INFO_SIZE, value, VALUE_SIZE)
    }

    function Image(i: Info, v: Value): Mem
    {
      Write(Write(rest, value, v), info, i)
    }

    /** Whether the driver can store so many bytes from the local value on, past its end if need be. */
    predicate Holds(n: nat)
    {
      forall x | value <= x < value + n :: x in rest || x < value + VALUE_SIZE || info <= x < info + INFO_SIZE
    }
  }

  function InfoIovs(arg: int): seq<Iov> { [Iov(arg, 16)] }

  function AllIovs(arg: int, info: Info): seq<Iov> { [Iov(arg, 16), Iov(ValuePtr(info), 4)] }

  /** The driver run on the locals, and the payload after the pointer is restored. */
  function Process(drv: Driver, h: Helper, info: Info, value: Value): Reply
  {
    var (status, image) := RunDriver(drv, h.Image(WithValuePtr(info, h.value), value), h.info);
    if Mapped(image, h.info, 16) && Mapped(image, h.value, 4) then
      Final(LibcResult(status),
            WithValuePtr(Read(image, h.info, 16), ValuePtr(info)) + Read(image, h.value, 4))
    else Final(EFAULT, [])
  }

  predicate WellFormed(buf: seq<Byte>)
  {
    |buf| in {0, 16, 20}
  }

  function InfoReply(drv: Driver, h: Helper, arg: int, buf: seq<Byte>, outsize: nat): Reply
    requires WellFormed(buf)
  {
    if buf == [] then Retry(InfoIovs(arg), 0)
    else if |buf| == 16 || outsize == 0 then Retry(AllIovs(arg, buf[..16]), 2)
    else Process(drv, h, buf[..16], buf[16..])
  }

  function InfoHandler(drv: Driver, h: Helper, arg: int): Handler
  {
    (buf: seq<Byte>, outsize: nat) =>
      if WellFormed(buf) then InfoReply(drv, h, arg, buf, outsize) else Final(EINVAL, [])
  }

  // ----- the function -----

  /** One call, in place on the received buffer. */
  method ParseDrmIoctlRadeonInfo(drv: Driver, h: Helper, arg: int, buf: array<Byte>, outsize: nat)
    returns (reply: Reply)
    requires h.Valid() && WellFormed(buf[..])
    modifies buf
    ensures reply == InfoReply(drv, h, arg, old(buf[..]), outsize)
    ensures reply.Retry? ==> buf[..] == old(buf[..])
    ensures reply.Final? ==> buf[..] == reply.payload && buf[8..16] == old(buf[8..16])
  {
    hide Put, Get, RunDriver, Helper.Image, LocalAnswer;
    var len := buf.Length;
    if len == 0 {
      return Retry(InfoIovs(arg), 0);
    }
    var info: Info := buf[..16];
    assert buf[..][..16] == info;
    len := len - INFO_SIZE;
    if len == 0 {
      return Retry(AllIovs(arg, info), 2);
    }
    var value: Value := buf[16..];
    assert buf[..][16..] == value;
    if outsize == 0 {
      return Retry(AllIovs(arg, info), 2);
    }
    var actualPtr := ValuePtr(info);
    info := WithValuePtr(info, h.value);
    var (status, image) := RunDriver(drv, h.Image(info, value), h.info);
    LocalsAnswered(drv, h, buf[..16], value);
    CopyInto(buf, INFO_SIZE, Read(image, h.value, 4));
    info := WithValuePtr(Read(image, h.info, 16), actualPtr);
    CopyInto(buf, 0, info);
    reply := Final(LibcResult(status), buf[..]);
    assert buf[..] == info + Read(image, h.value, 4);
    LocalPointerKept(drv, h, old(buf[..16]), value);
  }

  /** The local value after the answer: as many bytes of it as there is room for. */
  function Stored(value: Value, stored: seq<Byte>): Value
  {
    if |stored| >= 4 then stored[..4] else stored + value[|stored|..]
  }

  /** What the locals hold in the end: status, struct with the client's pointer, value. */
  function LocalAnswer(drv: Driver, h: Helper, info: Info, value: Value): (int, Info, Value)
  {
    var answer := drv(info[..8], value);
    if h.Holds(|answer.stored|) then (answer.status, NewInfo(info, answer), Stored(value, answer.stored))
    else (EFAULT, info, value)
  }

  lemma LocalPointerKept(drv: Driver, h: Helper, info: Info, value: Value)
    ensures LocalAnswer(drv, h, info, value).1[8..] == info[8..]
  {
  }

  /** The driver reaches the gathered value through the local pointer, and its answer is found in the locals. */
  lemma LocalsAnswered(drv: Driver, h: Helper, info: Info, value: Value)
    requires h.Valid()
    ensures var (status, image) := RunDriver(drv, h.Image(WithValuePtr(info, h.value), value), h.info);
      && Mapped(image, h.info, 16) && Mapped(image, h.value, 4)
      && LocalAnswer(drv, h, info, value) ==
           (status, WithValuePtr(Read(image, h.info, 16), ValuePtr(info)), Read(image, h.value, 4))
  {
    hide Write, Put, Get64, NewInfo, Stored;
    var local := WithValuePtr(info, h.value);
    var m := h.Image(local, value);
    PointerBack(info, h.value);
    ReadWritten(Write(h.rest, h.value, value), h.info, local);
    ReadWritten(h.rest, h.value, value);
    ReadApart(Write(h.rest, h.value, value), h.info, local, h.value, 4);
    var answer := drv(info[..8], value);
    assert Mapped(m, h.value, |answer.stored|) <==> h.Holds(|answer.stored|);
    if h.Holds(|answer.stored|) {
      var m1 := Write(m, h.value, answer.stored);
      ReadStored(m, h.value, value, answer.stored);
      ReadWritten(m1, h.info, NewInfo(local, answer));
      ReadApart(m1, h.info, NewInfo(local, answer), h.value, 4);
      PointerRestored(info, h.value, answer);
    } else {
      PointerReplaced(info, h.value);
    }
  }

  lemma ReadStored(m: Mem, a: int, value: Value, stored: seq<Byte>)
    requires Mapped(m, a, 4) && Read(m, a, 4) == value
    ensures Mapped(Write(m, a, stored), a, 4) && Read(Write(m, a, stored), a, 4) == Stored(value, stored)
  {
    hide Write;
    assert forall i | 0 <= i < 4 :: Read(m, a, 4)[i] == m[a + i];
  }

  lemma PointerBack(info: Info, p: nat)
    requires p < TWO_TO_THE_64
    ensures ValuePtr(WithValuePtr(info, p)) == p
    ensures WithValuePtr(info, p)[..8] == info[..8]
  {
    WordBounds();
    GetPutSame(info, 8, 8, p);
  }

  lemma PointerReplaced(info: Info, p: nat)
    ensures WithValuePtr(WithValuePtr(info, p), ValuePtr(info)) == info
  {
    PutBack(info, 8, 8, p);
  }

  /** The driver's answer and the restoring of the pointer commute. */
  lemma PointerRestored(info: Info, p: nat, answer: Answer)
    ensures WithValuePtr(NewInfo(WithValuePtr(info, p), answer), ValuePtr(info)) == NewInfo(info, answer)
  {
    PutGet(info, 8, 8);
    assert info[8..16] == info[8..];
  }

  // ----- whole runs -----

  function Run(drv: Driver, h: Helper, m: Mem, a: int, k: nat): Status
  {
    Rounds(InfoHandler(drv, h, a), m, k)
  }

  lemma GatherBoth(m: Mem, a: int, info: Info)
    requires Mapped(m, a, 16) && info == Read(m, a, 16) && Mapped(m, ValuePtr(info), 4)
    ensures AllMapped(m, AllIovs(a, info))
    ensures Gather(m, AllIovs(a, info)) == info + Read(m, ValuePtr(info), 4)
  {
    var v := Iov(ValuePtr(info), 4);
    GatherOne(m, Iov(a, 16));
    GatherOne(m, v);
    GatherAppend(m, [Iov(a, 16)], [v]);
    assert AllIovs(a, info) == [Iov(a, 16)] + [v];
  }

  lemma ScatterBoth(m: Mem, a: int, info: Info, b: Info, v: Value)
    ensures Total(AllIovs(a, info)) == 20
    ensures Scatter(m, AllIovs(a, info), b + v) == Write(Write(m, a, b), ValuePtr(info), v)
  {
    hide Write;
    var iovs := AllIovs(a, info);
    var last := [Iov(ValuePtr(info), 4)];
    assert iovs[1..] == last && last[1..] == [];
    assert Total(last) == 4 + Total([]);
    assert (b + v)[..16] == b && (b + v)[16..] == v && v[..4] == v && v[4..] == [];
    var m1 := Write(m, a, b);
    assert Scatter(m1, last, v) == Scatter(Write(m1, ValuePtr(info), v), [], []);
    assert Scatter(m, iovs, b + v) == Scatter(m1, last, v);
  }

  lemma HandlerReplies(drv: Driver, h: Helper, a: int, buf: seq<Byte>, outsize: nat)
    requires WellFormed(buf)
    ensures InfoHandler(drv, h, a)(buf, outsize) == InfoReply(drv, h, a, buf, outsize)
  {
  }

  lemma Round0(drv: Driver, h: Helper, m: Mem, a: int)
    ensures Round(InfoHandler(drv, h, a), m, [], []) == Asking(InfoIovs(a), [])
  {
    assert Pieces(m, []) == [];
    HandlerReplies(drv, h, a, [], 0);
  }

  lemma Round1(drv: Driver, h: Helper, m: Mem, a: int)
    ensures Round(InfoHandler(drv, h, a), m, InfoIovs(a), []) ==
      if Mapped(m, a, 16) then Asking(AllIovs(a, Read(m, a, 16)), AllIovs(a, Read(m, a, 16)))
      else Done(EFAULT, m)
  {
    hide Get64, InfoHandler;
    assert InfoIovs(a)[0] in InfoIovs(a);
    assert Total(InfoIovs(a)[1..]) == 0;
    if Mapped(m, a, 16) {
      var info: Info := Read(m, a, 16);
      GatherOne(m, Iov(a, 16));
      assert info[..16] == info;
      HandlerReplies(drv, h, a, info, 0);
    }
  }

  /** What a run has come to when the value has been gathered, or could not be. */
  function Settled(drv: Driver, h: Helper, m: Mem, a: int, info: Info): Status
  {
    if !Mapped(m, ValuePtr(info), 4) then Done(EFAULT, m)
    else
      var (status, newInfo, newValue) := LocalAnswer(drv, h, info, Read(m, ValuePtr(info), 4));
      Done(LibcResult(status), Write(Write(m, a, newInfo), ValuePtr(info), newValue))
  }

  lemma Round2(drv: Driver, h: Helper, m: Mem, a: int, info: Info)
    requires h.Valid() && Mapped(m, a, 16) && info == Read(m, a, 16)
    ensures Round(InfoHandler(drv, h, a), m, AllIovs(a, info), AllIovs(a, info)) == Settled(drv, h, m, a, info)
  {
    hide Write, Get64, RunDriver, Helper.Image, Scatter, Put, Gather, InfoHandler, Total, LocalAnswer;
    assert AllIovs(a, info)[1] in AllIovs(a, info);
    ScatterBoth(m, a, info, info, seq(4, _ => 0));
    if Mapped(m, ValuePtr(info), 4) {
      var value: Value := Read(m, ValuePtr(info), 4);
      var (status, newInfo, newValue) := LocalAnswer(drv, h, info, value);
      GatherBoth(m, a, info);
      assert (info + value)[..16] == info && (info + value)[16..] == value;
      HandlerReplies(drv, h, a, info + value, 20);
      LocalsAnswered(drv, h, info, value);
      ScatterBoth(m, a, info, newInfo, newValue);
    }
  }

  /**
   Three rounds settle every run: the struct, the value, the answer scattered over both.
   Each request extends the one before.
   */
  lemma Runs(drv: Driver, h: Helper, m: Mem, a: int)
    requires h.Valid()
    ensures Run(drv, h, m, a, 1) == Asking(InfoIovs(a), [])
    ensures Mapped(m, a, 16) ==>
      var asked := AllIovs(a, Read(m, a, 16));
      InfoIovs(a) < asked && Run(drv, h, m, a, 2) == Asking(asked, asked)
    ensures Run(drv, h, m, a, 3) ==
      if Mapped(m, a, 16) then Settled(drv, h, m, a, Read(m, a, 16)) else Done(EFAULT, m)
  {
    hide Round, InfoHandler, Settled;
    var hd := InfoHandler(drv, h, a);
    Round0(drv, h, m, a);
    assert Rounds(hd, m, 1) == Asking(InfoIovs(a), []);
    Round1(drv, h, m, a);
    if Mapped(m, a, 16) {
      var info: Info := Read(m, a, 16);
      assert Rounds(hd, m, 2) == Asking(AllIovs(a, info), AllIovs(a, info));
      assert AllIovs(a, info)[..1] == InfoIovs(a);
      Round2(drv, h, m, a, info);
    } else {
      DoneStays(hd, m, 2, 3);
    }
  }

  // ----- transparency, and exactly when -----

  /** The client's ioctl behind the proxy is the one run directly: same result, same memory. */
  ghost predicate SameAsDirect(drv: Driver, h: Helper, m: Mem, a: int)
  {
    Run(drv, h, m, a, 3) == Done(RunDriver(drv, m, a).0, RunDriver(drv, m, a).1)
  }

  /** The driver always stores n bytes, and its result survives ioctl(). */
  ghost predicate Stores(drv: Driver, n: nat)
  {
    forall head: Half, v: Value :: |drv(head, v).stored| == n && drv(head, v).status >= -1
  }

  /**
   The address x shows that an answer of n bytes at p comes out differently about the struct
   at a: one of its first four bytes lies in the struct, or request and pad lie where the
   local value is copied to, or a byte behind the fourth lies outside the struct and is lost.
   (In the struct it would be erased directly too, by the copying back of the struct.)
   */
  predicate Harms(a: int, p: int, n: nat, x: int)
  {
    || (p <= x < p + 4 && x < p + n && a <= x < a + 16)
    || (p <= x < p + 4 && a <= x < a + 8)
    || (p + 4 <= x < p + n && !(a <= x < a + 16))
  }

  ghost predicate Harmless(a: int, p: int, n: nat)
  {
    forall x :: !Harms(a, p, n, x)
  }

  /** With the answer apart from the struct, that means at most four bytes; with four bytes, apart. */
  lemma HarmlessApart(a: int, p: int, n: nat)
    ensures Apart(a, 16, p, if n < 4 then 4 else n) ==> (Harmless(a, p, n) <==> n <= 4)
    ensures n == 4 ==> (Harmless(a, p, n) <==> Apart(a, 16, p, 4))
  {
    if n > 4 && Apart(a, 16, p, n) {
      assert Harms(a, p, n, p + 4);
    }
    if n == 4 && !Apart(a, 16, p, 4) {
      assert Harms(a, p, n, if a <= p then p else a);
    }
  }

  /** The later write wins. */
  lemma WrittenTwice(m: Mem, a: int, b: seq<Byte>, c: int, d: seq<Byte>, x: int)
    requires x in m
    ensures x in Write(Write(m, a, b), c, d)
    ensures Write(Write(m, a, b), c, d)[x] ==
      if c <= x < c + |d| then d[x - c] else if a <= x < a + |b| then b[x - a] else m[x]
  {
    hide Write;
  }

  /** The pointer is not changed, and the local value is the client's as far as it is not answered. */
  lemma Kept(m: Mem, a: int, p: int, value: Value, b: Info, stored: seq<Byte>, x: int)
    requires Mapped(m, a, 16) && b[8..] == Read(m, a, 16)[8..] && Mapped(m, p, 4) && value == Read(m, p, 4)
    ensures a + 8 <= x < a + 16 ==> b[x - a] == m[x]
    ensures p <= x < p + 4 ==> Stored(value, stored)[x - p] == if x < p + |stored| then stored[x - p] else m[x]
  {
    if a + 8 <= x < a + 16 {
      assert b[x - a] == b[8..][x - a - 8] == Read(m, a, 16)[8..][x - a - 8];
    }
    if p <= x < p + 4 {
      assert value[x - p] == m[x];
    }
  }

  /** What both orders of writing leave at an address that is mapped. */
  lemma WrittenAt(m: Mem, a: int, p: int, value: Value, b: Info, stored: seq<Byte>, x: int)
    requires Mapped(m, a, 16) && b[8..] == Read(m, a, 16)[8..] && Mapped(m, p, 4) && value == Read(m, p, 4)
    requires x in m
    ensures var proxied := Write(Write(m, a, b), p, Stored(value, stored));
      x in proxied && proxied[x] ==
        if p <= x < p + 4 then if x < p + |stored| then stored[x - p] else m[x]
        else if a <= x < a + 8 then b[x - a] else m[x]
    ensures var direct := Write(Write(m, p, stored), a, b);
      x in direct && direct[x] ==
        if a <= x < a + 16 then if x < a + 8 then b[x - a] else m[x]
        else if p <= x < p + |stored| then stored[x - p] else m[x]
  {
    hide Write, Read, Stored, Mapped;
    Kept(m, a, p, value, b, stored, x);
    WrittenTwice(m, a, b, p, Stored(value, stored), x);
    WrittenTwice(m, p, stored, a, b, x);
  }

  lemma SameDomain(m: Mem, a: int, b: seq<Byte>)
    requires Mapped(m, a, |b|)
    ensures Write(m, a, b).Keys == m.Keys
  {
    hide Write;
  }

  /** The two orders of writing: directly, answer then struct; behind the proxy, struct then four bytes. */
  lemma HarmlessWrites(m: Mem, a: int, p: int, value: Value, b: Info, stored: seq<Byte>)
    requires Mapped(m, a, 16) && b[8..] == Read(m, a, 16)[8..] && Mapped(m, p, 4) && value == Read(m, p, 4)
    requires Mapped(m, p, |stored|) && Harmless(a, p, |stored|)
    ensures Write(Write(m, a, b), p, Stored(value, stored)) == Write(Write(m, p, stored), a, b)
  {
    hide Write, Stored;
    SameDomain(m, a, b);
    SameDomain(Write(m, a, b), p, Stored(value, stored));
    SameDomain(m, p, stored);
    SameDomain(Write(m, p, stored), a, b);
    var proxied, direct := Write(Write(m, a, b), p, Stored(value, stored)), Write(Write(m, p, stored), a, b);
    assert proxied.Keys == m.Keys == direct.Keys;
    forall x | x in m.Keys
      ensures proxied[x] == direct[x]
    {
      WrittenAt(m, a, p, value, b, stored, x);
      assert !Harms(a, p, |stored|, x);
    }
  }

  /**
   Transparency, and exactly when: with everything mapped, the proxied ioctl is the direct
   one for every driver that stores n bytes and whose result survives if and only if such
   an answer is harmless where the client's pointer leads.
   */
  lemma TransparentExactly(m: Mem, a: int, n: nat)
    requires Mapped(m, a, 16)
    requires var p := ValuePtr(Read(m, a, 16)); Mapped(m, p, 4) && Mapped(m, p, n)
    ensures Harmless(a, ValuePtr(Read(m, a, 16)), n) <==>
      forall drv: Driver, h: Helper | h.Valid() && h.Holds(n) && Stores(drv, n) :: SameAsDirect(drv, h, m, a)
  {
    hide Write, Get64, SameAsDirect, NewInfo, Harms;
    var info: Info := Read(m, a, 16);
    var p := ValuePtr(info);
    if Harmless(a, p, n) {
      forall drv: Driver, h: Helper | h.Valid() && h.Holds(n) && Stores(drv, n)
        ensures SameAsDirect(drv, h, m, a)
      {
        assert |drv(info[..8], Read(m, p, 4)).stored| == n;
        HarmlessIsSame(drv, h, m, a);
      }
    } else {
      var h := RoomyHelper(n);
      var x :| Harms(a, p, n, x);
      HarmsMapped(m, a, p, n, x);
      var drv := Telling(m, info, a, p, n, x);
      TellsApart(h, m, a, n, x);
      assert !SameAsDirect(drv, h, m, a);
    }
  }

  lemma HarmlessIsSame(drv: Driver, h: Helper, m: Mem, a: int)
    requires h.Valid() && Mapped(m, a, 16)
    requires var info: Info := Read(m, a, 16); var p := ValuePtr(info);
      Mapped(m, p, 4) &&
      var answer := drv(info[..8], Read(m, p, 4));
      Mapped(m, p, |answer.stored|) && h.Holds(|answer.stored|) && Harmless(a, p, |answer.stored|)
      && answer.status >= -1
    ensures SameAsDirect(drv, h, m, a)
  {
    hide Write, Get64, Run, Stored, Harmless;
    Runs(drv, h, m, a);
    var info: Info := Read(m, a, 16);
    var p := ValuePtr(info);
    var answer := drv(info[..8], Read(m, p, 4));
    assert NewInfo(info, answer)[8..] == info[8..];
    HarmlessWrites(m, a, p, Read(m, p, 4), NewInfo(info, answer), answer.stored);
  }

  /** A harmless answer is lost only in its error number. */
  lemma SameAsDirectExactly(drv: Driver, h: Helper, m: Mem, a: int)
    requires h.Valid() && Mapped(m, a, 16)
    requires var info: Info := Read(m, a, 16); var p := ValuePtr(info);
      Mapped(m, p, 4) &&
      var answer := drv(info[..8], Read(m, p, 4));
      Mapped(m, p, |answer.stored|) && h.Holds(|answer.stored|) && Harmless(a, p, |answer.stored|)
    ensures var info: Info := Read(m, a, 16);
      SameAsDirect(drv, h, m, a) <==> drv(info[..8], Read(m, ValuePtr(info), 4)).status >= -1
  {
    var info: Info := Read(m, a, 16);
    if drv(info[..8], Read(m, ValuePtr(info), 4)).status >= -1 {
      HarmlessIsSame(drv, h, m, a);
    } else {
      hide Write, Get64, Run, Stored, Harmless;
      Runs(drv, h, m, a);
    }
  }

  // ----- a driver that shows the difference -----

  /** A helper with room behind its local value. */
  function RoomyHelper(n: nat): (h: Helper)
    ensures h.Valid() && h.Holds(n)
  {
    Helper(0, 16, Write(map[], 16, Zeros(n)))
  }

  /** A byte other than the two given. */
  function Third(b: Byte, c: Byte): (d: Byte)
    ensures d != b && d != c
  {
    if b != 0 && c != 0 then 0 else if b != 1 && c != 1 then 1 else 2
  }

  /** Request and pad get one byte, the answer another, both unlike what memory has at x. */
  function Telling(m: Mem, info: Info, a: int, p: int, n: nat, x: int): Driver
    requires x in m
  {
    var head := Third(m[x], m[x]);
    var stored := Third(m[x], head);
    (h: Half, v: Value) => Answer(0, seq(8, _ => head), seq(n, _ => stored))
  }

  lemma HarmsMapped(m: Mem, a: int, p: int, n: nat, x: int)
    requires Mapped(m, a, 16) && Mapped(m, p, 4) && Mapped(m, p, n) && Harms(a, p, n, x)
    ensures x in m
  {
  }

  lemma TellsApart(h: Helper, m: Mem, a: int, n: nat, x: int)
    requires h.Valid() && h.Holds(n) && Mapped(m, a, 16)
    requires var p := ValuePtr(Read(m, a, 16)); Mapped(m, p, 4) && Mapped(m, p, n) && Harms(a, p, n, x)
    requires x in m
    ensures var info: Info := Read(m, a, 16); var drv := Telling(m, info, a, ValuePtr(info), n, x);
      Stores(drv, n) && !SameAsDirect(drv, h, m, a)
  {
    hide Write, Get64, Run, Stored, Third;
    var info: Info := Read(m, a, 16);
    var p := ValuePtr(info);
    var drv := Telling(m, info, a, p, n, x);
    Runs(drv, h, m, a);
    var answer := drv(info[..8], Read(m, p, 4));
    WritesDiffer(m, a, p, Read(m, p, 4), NewInfo(info, answer), answer.stored, x);
  }

  lemma WritesDiffer(m: Mem, a: int, p: int, value: Value, b: Info, stored: seq<Byte>, x: int)
    requires Mapped(m, a, 16) && b[8..] == Read(m, a, 16)[8..] && Mapped(m, p, 4) && value == Read(m, p, 4)
    requires Mapped(m, p, |stored|) && Harms(a, p, |stored|, x) && x in m
    requires forall i | 0 <= i < |stored| :: stored[i] != m[x]
    requires forall i | 0 <= i < 8 :: b[i] != m[x]
    requires forall i, j | 0 <= i < |stored| && 0 <= j < 8 :: stored[i] != b[j]
    ensures Write(Write(m, a, b), p, Stored(value, stored)) != Write(Write(m, p, stored), a, b)
  {
    hide Write, Stored;
    WrittenAt(m, a, p, value, b, stored, x);
  }

  /** An answer of 32 words, as an array is: behind the proxy all but the first word are missing. */
  lemma ArrayAnswerCut(m: Mem, a: int)
    requires Mapped(m, a, 16)
    requires var p := ValuePtr(Read(m, a, 16)); Mapped(m, p, 128) && Apart(a, 16, p, 128)
    ensures exists drv: Driver, h: Helper ::
      h.Valid() && h.Holds(128) && Stores(drv, 128) && !SameAsDirect(drv, h, m, a)
  {
    hide Get64, SameAsDirect, Harmless, Stores;
    HarmlessApart(a, ValuePtr(Read(m, a, 16)), 128);
    TransparentExactly(m, a, 128);
  }

  // ----- what the client is left with -----

  /** The byte at x once an answer has been scattered over the value at p and the struct at a. */
  function AnsweredAt(m: Mem, a: int, p: int, answer: Answer, x: int): Byte
    requires x in m
  {
    if p <= x < p + 4 then if x < p + |answer.stored| then answer.stored[x - p] else m[x]
    else if a <= x < a + 8 then answer.head[x - a]
    else m[x]
  }

  /**
   Wherever the pointer leads, the run ends with the driver's status, or -1 if that is an error,
   with the first four bytes of its answer in the value and its request and pad in the struct;
   every other byte, the client's pointer among them, is as it was.
   */
  lemma Delivered(drv: Driver, h: Helper, m: Mem, a: int)
    requires h.Valid() && Mapped(m, a, 16) && Mapped(m, ValuePtr(Read(m, a, 16)), 4)
    requires h.Holds(|drv(Read(m, a, 16)[..8], Read(m, ValuePtr(Read(m, a, 16)), 4)).stored|)
    ensures var p := ValuePtr(Read(m, a, 16));
      var answer := drv(Read(m, a, 16)[..8], Read(m, p, 4)); var s := Run(drv, h, m, a, 3);
      && s.Done?
      && (answer.status < 0 ==> s.result == -1)
      && (answer.status >= 0 ==> s.result == answer.status)
      && s.mem.Keys == m.Keys
      && forall x | x in m :: s.mem[x] == AnsweredAt(m, a, p, answer, x)
  {
    hide Run, Write, Read, Get64, Stored, AnsweredAt;
    Runs(drv, h, m, a);
    var info: Info := Read(m, a, 16);
    var p := ValuePtr(info);
    var value: Value := Read(m, p, 4);
    var answer := drv(info[..8], value);
    var b := NewInfo(info, answer);
    SameDomain(m, a, b);
    SameDomain(Write(m, a, b), p, Stored(value, answer.stored));
    forall x | x in m
      ensures Write(Write(m, a, b), p, Stored(value, answer.stored))[x] == AnsweredAt(m, a, p, answer, x)
    {
      DeliveredAt(m, a, p, value, info, answer, x);
    }
  }

  lemma DeliveredAt(m: Mem, a: int, p: int, value: Value, info: Info, answer: Answer, x: int)
    requires Mapped(m, a, 16) && info == Read(m, a, 16) && Mapped(m, p, 4) && value == Read(m, p, 4) && x in m
    ensures var m' := Write(Write(m, a, NewInfo(info, answer)), p, Stored(value, answer.stored));
      x in m' && m'[x] == AnsweredAt(m, a, p, answer, x)
  {
    hide Write, Read, Stored;
    assert NewInfo(info, answer)[8..] == info[8..];
    WrittenAt(m, a, p, value, NewInfo(info, answer), answer.stored, x);
  }
}
