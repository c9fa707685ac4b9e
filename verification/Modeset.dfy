/**
 Modeset ioctls end to end: the helper gathers a root struct and its arrays, the library
 hands them to the user's callback through pointers of its own, and the results travel
 back into client memory.
 */
module Modeset {
  import opened Bytes
  import opened Memory
  import opened Kernel
  import opened IoctlTable
  import opened Options
  import opened Generator
  import opened GeneratedCode

  // ----- the callback, and what it reaches from an address -----

  /** The root struct with its pointer fields blanked, and the contents of the arrays. */
  datatype View = View(root: seq<Byte>, arrays: seq<seq<Byte>>)

  /** What the callback returns and stores. */
  datatype Effect = Effect(result: int, root: seq<Byte>, arrays: seq<seq<Byte>>)

  type Callback = View -> Effect

  predicate InPointer(decls: seq<Decl>, j: int)
    requires ModesetEntry(decls)
  {
    exists i | 0 < i < |decls| :: decls[i].place.off <= j < decls[i].place.off + 8
  }

  /** The bytes of b, except that the pointer fields are those of root. */
  function KeepPointers(decls: seq<Decl>, b: seq<Byte>, root: seq<Byte>): (r: seq<Byte>)
    requires ModesetEntry(decls) && |b| == |root|
    ensures |r| == |b|
  {
    seq(|b|, j requires 0 <= j < |b| => if InPointer(decls, j) then root[j] else b[j])
  }

  function Blank(decls: seq<Decl>, root: seq<Byte>): (r: seq<Byte>)
    requires ModesetEntry(decls)
    ensures |r| == |root|
  {
    KeepPointers(decls, root, seq(|root|, _ => 0))
  }

  /** A buffer after storing into it: at most its size is stored. */
  function Stored(was: seq<Byte>, now: seq<Byte>): (r: seq<Byte>)
    ensures |r| == |was|
  {
    if |now| >= |was| then now[..|was|] else now + was[|now|..]
  }

  function NewRoot(decls: seq<Decl>, root: seq<Byte>, e: Effect): (r: seq<Byte>)
    requires ModesetEntry(decls)
    ensures |r| == |root|
  {
    KeepPointers(decls, Stored(Blank(decls, root), e.root), root)
  }

  function NewArrays(arrays: seq<seq<Byte>>, e: Effect): (r: seq<seq<Byte>>)
    ensures |r| == |arrays|
    ensures forall i | 0 <= i < |r| :: |r[i]| == |arrays[i]|
  {
    seq(|arrays|, i requires 0 <= i < |arrays| =>
      Stored(arrays[i], if i < |e.arrays| then e.arrays[i] else []))
  }

  /** count * element size of array i, not reduced to 32 bits. */
  function TrueSize(decls: seq<Decl>, root: seq<Byte>, i: nat): nat
    requires ModesetEntry(decls) && 0 < i < |decls| && |root| == decls[0].size.n
  {
    Get(root, decls[i].size.off, decls[i].size.width) * decls[i].size.factor
  }

  /** The ranges that the pointer and count fields of a root struct describe. */
  function Described(decls: seq<Decl>, root: seq<Byte>): (v: seq<Iov>)
    requires ModesetEntry(decls) && |root| == decls[0].size.n
    ensures |v| == |decls| - 1
  {
    seq(|decls| - 1, i requires 0 <= i < |decls| - 1 =>
      Iov(Get(root, decls[i + 1].place.off, 8), TrueSize(decls, root, i + 1)))
  }

  /** The callback run on a root struct at address a of memory m. */
  function RunCallback(decls: seq<Decl>, cb: Callback, m: Mem, a: int): (int, Mem)
    requires ModesetEntry(decls)
  {
    if !Mapped(m, a, decls[0].size.n) then (EFAULT, m)
    else
      var root := Read(m, a, decls[0].size.n);
      var ranges := Described(decls, root);
      if !AllMapped(m, ranges) then (EFAULT, m)
      else
        var arrays := Pieces(m, ranges);
        var e := cb(View(Blank(decls, root), arrays));
        (e.result, Write(WriteBlocks(m, Bases(ranges), NewArrays(arrays, e)), a, NewRoot(decls, root, e)))
  }

  // ----- the library's reply to a payload -----

  function SizeList(decls: seq<Decl>, root: seq<Byte>): (lens: seq<nat>)
    requires ModesetEntry(decls) && |root| == decls[0].size.n
    ensures |lens| == |decls| - 1
  {
    seq(|decls| - 1, i requires 0 <= i < |decls| - 1 => Sizes(decls, root, i + 1))
  }

  /** A root struct followed by the arrays it counts. */
  predicate Complete(decls: seq<Decl>, payload: seq<Byte>)
    requires ModesetEntry(decls)
  {
    var size := decls[0].size.n;
    |payload| >= size && |payload| == size + Sum(SizeList(decls, payload[..size]))
  }

  function ArraysOf(decls: seq<Decl>, payload: seq<Byte>): seq<seq<Byte>>
    requires ModesetEntry(decls) && Complete(decls, payload)
  {
    Cut(payload[decls[0].size.n..], SizeList(decls, payload[..decls[0].size.n]))
  }

  /** The callback sees the root and the arrays; every byte it stores goes back to its own slot. */
  function LibraryReply(decls: seq<Decl>, cb: Callback, payload: seq<Byte>): (int, seq<Byte>)
    requires ModesetEntry(decls) && Complete(decls, payload)
  {
    var root := payload[..decls[0].size.n];
    var arrays := ArraysOf(decls, payload);
    var e := cb(View(Blank(decls, root), arrays));
    (e.result, NewRoot(decls, root, e) + Flatten(NewArrays(arrays, e)))
  }

  // ----- the whole path -----

  /** IN_BUFFER_SIZE, and the struct message_in in front of a payload that comes back. */
  const IN_BUFFER_SIZE: nat := 16000
  const RESPONSE_HEADER_SIZE: nat := 24

  /** The payload comes back whole. */
  predicate Returnable(len: nat)
  {
    RESPONSE_HEADER_SIZE + len <= IN_BUFFER_SIZE
  }

  /**
   The library's answer, if the payload could be sent and comes back whole.  A payload
   that could not be sent is echoed with an error; one that comes back cut off has not
   the recorded length, and zeros of that length are returned with an error.
   */
  function Forwarded(decls: seq<Decl>, cb: Callback, delivered: bool, payload: seq<Byte>): Reply
    requires ModesetEntry(decls)
  {
    if !delivered || !Complete(decls, payload) then Final(EINVAL, payload)
    else if !Returnable(|payload|) then Final(EINVAL, Zeros(|payload|))
    else
      var (result, answer) := LibraryReply(decls, cb, payload);
      Final(result, answer)
  }

  /** The helper for one call: the generated code, and what becomes of a forwarded payload. */
  function HelperReply(decls: seq<Decl>, cb: Callback, delivered: bool, c: Call): Reply
    requires ModesetEntry(decls)
  {
    match RunCode(SetuidCode(decls), c)
    case Ask(ins, outCount) => Retry(ins, outCount)
    case Refuse(payload) => Final(EINVAL, payload)
    case Undefined => Final(EINVAL, [])
    case Forward(payload) => Forwarded(decls, cb, delivered, payload)
  }

  function ModesetHandler(decls: seq<Decl>, cb: Callback, delivered: bool, arg: int): Handler
    requires ModesetEntry(decls)
  {
    (buf: seq<Byte>, outsize: nat) => HelperReply(decls, cb, delivered, Call(arg, buf, outsize))
  }

  // ----- sizes with and without wrapping -----

  predicate Fits(decls: seq<Decl>, root: seq<Byte>, i: nat)
    requires ModesetEntry(decls) && 0 < i < |decls| && |root| == decls[0].size.n
  {
    TrueSize(decls, root, i) <= decls[i].limit.value
  }

  /** No array is larger than its declared limit. */
  predicate Admitted(decls: seq<Decl>, root: seq<Byte>)
    requires ModesetEntry(decls) && |root| == decls[0].size.n
  {
    forall i | 0 < i < |decls| :: Fits(decls, root, i)
  }

  /** The root and the arrays together are small enough to come back. */
  predicate Answerable(decls: seq<Decl>, root: seq<Byte>)
    requires ModesetEntry(decls) && |root| == decls[0].size.n
  {
    Returnable(|root| + Sum(SizeList(decls, root)))
  }

  lemma AdmittedSizes(decls: seq<Decl>, root: seq<Byte>)
    requires ModesetEntry(decls) && |root| == decls[0].size.n && Admitted(decls, root)
    ensures WithinLimits(decls, root)
    ensures ArrayIovs(decls, root) == Described(decls, root)
  {
    hide Get;
    forall i | 0 < i < |decls|
      ensures WithinLimit(decls, root, i) && Sizes(decls, root, i) == TrueSize(decls, root, i)
    {
      assert Fits(decls, root, i) && ArrayDecl(decls[0], decls[i]);
    }
  }

  /**
   The helper's own check is on the wrapped size: 2^30 framebuffers are 4 GiB of ids,
   which exceeds the limit of 4096 bytes and yet passes the check.
   */
  lemma OversizedCountPasses()
    ensures ValidEntry(GETRESOURCES)
    ensures var root := Put(seq(64, _ => 0), 32, 4, 0x4000_0000);
      WithinLimits(GETRESOURCES, root) && !Admitted(GETRESOURCES, root)
  {
    hide Decode, Encode, ModesetEntry, Put;
    GetResourcesIsValid();
    var zeros := seq(64, _ => 0);
    var root := Put(zeros, 32, 4, 0x4000_0000);
    WordBounds();
    GetPutSame(zeros, 32, 4, 0x4000_0000);
    forall off | off == 36 || off == 40 || off == 44
      ensures Get(root, off, 4) == 0
    {
      GetPutOther(zeros, 32, 4, 0x4000_0000, off, 4);
      assert zeros[off..off + 4] == seq(4, _ => 0);
      DecodeZeros(4);
    }
    ResourceCounts(root);
    assert !Fits(GETRESOURCES, root, 1);
  }

  lemma ResourceCounts(root: seq<Byte>)
    requires ValidEntry(GETRESOURCES) && |root| == 64
    ensures Sizes(GETRESOURCES, root, 1) == Get(root, 32, 4) * 4 % TWO_TO_THE_32
    ensures Sizes(GETRESOURCES, root, 2) == Get(root, 36, 4) * 4 % TWO_TO_THE_32
    ensures Sizes(GETRESOURCES, root, 3) == Get(root, 40, 4) * 4 % TWO_TO_THE_32
    ensures Sizes(GETRESOURCES, root, 4) == Get(root, 44, 4) * 4 % TWO_TO_THE_32
    ensures TrueSize(GETRESOURCES, root, 1) == Get(root, 32, 4) * 4
    ensures forall i | 0 < i < |GETRESOURCES| :: GETRESOURCES[i].limit == Some(4096)
    ensures |GETRESOURCES| == 5
  {
    hide Get, ValidEntry, ModesetEntry;
  }

  /**
   1024 framebuffers, controllers and connectors are within the limits with any number of
   encoders up to 1024, but come back with at most 906.
   */
  lemma AdmittedButTooLong(encoders: nat)
    requires encoders <= 1024
    ensures ValidEntry(GETRESOURCES)
    ensures var root := ManyResources(encoders);
      Admitted(GETRESOURCES, root) && (Answerable(GETRESOURCES, root) <==> encoders <= 906)
  {
    hide Decode, Encode, ModesetEntry, Put, Get, ManyResources;
    GetResourcesIsValid();
    var root := ManyResources(encoders);
    ManyCounts(encoders);
    ResourceCounts(root);
    ResourceTrueSizes(root);
    forall i | 0 < i < |GETRESOURCES|
      ensures Fits(GETRESOURCES, root, i)
    {
    }
    FourSizes(SizeList(GETRESOURCES, root));
  }

  function ManyResources(encoders: nat): (root: seq<Byte>)
    ensures |root| == 64
  {
    Put(Put(Put(Put(Zeros(64), 32, 4, 1024), 36, 4, 1024), 40, 4, 1024), 44, 4, encoders)
  }

  lemma ManyCounts(encoders: nat)
    requires encoders <= 1024
    ensures var root := ManyResources(encoders);
      Get(root, 32, 4) == Get(root, 36, 4) == Get(root, 40, 4) == 1024 && Get(root, 44, 4) == encoders
  {
    hide Put, Get, Pow256;
    WordBounds();
    var r0 := Zeros(64);
    var r1 := Put(r0, 32, 4, 1024);
    var r2 := Put(r1, 36, 4, 1024);
    var r3 := Put(r2, 40, 4, 1024);
    GetPutSame(r0, 32, 4, 1024);
    GetPutSame(r1, 36, 4, 1024);
    GetPutSame(r2, 40, 4, 1024);
    GetPutSame(r3, 44, 4, encoders);
    GetPutOther(r1, 36, 4, 1024, 32, 4);
    GetPutOther(r2, 40, 4, 1024, 32, 4);
    GetPutOther(r2, 40, 4, 1024, 36, 4);
    GetPutOther(r3, 44, 4, encoders, 32, 4);
    GetPutOther(r3, 44, 4, encoders, 36, 4);
    GetPutOther(r3, 44, 4, encoders, 40, 4);
  }

  lemma ResourceTrueSizes(root: seq<Byte>)
    requires ValidEntry(GETRESOURCES) && |root| == 64
    ensures forall i | 0 < i < |GETRESOURCES| ::
      TrueSize(GETRESOURCES, root, i) == Get(root, 28 + 4 * i, 4) * 4 && GETRESOURCES[i].limit == Some(4096)
  {
    hide Get, ValidEntry, ModesetEntry;
  }

  lemma FourSizes(lens: seq<nat>)
    requires |lens| == 4
    ensures Sum(lens) == lens[0] + lens[1] + lens[2] + lens[3]
  {
    var a, b, c := lens[1..], lens[2..], lens[3..];
    assert a[1..] == b && b[1..] == c && c[1..] == [];
    assert Sum(lens) == lens[0] + Sum(a);
    assert Sum(a) == lens[1] + Sum(b);
    assert Sum(b) == lens[2] + Sum(c);
    assert Sum(c) == lens[3] + Sum([]);
  }
}
