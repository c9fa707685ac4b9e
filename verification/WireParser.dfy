/**
 message.c: the allocating parser and its cleanup.  The cursor is the pair of variables
 behind char **buf and int *buf_sz; the allocator counts what is live and what is freed
 without being live.
 */
module WireParser {
  import opened Bytes
  import opened Options
  import opened Wire

  class Cursor {
    const data: seq<Byte>
    var pos: nat
    var left: nat

    ghost predicate Valid()
      reads this
    {
      pos + left <= |data|
    }

    /** The bytes not consumed yet. */
    ghost function Rest(): seq<Byte>
      reads this
      requires Valid()
    {
      data[pos..pos + left]
    }

    constructor (data: seq<Byte>)
      ensures Valid() && Rest() == data && this.data == data
    {
      this.data := data;
      pos, left := 0, |data|;
    }
  }

  class Allocator {
    var live: set<nat>
    var next: nat
    var budget: nat
    var badFrees: nat

    ghost predicate Valid()
      reads this
    {
      forall p | p in live :: p < next
    }

    constructor (budget: nat)
      ensures Valid() && live == {} && badFrees == 0
    {
      live, next, badFrees := {}, 0, 0;
      this.budget := budget;
    }

    method Malloc() returns (p: Option<nat>)
      requires Valid()
      modifies this
      ensures Valid() && badFrees == old(badFrees)
      ensures p.None? ==> live == old(live) && budget == old(budget) == 0
      ensures p.Some? ==> p.value !in old(live) && live == old(live) + {p.value} && old(next) <= p.value
      ensures p.Some? ==> budget == old(budget) - 1
    {
      if budget == 0 {
        return None;
      }
      budget := budget - 1;
      live := live + {next};
      p := Some(next);
      next := next + 1;
    }

    method Free(p: nat)
      requires Valid()
      modifies this
      ensures Valid() && live == old(live) - {p} && budget == old(budget)
      ensures badFrees == old(badFrees) + (if p in old(live) then 0 else 1)
    {
      if p !in live {
        badFrees := badFrees + 1;
      }
      live := live - {p};
    }
  }

  datatype CString = CString(block: nat, text: seq<Byte>)

  datatype Vector = Vector(block: nat, strings: seq<CString>)

  datatype Message = Message(block: nat, path: CString, argv: Vector)

  function Texts(strings: seq<CString>): (t: seq<seq<Byte>>)
    ensures |t| == |strings|
  {
    seq(|strings|, i requires 0 <= i < |strings| => strings[i].text)
  }

  function StringBlocks(strings: seq<CString>): set<nat>
  {
    set s | s in strings :: s.block
  }

  predicate DistinctBlocks(strings: seq<CString>)
  {
    forall i, j | 0 <= i < j < |strings| :: strings[i].block != strings[j].block
  }

  function VectorBlocks(v: Vector): set<nat>
  {
    {v.block} + StringBlocks(v.strings)
  }

  predicate ValidVector(v: Vector)
  {
    DistinctBlocks(v.strings) && v.block !in StringBlocks(v.strings)
  }

  function MessageBlocks(m: Message): set<nat>
  {
    {m.block, m.path.block} + VectorBlocks(m.argv)
  }

  predicate ValidMessage(m: Message)
  {
    && ValidVector(m.argv)
    && m.block != m.path.block
    && {m.block, m.path.block} !! VectorBlocks(m.argv)
  }

  // ----- numbers and strings -----

  method DeserializeU32(signedChar: bool, junk: U32, c: Cursor) returns (out: Option<U32>)
    requires c.Valid()
    modifies c
    ensures c.Valid() && c.pos + c.left == old(c.pos + c.left)
    ensures match ParseU32(signedChar, junk, old(c.Rest()))
            case None => out == None && c.pos == old(c.pos)
            case Some(p) => out == Some(p.value) && c.Rest() == p.rest && c.pos == old(c.pos) + 4
  {
    hide ShiftIn;
    if c.left < 4 {
      return None;
    }
    var n := junk;
    ghost var b, pos0, left0 := c.Rest(), c.pos, c.left;
    for i := 0 to 4
      invariant c.pos == pos0 + i && c.left == left0 - i && c.Valid()
      invariant n == [junk, ShiftIn(signedChar, junk, b[0]),
        ShiftIn(signedChar, ShiftIn(signedChar, junk, b[0]), b[1]),
        ShiftIn(signedChar, ShiftIn(signedChar, ShiftIn(signedChar, junk, b[0]), b[1]), b[2]),
        Shifted(signedChar, junk, b[..4])][i]
    {
      n := ShiftIn(signedChar, n, c.data[c.pos]);
      c.pos, c.left := c.pos + 1, c.left - 1;
    }
    out := Some(n);
  }

  lemma {:induction false} FirstNul(b: seq<Byte>, k: nat)
    requires k <= |b| && NulFree(b[..k])
    ensures k == |b| ==> ParseString(b) == None
    ensures k < |b| && b[k] == 0 ==> ParseString(b) == Some(Parsed(b[..k], b[k + 1..]))
  {
    if k > 0 {
      assert b[..k][0] == b[0] && b[0] in b[..k];
      assert b[1..][..k - 1] == b[..k][1..];
      FirstNul(b[1..], k - 1);
      assert [b[0]] + b[1..][..k - 1] == b[..k];
    }
  }

  method DeserializeString(c: Cursor, heap: Allocator) returns (r: Option<CString>)
    requires c.Valid() && heap.Valid()
    modifies c, heap
    ensures c.Valid() && c.pos + c.left == old(c.pos + c.left)
    ensures heap.Valid() && heap.badFrees == old(heap.badFrees)
    ensures ParseString(old(c.Rest())) == None ==> r == None
    ensures r.None? ==> heap.live == old(heap.live) && c.pos == old(c.pos) && heap.budget == old(heap.budget)
    ensures r.None? && ParseString(old(c.Rest())).Some? ==> heap.budget == 0
    ensures r.Some? ==> heap.budget == old(heap.budget) - 1 && c.pos > old(c.pos)
    ensures r.Some? ==>
      && ParseString(old(c.Rest())) == Some(Parsed(r.value.text, c.Rest()))
      && r.value.block !in old(heap.live) && heap.live == old(heap.live) + {r.value.block}
  {
    hide ParseString;
    ghost var b := c.Rest();
    var len := 0;
    while true
      invariant len <= c.left && NulFree(b[..len])
      decreases c.left - len
    {
      if len >= c.left {
        FirstNul(b, len);
        return None;
      }
      len := len + 1;
      assert b[..len] == b[..len - 1] + [b[len - 1]];
      if c.data[c.pos + len - 1] == 0 {
        break;
      }
    }
    FirstNul(b, len - 1);
    var p := heap.Malloc();
    if p.None? {
      return None;
    }
    r := Some(CString(p.value, c.data[c.pos..c.pos + len - 1]));
    assert c.data[c.pos..c.pos + len - 1] == b[..len - 1];
    c.pos, c.left := c.pos + len, c.left - len;
    assert c.Rest() == b[len..];
  }

  // ----- the argument vector -----

  function Prepend(texts: seq<seq<Byte>>, r: Option<Parsed<seq<seq<Byte>>>>): Option<Parsed<seq<seq<Byte>>>>
  {
    match r
    case None => None
    case Some(p) => Some(Parsed(texts + p.value, p.rest))
  }

  lemma NextString(b0: seq<Byte>, n0: nat, strings: seq<CString>, b: seq<Byte>, n: nat)
    requires n > 0 && ParseStrings(b0, n0) == Prepend(Texts(strings), ParseStrings(b, n))
    ensures ParseString(b) == None ==> ParseStrings(b0, n0) == None
    ensures forall s: CString, rest | ParseString(b) == Some(Parsed(s.text, rest)) ::
      ParseStrings(b0, n0) == Prepend(Texts(strings + [s]), ParseStrings(rest, n - 1))
  {
    hide ParseString;
    forall s: CString, rest | ParseString(b) == Some(Parsed(s.text, rest))
      ensures ParseStrings(b0, n0) == Prepend(Texts(strings + [s]), ParseStrings(rest, n - 1))
    {
      assert Texts(strings + [s]) == Texts(strings) + [s.text];
      match ParseStrings(rest, n - 1) {
        case None =>
        case Some(q) => assert Texts(strings) + ([s.text] + q.value) == Texts(strings + [s]) + q.value;
      }
    }
  }

  lemma StringBlocksAppend(strings: seq<CString>, s: CString)
    ensures StringBlocks(strings + [s]) == StringBlocks(strings) + {s.block}
  {
  }

  /** while(i--) free_string(argv[i]): each of the first i strings is freed once. */
  method FreeStrings(strings: seq<CString>, n: nat, heap: Allocator)
    requires heap.Valid() && n <= |strings|
    requires DistinctBlocks(strings[..n]) && StringBlocks(strings[..n]) <= heap.live
    modifies heap
    ensures heap.Valid() && heap.badFrees == old(heap.badFrees) && heap.budget == old(heap.budget)
    ensures heap.live == old(heap.live) - StringBlocks(strings[..n])
  {
    hide StringBlocks;
    var i := n;
    assert strings[..n][..n] == strings[..n];
    NoBlocks();
    ghost var freed: set<nat> := {};
    while i > 0
      invariant 0 <= i <= n && heap.Valid()
      invariant heap.badFrees == old(heap.badFrees) && heap.budget == old(heap.budget)
      invariant heap.live == old(heap.live) - freed && freed + StringBlocks(strings[..i]) == StringBlocks(strings[..n])
      invariant freed !! StringBlocks(strings[..i])
    {
      i := i - 1;
      assert strings[..i + 1] == strings[..i] + [strings[i]];
      StringBlocksAppend(strings[..i], strings[i]);
      LastIsNew(strings, n, i);
      heap.Free(strings[i].block);
      freed := freed + {strings[i].block};
    }
    assert strings[..0] == [];
  }

  lemma NoBlocks()
    ensures StringBlocks([]) == {}
  {
  }

  lemma LastIsNew(strings: seq<CString>, n: nat, i: nat)
    requires i < n <= |strings| && DistinctBlocks(strings[..n])
    ensures strings[i].block !in StringBlocks(strings[..i])
  {
    forall j | 0 <= j < i
      ensures strings[j].block != strings[i].block
    {
      assert strings[..n][j].block != strings[..n][i].block;
    }
  }

  /** On failure at string i the jump into the loop body frees the i strings built and then the array. */
  method DeserializeArgv(signedChar: bool, junk: U32, c: Cursor, heap: Allocator) returns (r: Option<Vector>)
    requires c.Valid() && heap.Valid()
    modifies c, heap
    ensures c.Valid() && c.pos + c.left == old(c.pos + c.left)
    ensures heap.Valid() && heap.badFrees == old(heap.badFrees)
    ensures ParseArgv(signedChar, junk, old(c.Rest())) == None ==> r == None
    ensures r.None? ==> heap.live == old(heap.live)
    ensures r.None? && ParseArgv(signedChar, junk, old(c.Rest())).Some? ==> heap.budget == 0
    ensures r.None? && old(heap.budget) > |old(c.Rest())| ==> ParseArgv(signedChar, junk, old(c.Rest())) == None
    ensures r.Some? ==>
      && ParseArgv(signedChar, junk, old(c.Rest())) == Some(Parsed(Texts(r.value.strings), c.Rest()))
      && ValidVector(r.value) && VectorBlocks(r.value) !! old(heap.live)
      && heap.live == old(heap.live) + VectorBlocks(r.value)
  {
    hide ParseString, ParseU32, StringBlocks;
    ghost var live0, budget0, pos0 := heap.live, heap.budget, c.pos;
    var count := DeserializeU32(signedChar, junk, c);
    if count.None? {
      return None;
    }
    var n := count.value;
    var p := heap.Malloc();
    if p.None? {
      return None;
    }
    ghost var b := c.Rest();
    var strings: seq<CString> := [];
    NoBlocks();
    NothingPrepended(b, n);
    for i := 0 to n
      invariant c.Valid() && c.pos + c.left == old(c.pos + c.left)
      invariant heap.Valid() && heap.badFrees == old(heap.badFrees)
      invariant |strings| == i && DistinctBlocks(strings) && p.value !in StringBlocks(strings)
      invariant StringBlocks(strings) !! live0
      invariant heap.live == live0 + {p.value} + StringBlocks(strings)
      invariant heap.budget + (c.pos - pos0) >= budget0 - 1
      invariant ParseStrings(b, n) == Prepend(Texts(strings), ParseStrings(c.Rest(), n - i))
    {
      NextString(b, n, strings, c.Rest(), n - i);
      var s := DeserializeString(c, heap);
      if s.None? {
        assert strings[..i] == strings;
        FreeStrings(strings, i, heap);
        heap.Free(p.value);
        return None;
      }
      StringBlocksAppend(strings, s.value);
      NewBlockDistinct(strings, s.value);
      strings := strings + [s.value];
    }
    assert Texts(strings) + [] == Texts(strings);
    r := Some(Vector(p.value, strings));
  }

  lemma NothingPrepended(b: seq<Byte>, n: nat)
    ensures ParseStrings(b, n) == Prepend(Texts([]), ParseStrings(b, n))
  {
    match ParseStrings(b, n) {
      case None =>
      case Some(q) => assert [] + q.value == q.value;
    }
  }

  lemma NewBlockDistinct(strings: seq<CString>, s: CString)
    requires DistinctBlocks(strings) && s.block !in StringBlocks(strings)
    ensures DistinctBlocks(strings + [s])
  {
  }

  /** free_argv: the strings up to the terminating NULL, each once, and the array. */
  method FreeArgv(v: Vector, heap: Allocator)
    requires heap.Valid() && ValidVector(v) && VectorBlocks(v) <= heap.live
    modifies heap
    ensures heap.Valid() && heap.badFrees == old(heap.badFrees)
    ensures heap.live == old(heap.live) - VectorBlocks(v)
  {
    assert v.strings[..|v.strings|] == v.strings;
    FreeStrings(v.strings, |v.strings|, heap);
    heap.Free(v.block);
  }

  // ----- the message -----

  /** Where the parsing of a message ends, by its bytes alone. */
  datatype Stage = AtType | AtPath | AtArgv | Complete

  function StageOf(signedChar: bool, junk: U32, b: seq<Byte>): (stage: Stage)
    ensures stage.Complete? <==> ParseMessage(signedChar, junk, b).Some?
  {
    match ParseU32(signedChar, junk, b)
    case None => AtType
    case Some(t) =>
      if t.value != RUN_COMMAND then AtType
      else
        match ParseString(t.rest)
        case None => AtPath
        case Some(p) => if ParseArgv(signedChar, junk, p.rest).None? then AtArgv else Complete
  }

  lemma Staged(signedChar: bool, junk: U32, b: seq<Byte>)
    ensures match ParseU32(signedChar, junk, b)
      case None => StageOf(signedChar, junk, b) == AtType
      case Some(t) =>
        && (t.value != RUN_COMMAND ==> StageOf(signedChar, junk, b) == AtType)
        && (t.value == RUN_COMMAND ==>
              match ParseString(t.rest)
              case None => StageOf(signedChar, junk, b) == AtPath
              case Some(p) =>
                match ParseArgv(signedChar, junk, p.rest)
                case None => StageOf(signedChar, junk, b) == AtArgv
                case Some(a) =>
                  && StageOf(signedChar, junk, b) == Complete
                  && ParseMessage(signedChar, junk, b) == Some(Parsed(Command(p.value, a.value), a.rest)))
  {
    hide ParseString, ParseU32, ParseArgv;
  }

  /** Enough memory for any message in these bytes: the message, the path, the array and a block per string. */
  predicate Ample(budget: nat, b: seq<Byte>)
  {
    budget >= |b| + 3
  }

  /** A garbage pointer is freed along with what was taken; only NULL does no harm. */
  predicate GarbageFreed(garbage: Option<nat>, live: set<nat>, bad: nat, live': set<nat>, bad': nat)
  {
    match garbage
    case None => live' == live && bad' == bad
    case Some(p) => live' == live - {p} && bad' == if p in live then bad else bad + 1
  }

  predicate OneLost(live: set<nat>, live': set<nat>)
  {
    live <= live' && |live' - live| == 1
  }

  /** What a failure at this stage leaves behind. */
  predicate Aftermath(stage: Stage, garbage: Option<nat>, live: set<nat>, bad: nat, live': set<nat>, bad': nat)
  {
    match stage
    case Complete => false
    case AtType => live' == live && bad' == bad
    case AtPath => GarbageFreed(garbage, live, bad, live', bad')
    case AtArgv => OneLost(live, live') && bad' == bad
  }

  lemma LostOne(live: set<nat>, block: nat, live': set<nat>)
    requires block !in live && live' == live + {block}
    ensures OneLost(live, live')
  {
    assert live' - live == {block};
  }

  lemma MessageBuilt(live: set<nat>, m: Message, live': set<nat>)
    requires m.block !in live && m.path.block !in live + {m.block} && ValidVector(m.argv)
    requires VectorBlocks(m.argv) !! live + {m.block} + {m.path.block}
    requires live' == live + {m.block} + {m.path.block} + VectorBlocks(m.argv)
    ensures ValidMessage(m) && MessageBlocks(m) !! live && live' == live + MessageBlocks(m)
  {
    hide VectorBlocks, ValidVector;
  }

  /** The label e_r1: free_string on whatever the field holds, then the message itself. */
  method FreeFromPath(garbage: Option<nat>, m: nat, ghost live: set<nat>, heap: Allocator)
    requires heap.Valid() && m !in live && heap.live == live + {m}
    modifies heap
    ensures heap.Valid() && GarbageFreed(garbage, live, old(heap.badFrees), heap.live, heap.badFrees)
  {
    if garbage.Some? {
      heap.Free(garbage.value);
    }
    heap.Free(m);
  }

  /**
   The two labels in the middle of the cleanup are the wrong way round: when the path
   fails, whatever m->cmd.path held is freed; when the vector fails, the path is not.
   A message is parsed and kept, or everything taken is given back, or the garbage is
   freed too, or one block is lost; with enough memory the bytes alone decide which.
   */
  method DeserializeMessage(signedChar: bool, junk: U32, garbage: Option<nat>, c: Cursor, heap: Allocator)
    returns (r: Option<Message>, ghost stage: Stage)
    requires c.Valid() && heap.Valid()
    modifies c, heap
    ensures c.Valid() && c.pos + c.left == old(c.pos + c.left) && heap.Valid()
    ensures ParseMessage(signedChar, junk, old(c.Rest())) == None ==> r == None
    ensures r.Some? ==>
      && ParseMessage(signedChar, junk, old(c.Rest()))
           == Some(Parsed(Command(r.value.path.text, Texts(r.value.argv.strings)), c.Rest()))
      && ValidMessage(r.value) && MessageBlocks(r.value) !! old(heap.live)
      && heap.live == old(heap.live) + MessageBlocks(r.value) && heap.badFrees == old(heap.badFrees)
    ensures r.Some? <==> stage == Complete
    ensures r.None? ==>
      Aftermath(stage, garbage, old(heap.live), old(heap.badFrees), heap.live, heap.badFrees)
    ensures Ample(old(heap.budget), old(c.Rest())) ==> stage == StageOf(signedChar, junk, old(c.Rest()))
  {
    hide ParseString, ParseU32, ParseArgv, VectorBlocks, ValidVector, StageOf, ParseMessage;
    hide GarbageFreed, OneLost, MessageBlocks, ValidMessage, Texts;
    ghost var live0, b := heap.live, c.Rest();
    Staged(signedChar, junk, b);
    var m := heap.Malloc();
    if m.None? {
      return None, AtType;
    }
    var t := DeserializeU32(signedChar, junk, c);
    if t.None? || t.value != RUN_COMMAND {
      heap.Free(m.value);
      return None, AtType;
    }
    var path := DeserializeString(c, heap);
    if path.None? {
      FreeFromPath(garbage, m.value, live0, heap);
      return None, AtPath;
    }
    var argv := DeserializeArgv(signedChar, junk, c, heap);
    if argv.None? {
      heap.Free(m.value);
      LostOne(live0, path.value.block, heap.live);
      return None, AtArgv;
    }
    stage := Complete;
    r := Some(Message(m.value, path.value, argv.value));
    MessageBuilt(live0, r.value, heap.live);
  }

  // ----- where the parsing ends, by counting bytes -----

  function Nuls(b: seq<Byte>): nat
  {
    if b == [] then 0 else (if b[0] == 0 then 1 else 0) + Nuls(b[1..])
  }

  lemma {:induction false} StringTakesNul(b: seq<Byte>)
    ensures ParseString(b).Some? <==> Nuls(b) > 0
    ensures ParseString(b).Some? ==> Nuls(ParseString(b).value.rest) == Nuls(b) - 1
  {
    if b != [] && b[0] != 0 {
      StringTakesNul(b[1..]);
    }
  }

  lemma {:induction false} StringsTakeNuls(b: seq<Byte>, n: nat)
    ensures ParseStrings(b, n).Some? <==> Nuls(b) >= n
    decreases n
  {
    if n > 0 {
      StringTakesNul(b);
      if ParseString(b).Some? {
        StringsTakeNuls(ParseString(b).value.rest, n - 1);
      }
    }
  }

  predicate BadType(b: seq<Byte>)
  {
    |b| < 4 || b[..4] != [0, 0, 0, 0]
  }

  /** The length of the string at the front. */
  function StringLength(b: seq<Byte>): (k: nat)
    requires 0 in b
    ensures k < |b| && b[k] == 0 && NulFree(b[..k])
  {
    if b[0] == 0 then 0
    else
      assert b == [b[0]] + b[1..];
      var k := 1 + StringLength(b[1..]);
      assert b[..k] == [b[0]] + b[1..][..k - 1];
      k
  }

  /** No room for the count, or fewer NULs behind it than the count that the loop makes of its bytes. */
  predicate ShortVector(signedChar: bool, b: seq<Byte>)
  {
    |b| < 4 || Nuls(b[4..]) < Shifted(signedChar, 0, b[..4])
  }

  lemma StringByLength(b: seq<Byte>)
    ensures ParseString(b).Some? <==> 0 in b
    ensures 0 in b ==> ParseString(b).value.rest == b[StringLength(b) + 1..]
  {
    hide ParseString;
    if 0 in b {
      FirstNul(b, StringLength(b));
    } else {
      assert b[..|b|] == b;
      FirstNul(b, |b|);
    }
  }

  lemma VectorByNuls(signedChar: bool, junk: U32, b: seq<Byte>)
    ensures ParseArgv(signedChar, junk, b) == None <==> ShortVector(signedChar, b)
  {
    hide ParseStrings, Shifted, Nuls;
    if |b| >= 4 {
      JunkForgotten(signedChar, junk, b[..4]);
      StringsTakeNuls(b[4..], Shifted(signedChar, junk, b[..4]));
    }
  }

  lemma TypeByBytes(signedChar: bool, junk: U32, b: seq<Byte>)
    ensures BadType(b) <==>
      ParseU32(signedChar, junk, b) == None || ParseU32(signedChar, junk, b).value.value != RUN_COMMAND
    ensures |b| >= 4 ==> ParseU32(signedChar, junk, b).value.rest == b[4..]
  {
    hide Shifted;
    if |b| >= 4 {
      ZeroShifted(signedChar, junk, b[..4]);
    }
  }

  /** The stage can be told from the bytes: by the type, the first NUL behind it, and the number of NULs behind that. */
  lemma StageByBytes(signedChar: bool, junk: U32, b: seq<Byte>)
    ensures StageOf(signedChar, junk, b) ==
      if BadType(b) then AtType
      else if 0 !in b[4..] then AtPath
      else if ShortVector(signedChar, b[4..][StringLength(b[4..]) + 1..]) then AtArgv
      else Complete
  {
    hide ParseU32, ParseString, ParseArgv, ShortVector, ParseMessage;
    TypeByBytes(signedChar, junk, b);
    if !BadType(b) {
      StringByLength(b[4..]);
      if 0 in b[4..] {
        VectorByNuls(signedChar, junk, b[4..][StringLength(b[4..]) + 1..]);
      }
    }
  }

  /**
   So a failed parse of these bytes gives back exactly what it took if and only if their
   type is bad, or no NUL follows the type and the uninitialised pointer happens to be NULL.
   */
  lemma CleanFailureExactly(signedChar: bool, junk: U32, b: seq<Byte>, garbage: Option<nat>,
                            live: set<nat>, bad: nat, live': set<nat>, bad': nat)
    requires Aftermath(StageOf(signedChar, junk, b), garbage, live, bad, live', bad')
    ensures live' == live && bad' == bad <==> BadType(b) || (0 !in b[4..] && garbage == None)
  {
    hide StageOf, BadType, ShortVector;
    StageByBytes(signedChar, junk, b);
    assert live' == live ==> live' - live == {};
  }

  /** A path without a NUL fails at the path: with garbage in the field, that is freed. */
  lemma UnterminatedPath(signedChar: bool, junk: U32, s: seq<Byte>)
    requires NulFree(s)
    ensures StageOf(signedChar, junk, Big32(RUN_COMMAND) + s) == AtPath
  {
    hide Big32, ParseString, ParseU32, ParseArgv, SignSafe;
    ParseBig32(signedChar, junk, RUN_COMMAND, s);
    ZeroIsSafe();
    assert s[..|s|] == s;
    FirstNul(s, |s|);
  }

  /** An argument without a NUL fails in the vector: the path is lost. */
  lemma UnterminatedArgument(signedChar: bool, junk: U32, path: seq<Byte>, s: seq<Byte>)
    requires NulFree(path) && NulFree(s)
    ensures StageOf(signedChar, junk, Big32(RUN_COMMAND) + (StringBytes(path) + (Big32(1) + s))) == AtArgv
  {
    hide Big32, ParseString, ParseU32, SignSafe;
    var vector := Big32(1) + s;
    ParseBig32(signedChar, junk, RUN_COMMAND, StringBytes(path) + vector);
    ZeroIsSafe();
    ParseStringBytes(path, vector);
    ParseBig32(signedChar, junk, 1, s);
    SmallCountsSurvive(signedChar, 1);
    assert s[..|s|] == s;
    FirstNul(s, |s|);
    assert ParseStrings(s, 1) == None;
  }

  /** message_in_free: every block of the message once, and nothing else. */
  method FreeMessage(m: Message, heap: Allocator)
    requires heap.Valid() && ValidMessage(m) && MessageBlocks(m) <= heap.live
    modifies heap
    ensures heap.Valid() && heap.badFrees == old(heap.badFrees)
    ensures heap.live == old(heap.live) - MessageBlocks(m)
  {
    FreeArgv(m.argv, heap);
    heap.Free(m.path.block);
    heap.Free(m.block);
  }
}
