/**
 The RUN_COMMAND message between the library and the helper: a type, a path and an
 argument vector, with 32-bit numbers most significant byte first and strings ending
 in a NUL byte.
 */
module Wire {
  import opened Bytes
  import opened Options

  const RUN_COMMAND: U32 := 0

  // ----- encoding -----

  /** n >> (8 * k). */
  function ShiftRight(n: nat, k: nat): nat
  {
    if k == 0 then n else ShiftRight(n / 256, k - 1)
  }

  function Big32(n: U32): (b: seq<Byte>)
    ensures |b| == 4
  {
    [ShiftRight(n, 3) % 256, ShiftRight(n, 2) % 256, ShiftRight(n, 1) % 256, n % 256]
  }

  predicate NulFree(s: seq<Byte>)
  {
    0 !in s
  }

  predicate AllNulFree(argv: seq<seq<Byte>>)
  {
    forall s | s in argv :: NulFree(s)
  }

  function StringBytes(s: seq<Byte>): seq<Byte>
  {
    s + [0]
  }

  function StringsBytes(argv: seq<seq<Byte>>): seq<Byte>
  {
    if argv == [] then [] else StringBytes(argv[0]) + StringsBytes(argv[1..])
  }

  function ArgvBytes(argv: seq<seq<Byte>>): seq<Byte>
    requires |argv| < TWO_TO_THE_32
  {
    Big32(|argv|) + StringsBytes(argv)
  }

  function MessageBytes(path: seq<Byte>, argv: seq<seq<Byte>>): seq<Byte>
    requires |argv| < TWO_TO_THE_32
  {
    Big32(RUN_COMMAND) + StringBytes(path) + ArgvBytes(argv)
  }

  // ----- decoding -----

  /** A decoded value and the bytes behind it. */
  datatype Parsed<T> = Parsed(value: T, rest: seq<Byte>)

  /** out <<= 8; out |= c, where a signed char c of 0x80 or more is widened with ones. */
  function ShiftIn(signedChar: bool, out: U32, c: Byte): U32
  {
    if signedChar && c >= 0x80 then 0xFFFF_FF00 + c else out % 0x100_0000 * 256 + c
  }

  /** The loop over four bytes, started from what the variable happened to hold. */
  function Shifted(signedChar: bool, junk: U32, b: seq<Byte>): U32
    requires |b| == 4
  {
    ShiftIn(signedChar, ShiftIn(signedChar, ShiftIn(signedChar, ShiftIn(signedChar, junk, b[0]), b[1]), b[2]), b[3])
  }

  function ParseU32(signedChar: bool, junk: U32, b: seq<Byte>): Option<Parsed<U32>>
  {
    if |b| < 4 then None else Some(Parsed(Shifted(signedChar, junk, b[..4]), b[4..]))
  }

  function ParseString(b: seq<Byte>): (r: Option<Parsed<seq<Byte>>>)
    ensures r.Some? ==> |r.value.rest| < |b|
  {
    if b == [] then None
    else if b[0] == 0 then Some(Parsed([], b[1..]))
    else
      match ParseString(b[1..])
      case None => None
      case Some(p) => Some(Parsed([b[0]] + p.value, p.rest))
  }

  function ParseStrings(b: seq<Byte>, n: nat): (r: Option<Parsed<seq<seq<Byte>>>>)
    ensures r.Some? ==> |r.value.value| == n
    decreases n
  {
    if n == 0 then Some(Parsed([], b))
    else
      match ParseString(b)
      case None => None
      case Some(p) =>
        match ParseStrings(p.rest, n - 1)
        case None => None
        case Some(q) => Some(Parsed([p.value] + q.value, q.rest))
  }

  function ParseArgv(signedChar: bool, junk: U32, b: seq<Byte>): Option<Parsed<seq<seq<Byte>>>>
  {
    match ParseU32(signedChar, junk, b)
    case None => None
    case Some(n) => ParseStrings(n.rest, n.value)
  }

  datatype Command = Command(path: seq<Byte>, argv: seq<seq<Byte>>)

  function ParseMessage(signedChar: bool, junk: U32, b: seq<Byte>): Option<Parsed<Command>>
  {
    match ParseU32(signedChar, junk, b)
    case None => None
    case Some(t) =>
      if t.value != RUN_COMMAND then None
      else
        match ParseString(t.rest)
        case None => None
        case Some(p) =>
          match ParseArgv(signedChar, junk, p.rest)
          case None => None
          case Some(a) => Some(Parsed(Command(p.value, a.value), a.rest))
  }

  // ----- numbers -----

  lemma Digits(n: U32)
    ensures Big32(n) == [n / 256 / 256 / 256, n / 256 / 256 % 256, n / 256 % 256, n % 256]
  {
    assert ShiftRight(n, 1) == n / 256;
    assert ShiftRight(n, 2) == ShiftRight(n / 256, 1) == n / 256 / 256;
    assert ShiftRight(n, 3) == ShiftRight(n / 256, 2) == ShiftRight(n / 256 / 256, 1) == n / 256 / 256 / 256;
  }

  lemma Big32Injective(m: U32, n: U32)
    requires Big32(m) == Big32(n)
    ensures m == n
  {
    hide Big32;
    Digits(m);
    Digits(n);
    assert Big32(m)[0] == Big32(n)[0] && Big32(m)[1] == Big32(n)[1];
    assert Big32(m)[2] == Big32(n)[2] && Big32(m)[3] == Big32(n)[3];
  }

  lemma FromDigits(n: U32, a: Byte, b: Byte, c: Byte, d: Byte)
    requires n == ((a * 256 + b) * 256 + c) * 256 + d
    ensures Big32(n) == [a, b, c, d]
  {
    hide Big32;
    Digits(n);
    LastDigit(n, (a * 256 + b) * 256 + c, d);
    LastDigit((a * 256 + b) * 256 + c, a * 256 + b, c);
    LastDigit(a * 256 + b, a, b);
  }

  lemma LastDigit(n: nat, q: nat, d: Byte)
    requires n == q * 256 + d
    ensures n / 256 == q && n % 256 == d
  {
  }

  /** One turn of the loop drops the first byte and appends the new one, or sign-extends. */
  lemma ShiftInBytes(signedChar: bool, out: U32, c: Byte)
    ensures Big32(ShiftIn(signedChar, out, c)) ==
      if signedChar && c >= 0x80 then [0xFF, 0xFF, 0xFF, c] else [Big32(out)[1], Big32(out)[2], Big32(out)[3], c]
  {
    hide Big32;
    var n := ShiftIn(signedChar, out, c);
    if signedChar && c >= 0x80 {
      FromDigits(n, 0xFF, 0xFF, 0xFF, c);
    } else {
      Digits(out);
      LowDigits(out);
      FromDigits(n, out / 256 / 256 % 256, out / 256 % 256, out % 256, c);
    }
  }

  lemma LowDigits(n: nat)
    ensures n % 0x100_0000 == (n / 256 / 256 % 256 * 256 + n / 256 % 256) * 256 + n % 256
  {
    var q := n / 256;
    var r := q / 256;
    Remainder(n, r / 256, (r % 256 * 256 + q % 256) * 256 + n % 256);
  }

  lemma Remainder(n: nat, t: nat, m: nat)
    requires n == t * 0x100_0000 + m && m < 0x100_0000
    ensures n % 0x100_0000 == m
  {
  }

  /** Every byte of 0x80 or more has only 0xFF bytes in front of it. */
  predicate SignSafe(b: seq<Byte>)
    requires |b| == 4
  {
    && (b[1] >= 0x80 ==> b[0] == 0xFF)
    && (b[2] >= 0x80 ==> b[0] == 0xFF && b[1] == 0xFF)
    && (b[3] >= 0x80 ==> b[0] == 0xFF && b[1] == 0xFF && b[2] == 0xFF)
  }

  /** The bytes in front of the last byte of 0x80 or more are lost to its sign. */
  function SignExtended(signedChar: bool, b: seq<Byte>): seq<Byte>
    requires |b| == 4
  {
    if signedChar && b[3] >= 0x80 then [0xFF, 0xFF, 0xFF, b[3]]
    else if signedChar && b[2] >= 0x80 then [0xFF, 0xFF, b[2], b[3]]
    else if signedChar && b[1] >= 0x80 then [0xFF, b[1], b[2], b[3]]
    else b
  }

  /** What the loop over four bytes comes to. */
  lemma ShiftedBytes(signedChar: bool, junk: U32, b: seq<Byte>)
    requires |b| == 4
    ensures Big32(Shifted(signedChar, junk, b)) == SignExtended(signedChar, b)
  {
    hide Big32, ShiftIn;
    var n0 := ShiftIn(signedChar, junk, b[0]);
    var n1 := ShiftIn(signedChar, n0, b[1]);
    var n2 := ShiftIn(signedChar, n1, b[2]);
    ShiftInBytes(signedChar, junk, b[0]);
    ShiftInBytes(signedChar, n0, b[1]);
    ShiftInBytes(signedChar, n1, b[2]);
    ShiftInBytes(signedChar, n2, b[3]);
    assert b == [b[0], b[1], b[2], b[3]];
  }

  /** In particular the variable's old value is forgotten. */
  lemma JunkForgotten(signedChar: bool, junk: U32, b: seq<Byte>)
    requires |b| == 4
    ensures Shifted(signedChar, junk, b) == Shifted(signedChar, 0, b)
  {
    hide Big32, Shifted, SignExtended;
    ShiftedBytes(signedChar, junk, b);
    ShiftedBytes(signedChar, 0, b);
    Big32Injective(Shifted(signedChar, junk, b), Shifted(signedChar, 0, b));
  }

  /**
   The loop inverts the encoding, whatever its variable held before, exactly when chars
   are unsigned or the bytes are sign-safe.
   */
  lemma ShiftedExactly(signedChar: bool, junk: U32, b: seq<Byte>)
    requires |b| == 4
    ensures Big32(Shifted(signedChar, junk, b)) == b <==> !signedChar || SignSafe(b)
  {
    hide Big32, Shifted;
    ShiftedBytes(signedChar, junk, b);
    assert b == [b[0], b[1], b[2], b[3]];
  }

  lemma ParseBig32(signedChar: bool, junk: U32, n: U32, rest: seq<Byte>)
    ensures var r := ParseU32(signedChar, junk, Big32(n) + rest);
      && r.Some? && r.value.rest == rest
      && (r.value.value == n <==> !signedChar || SignSafe(Big32(n)))
  {
    hide Big32, Shifted;
    var b := Big32(n) + rest;
    assert b[..4] == Big32(n) && b[4..] == rest;
    ShiftedExactly(signedChar, junk, Big32(n));
    if Shifted(signedChar, junk, Big32(n)) != n {
      if Big32(Shifted(signedChar, junk, Big32(n))) == Big32(n) {
        Big32Injective(Shifted(signedChar, junk, Big32(n)), n);
      }
    }
  }

  // ----- round trip -----

  lemma {:induction false} ParseStringBytes(s: seq<Byte>, rest: seq<Byte>)
    requires NulFree(s)
    ensures ParseString(StringBytes(s) + rest) == Some(Parsed(s, rest))
  {
    var b := StringBytes(s) + rest;
    if s == [] {
      assert b[1..] == rest;
    } else {
      ParseStringBytes(s[1..], rest);
      assert s[0] in s;
      assert b[1..] == StringBytes(s[1..]) + rest;
      assert [s[0]] + s[1..] == s;
    }
  }

  lemma {:induction false} ParseStringsBytes(argv: seq<seq<Byte>>, rest: seq<Byte>)
    requires AllNulFree(argv)
    ensures ParseStrings(StringsBytes(argv) + rest, |argv|) == Some(Parsed(argv, rest))
  {
    hide ParseString, StringBytes;
    if argv == [] {
      assert StringsBytes(argv) + rest == rest;
    } else {
      ParseStringsBytes(argv[1..], rest);
      ParseStringBytes(argv[0], StringsBytes(argv[1..]) + rest);
      assert argv[0] in argv;
      assert StringsBytes(argv) + rest == StringBytes(argv[0]) + (StringsBytes(argv[1..]) + rest);
      assert [argv[0]] + argv[1..] == argv;
    }
  }

  /** The condition on the number of arguments under which signed chars do no harm. */
  predicate CountSurvives(signedChar: bool, n: U32)
  {
    !signedChar || SignSafe(Big32(n))
  }

  /**
   Round trip, and exactly when: parsing the bytes of a command, whatever follows them,
   gives the command back and consumes exactly its bytes if and only if chars are
   unsigned or the argument count is sign-safe.
   */
  lemma RoundTripExactly(signedChar: bool, junk: U32, path: seq<Byte>, argv: seq<seq<Byte>>, rest: seq<Byte>)
    requires NulFree(path) && AllNulFree(argv) && |argv| < TWO_TO_THE_32
    ensures ParseMessage(signedChar, junk, MessageBytes(path, argv) + rest)
              == Some(Parsed(Command(path, argv), rest))
            <==> CountSurvives(signedChar, |argv|)
  {
    hide Big32, ParseU32, SignSafe, StringBytes, StringsBytes, ParseString, ParseStrings;
    var b := MessageBytes(path, argv) + rest;
    var strings := StringsBytes(argv) + rest;
    var b1 := Big32(|argv|) + strings;
    assert b == Big32(RUN_COMMAND) + (StringBytes(path) + b1);
    ParseBig32(signedChar, junk, RUN_COMMAND, StringBytes(path) + b1);
    ZeroIsSafe();
    ParseStringBytes(path, b1);
    ParseBig32(signedChar, junk, |argv|, strings);
    ParseStringsBytes(argv, rest);
  }

  lemma ZeroIsSafe()
    ensures SignSafe(Big32(0))
  {
  }

  /** Up to 127 arguments always survive; 128 arguments do not survive signed chars. */
  lemma SmallCountsSurvive(signedChar: bool, n: U32)
    ensures n < 128 ==> CountSurvives(signedChar, n)
    ensures n == 128 ==> !CountSurvives(true, n)
  {
    hide Big32;
    Digits(n);
  }

  // ----- the converse -----

  lemma {:induction false} ParsedString(b: seq<Byte>)
    requires ParseString(b).Some?
    ensures var p := ParseString(b).value;
      NulFree(p.value) && b == StringBytes(p.value) + p.rest
  {
    if b[0] != 0 {
      ParsedString(b[1..]);
      var p := ParseString(b[1..]).value;
      calc {
        b;
        [b[0]] + b[1..];
        [b[0]] + (StringBytes(p.value) + p.rest);
        StringBytes([b[0]] + p.value) + p.rest;
      }
    } else {
      assert b == [0] + b[1..];
    }
  }

  lemma {:induction false} ParsedStrings(b: seq<Byte>, n: nat)
    requires ParseStrings(b, n).Some?
    ensures var p := ParseStrings(b, n).value;
      AllNulFree(p.value) && b == StringsBytes(p.value) + p.rest
    decreases n
  {
    if n > 0 {
      ParsedString(b);
      var p := ParseString(b).value;
      ParsedStrings(p.rest, n - 1);
      var q := ParseStrings(p.rest, n - 1).value;
      assert ([p.value] + q.value)[1..] == q.value;
    }
  }

  lemma ParsedU32(signedChar: bool, junk: U32, b: seq<Byte>)
    requires |b| >= 4
    ensures var p := ParseU32(signedChar, junk, b).value;
      && (Big32(p.value) == b[..4] <==> !signedChar || SignSafe(b[..4]))
      && b == b[..4] + p.rest
      && (p.value == 0 ==> b[..4] == Big32(0))
  {
    hide Big32, Shifted, SignSafe;
    ShiftedExactly(signedChar, junk, b[..4]);
    ZeroShifted(signedChar, junk, b[..4]);
  }

  lemma ZeroShifted(signedChar: bool, junk: U32, b: seq<Byte>)
    requires |b| == 4
    ensures Shifted(signedChar, junk, b) == 0 <==> b == Big32(0)
  {
    hide Big32, Shifted;
    ShiftedBytes(signedChar, junk, b);
    Digits(0);
    if b == Big32(0) {
      Big32Injective(Shifted(signedChar, junk, b), 0);
    }
  }

  /**
   Converse: bytes that parse are the encoding of the result followed by what is left,
   exactly when chars are unsigned or the four count bytes are sign-safe.
   */
  lemma ParsedExactly(signedChar: bool, junk: U32, b: seq<Byte>)
    requires ParseMessage(signedChar, junk, b).Some?
    ensures var p := ParseMessage(signedChar, junk, b).value;
      var at := 5 + |p.value.path|;
      && NulFree(p.value.path) && AllNulFree(p.value.argv)
      && |p.value.argv| < TWO_TO_THE_32 && at + 4 <= |b|
      && (b == MessageBytes(p.value.path, p.value.argv) + p.rest <==> !signedChar || SignSafe(b[at..at + 4]))
  {
    hide Big32, Shifted, SignSafe, StringsBytes, ParseString, ParseStrings;
    var t := ParseU32(signedChar, junk, b).value;
    ParsedU32(signedChar, junk, b);
    ParsedString(t.rest);
    var s := ParseString(t.rest).value;
    ParsedU32(signedChar, junk, s.rest);
    var n := ParseU32(signedChar, junk, s.rest).value;
    ParsedStrings(n.rest, n.value);
    var a := ParseStrings(n.rest, n.value).value;
    var head := Big32(0) + StringBytes(s.value);
    var tail := StringsBytes(a.value) + a.rest;
    assert b == head + s.rest[..4] + tail;
    assert MessageBytes(s.value, a.value) + a.rest == head + Big32(n.value) + tail;
    SameMiddle(head, s.rest[..4], Big32(n.value), tail);
  }

  lemma SameMiddle(head: seq<Byte>, x: seq<Byte>, y: seq<Byte>, tail: seq<Byte>)
    requires |x| == |y|
    ensures head + x + tail == head + y + tail <==> x == y
    ensures (head + x + tail)[|head|..|head| + |x|] == x
  {
    assert (head + x + tail)[|head|..|head| + |x|] == x;
    assert (head + y + tail)[|head|..|head| + |y|] == y;
  }
}
