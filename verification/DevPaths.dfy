/**
 Path names as the /dev mirror handles them: strings grown by "/" and an entry's name,
 kept in fixed buffers that end at the first NUL.
 */
module DevPaths {

  const PATH_BUF := 350

  type Name = s: string | s != "" && '/' !in s && '\0' !in s witness "a"

  predicate Dot(n: Name)
  {
    n == "." || n == ".."
  }

  function Join(dir: string, n: Name): string
  {
    dir + "/" + n
  }

  /** The path reached from base along a list of names. */
  function Path(base: string, cs: seq<Name>): string
    decreases |cs|
  {
    if cs == [] then base else Path(Join(base, cs[0]), cs[1..])
  }

  /** q lies below the directory dir. */
  predicate Under(dir: string, q: string)
  {
    |q| > |dir| && q[..|dir| + 1] == dir + "/"
  }

  predicate IsChild(dir: string, q: string)
  {
    Under(dir, q) && '/' !in q[|dir| + 1..]
  }

  lemma PathOne(base: string, n: Name)
    ensures Path(base, [n]) == Join(base, n)
  {
    assert [n][1..] == [];
  }

  /** Below an entry of a directory is below the directory. */
  lemma JoinUnder(f: string, n: Name, q: string)
    ensures q == Join(f, n) || Under(Join(f, n), q) ==> Under(f, q)
  {
    if q == Join(f, n) || Under(Join(f, n), q) {
      assert q[..|f| + 1 + |n|] == Join(f, n);
      assert q[..|f| + 1] == Join(f, n)[..|f| + 1] == f + "/";
    }
  }

  lemma {:induction false} PathSplit(base: string, cs: seq<Name>)
    ensures Path(base, cs) == base + Path("", cs)
    decreases |cs|
  {
    if cs != [] {
      PathSplit(Join(base, cs[0]), cs[1..]);
      PathSplit(Join("", cs[0]), cs[1..]);
      assert Join(base, cs[0]) == base + Join("", cs[0]);
    }
  }

  lemma PathUnder(base: string, cs: seq<Name>)
    requires cs != []
    ensures Under(base, Path(base, cs))
    ensures |Path(base, cs)| >= |base| + 1 + |cs[0]|
    ensures Path(base, cs)[|base| + 1..][..|cs[0]|] == cs[0]
    ensures |Path(base, cs)| == |base| + 1 + |cs[0]| <==> |cs| == 1
    ensures |cs| > 1 ==> Path(base, cs)[|base| + 1 + |cs[0]|] == '/'
  {
    PathSplit(Join(base, cs[0]), cs[1..]);
    if |cs| > 1 {
      PathSplit(Join("", cs[1]), cs[2..]);
    }
  }

  /** Names contain no slash, so what lies at or below one entry of a directory is not below another. */
  lemma FirstName(base: string, n: Name, cs: seq<Name>)
    requires cs != []
    requires Path(base, cs) == Join(base, n) || Under(Join(base, n), Path(base, cs))
    ensures cs[0] == n
  {
    PathUnder(base, cs);
    var q := Path(base, cs);
    assert q[|base| + 1..][..|n|] == n by {
      assert q[..|base| + 1 + |n|] == Join(base, n);
    }
    assert |q| == |base| + 1 + |n| || q[|base| + 1..][|n|] == '/' by {
      if |q| > |base| + 1 + |n| {
        assert q[..|base| + 1 + |n| + 1] == Join(base, n) + "/";
      }
    }
    SameFirst(q[|base| + 1..], cs[0], n);
  }

  /** A string has one first component. */
  lemma SameFirst(q: string, a: Name, b: Name)
    requires |a| <= |q| && q[..|a|] == a && (|a| < |q| ==> q[|a|] == '/')
    requires |b| <= |q| && q[..|b|] == b && (|b| < |q| ==> q[|b|] == '/')
    ensures a == b
  {
    assert forall k | 0 <= k < |a| :: q[k] == q[..|a|][k] && q[k] != '/';
    assert forall k | 0 <= k < |b| :: q[k] == q[..|b|][k] && q[k] != '/';
    assert |a| == |b|;
  }

  /** Different lists of names lead to different paths. */
  lemma {:induction false} PathInjective(base: string, cs: seq<Name>, ds: seq<Name>)
    requires Path(base, cs) == Path(base, ds)
    ensures cs == ds
    decreases |cs|
  {
    if cs == [] {
      if ds != [] {
        PathUnder(base, ds);
      }
    } else if ds == [] {
      PathUnder(base, cs);
    } else {
      assert Path(base, ds) == Join(base, ds[0]) || Under(Join(base, ds[0]), Path(base, ds)) by {
        if |ds| > 1 {
          PathUnder(Join(base, ds[0]), ds[1..]);
        }
      }
      FirstName(base, ds[0], cs);
      PathInjective(Join(base, cs[0]), cs[1..], ds[1..]);
    }
  }

  // ----- C strings -----

  /** The string in a buffer: everything before the first NUL. */
  function Str(b: seq<char>): string
  {
    if b == [] || b[0] == '\0' then [] else [b[0]] + Str(b[1..])
  }

  predicate Terminated(b: seq<char>)
  {
    '\0' in b
  }

  lemma {:induction false} StrIs(b: seq<char>, n: nat)
    requires n < |b| && b[n] == '\0' && '\0' !in b[..n]
    ensures Str(b) == b[..n]
  {
    if n > 0 {
      assert b[..n][0] == b[0];
      assert b[1..][..n - 1] == b[..n][1..];
      StrIs(b[1..], n - 1);
      assert b[..n] == [b[0]] + b[1..][..n - 1];
    }
  }

  lemma {:induction false} StrEnds(b: seq<char>)
    requires Terminated(b)
    ensures |Str(b)| < |b| && Str(b) == b[..|Str(b)|] && b[|Str(b)|] == '\0' && '\0' !in Str(b)
  {
    if b[0] != '\0' {
      StrEnds(b[1..]);
    }
  }

  method Strlen(buf: array<char>) returns (n: nat)
    requires Terminated(buf[..])
    ensures n == |Str(buf[..])| && n < buf.Length
  {
    n := 0;
    while buf[n] != '\0'
      invariant n < buf.Length && '\0' !in buf[..n]
      decreases buf.Length - n
    {
      assert buf[..n + 1] == buf[..n] + [buf[n]];
      n := n + 1;
      assert buf[..] == buf[..n] + buf[n..];
    }
    StrIs(buf[..], n);
  }

  method Strcat(buf: array<char>, s: string)
    requires Terminated(buf[..]) && '\0' !in s
    requires |Str(buf[..])| + |s| < buf.Length
    modifies buf
    ensures Terminated(buf[..]) && Str(buf[..]) == old(Str(buf[..])) + s
  {
    ghost var was := Str(buf[..]);
    StrEnds(buf[..]);
    var n := Strlen(buf);
    var i := 0;
    while i < |s|
      invariant 0 <= i <= |s|
      invariant buf[..n + i] == was + s[..i]
    {
      buf[n + i] := s[i];
      i := i + 1;
      assert s[..i] == s[..i - 1] + [s[i - 1]];
      assert buf[..n + i] == buf[..n + i - 1] + [s[i - 1]];
    }
    buf[n + i] := '\0';
    assert s[..i] == s;
    StrIs(buf[..], n + i);
  }

  method Strcpy(buf: array<char>, s: string)
    requires |s| < buf.Length && '\0' !in s
    modifies buf
    ensures Terminated(buf[..]) && Str(buf[..]) == s
  {
    buf[0] := '\0';
    StrIs(buf[..], 0);
    Strcat(buf, s);
  }

  /** Push an entry's name onto a path, if the buffer has room for it. */
  method TryAppend(buf: array<char>, entry: Name) returns (r: int)
    requires buf.Length == PATH_BUF && Terminated(buf[..])
    modifies buf
    ensures Terminated(buf[..])
    ensures r == 0 <==> |Join(old(Str(buf[..])), entry)| < PATH_BUF
    ensures r == 0 ==> Str(buf[..]) == Join(old(Str(buf[..])), entry)
    ensures r == 0 || (r == -1 && buf[..] == old(buf[..]))
  {
    var n := Strlen(buf);
    if n + 1 + |entry| + 1 > PATH_BUF {
      return -1;
    }
    Strcat(buf, "/");
    Strcat(buf, entry);
    return 0;
  }

  /** Pop: end the string at an earlier place. */
  method Truncate(buf: array<char>, n: nat)
    requires Terminated(buf[..]) && n <= |Str(buf[..])|
    modifies buf
    ensures Terminated(buf[..]) && Str(buf[..]) == old(Str(buf[..]))[..n]
  {
    StrEnds(buf[..]);
    ghost var was := Str(buf[..]);
    buf[n] := '\0';
    assert buf[..n] == was[..n];
    StrIs(buf[..], n);
  }

  /** What snprintf leaves in a buffer of the given size. */
  function Snprintf(size: nat, s: string): string
    requires size > 0
  {
    if |s| < size then s else s[..size - 1]
  }
}
