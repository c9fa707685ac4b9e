/**
 Exactly which trees /dev can be for the copy to succeed, in plain numbers, and a tree of
 directories that shows where the depth ends.
 */
module DevMirrorLimits {

  import opened DevPaths
  import opened DevMirror

  /** At k of the way along cs there is a directory that lists the next name, and not as itself or its parent. */
  predicate LedOn(s: Setting, o: string, cs: seq<Name>, k: nat)
    requires k < |cs|
  {
    var p := Path(o, cs[..k]);
    && p in s.dev && s.dev[p].stat.kind == Directory
    && cs[k] in s.dev[p].names && cs[k] != "." && cs[k] != ".."
  }

  predicate Listed(s: Setting, o: string, cs: seq<Name>)
  {
    forall k | 0 <= k < |cs| :: LedOn(s, o, cs, k)
  }

  lemma LedOnTail(s: Setting, o: string, cs: seq<Name>, k: nat)
    requires 0 < k < |cs|
    ensures LedOn(s, o, cs, k) <==> LedOn(s, Join(o, cs[0]), cs[1..], k - 1)
  {
    assert cs[..k][1..] == cs[1..][..k - 1];
  }

  lemma LedOnFirst(s: Setting, o: string, cs: seq<Name>)
    requires cs != []
    ensures LedOn(s, o, cs, 0) <==> s.IsDirectory(o) && cs[0] in s.dev[o].names && !Dot(cs[0])
  {
    assert cs[..0] == [];
  }

  lemma {:induction false} InTreeListed(s: Setting, o: string, cs: seq<Name>)
    ensures s.InTree(o, cs) <==> Listed(s, o, cs)
    decreases |cs|
  {
    hide LedOn;
    if cs != [] {
      InTreeListed(s, Join(o, cs[0]), cs[1..]);
      LedOnFirst(s, o, cs);
      var rest := cs[1..];
      forall k | 0 <= k < |rest|
        ensures LedOn(s, o, cs, k + 1) <==> LedOn(s, Join(o, cs[0]), rest, k)
      {
        LedOnTail(s, o, cs, k + 1);
      }
      assert forall k | 0 < k < |cs| :: LedOn(s, o, cs, k) <==> LedOn(s, Join(o, cs[0]), rest, k - 1);
    }
  }

  /** The session's device for an entry that is replaced, if it is to be replaced, exists. */
  predicate DeviceThere(s: Setting, p: string)
  {
    && (p == "/dev/tty0" ==> s.ttyDevice in s.dev)
    && (p == "/dev/dri/card0" ==> s.cardDevice in s.dev)
  }

  /** What an entry is made a device for, rather than a link. */
  predicate MadeDevice(s: Setting, p: string)
    requires p in s.dev && DeviceThere(s, p)
  {
    var kind :=
      if p == "/dev/tty0" then s.dev[s.ttyDevice].stat.kind
      else if p == "/dev/dri/card0" then s.dev[s.cardDevice].stat.kind
      else s.dev[p].stat.kind;
    kind == Block || kind == Character
  }

  /** Both names fit 350 bytes with their NUL, directories are at most nine levels deep, and the kernel agrees. */
  predicate Manageable(s: Setting, cs: seq<Name>)
  {
    var p, q := Path("/dev", cs), Path(s.tmp + "/new_dev", cs);
    && |p| + 1 <= 350 && |q| + 1 <= 350
    && p in s.dev && q !in s.refused
    && (s.dev[p].stat.kind == Directory ==> |cs| <= 9)
    && (s.dev[p].stat.kind != Directory ==> DeviceThere(s, p) && (MadeDevice(s, p) ==> q !in s.unowned))
  }

  lemma CopyableManageable(s: Setting, cs: seq<Name>)
    requires cs != []
    ensures s.Copyable(DEV, s.NewDev(), DEPTH, cs) <==> Manageable(s, cs)
  {
    PathUnder(DEV, cs);
  }

  ghost predicate AllManageable(s: Setting)
  {
    && "/dev" in s.dev && s.dev["/dev"].stat.kind == Directory
    && forall cs: seq<Name> | cs != [] && Listed(s, "/dev", cs) :: Manageable(s, cs)
  }

  /** The copy of /dev succeeds exactly for these trees. */
  lemma CopiedExactly(s: Setting)
    ensures s.AllCopyable(DEV, s.NewDev(), DEPTH) <==> AllManageable(s)
  {
    hide Setting.Copyable, Manageable, Listed, Setting.InTree;
    forall cs: seq<Name> | cs != []
      ensures s.InTree(DEV, cs) <==> Listed(s, "/dev", cs)
      ensures s.Copyable(DEV, s.NewDev(), DEPTH, cs) <==> Manageable(s, cs)
    {
      InTreeListed(s, DEV, cs);
      CopyableManageable(s, cs);
    }
  }

  // ----- a chain of directories -----

  const FOLDER: Stat := Stat(Directory, 0, 0, 0, 0)

  function Names(k: nat): (cs: seq<Name>)
    ensures |cs| == k
  {
    seq(k, _ => "a")
  }

  function Level(k: nat): string
  {
    Path("/dev", Names(k))
  }

  function Levels(k: nat, n: nat): map<string, Inode>
    requires k <= n
    decreases n - k
  {
    if k == n then map[Level(k) := Inode(FOLDER, [])]
    else Levels(k + 1, n)[Level(k) := Inode(FOLDER, ["a"])]
  }

  function Chain(n: nat): Setting
  {
    Setting("/tmp/session-XXXXXX", "", "", 0, 0, Levels(0, n), {}, {})
  }

  lemma {:induction false} LevelLength(base: string, k: nat)
    ensures |Path(base, Names(k))| == |base| + 2 * k
    decreases k
  {
    if k > 0 {
      assert Names(k)[1..] == Names(k - 1);
      LevelLength(Join(base, "a"), k - 1);
    }
  }

  lemma {:induction false} InLevels(k: nat, n: nat, j: nat)
    requires k <= n
    ensures Level(j) in Levels(k, n) <==> k <= j <= n
    ensures k <= j <= n ==> Levels(k, n)[Level(j)] == Inode(FOLDER, if j < n then ["a"] else [])
    decreases n - k
  {
    hide Level;
    if j != k {
      assert Level(j) != Level(k) by {
        LevelLengths(j);
        LevelLengths(k);
      }
    }
    if k < n {
      InLevels(k + 1, n, j);
    }
  }

  lemma LevelLengths(k: nat)
    ensures |Level(k)| == 4 + 2 * k
  {
    LevelLength("/dev", k);
  }

  /** Only repetitions of the one name lead anywhere. */
  lemma {:induction false} ListedLevels(n: nat, cs: seq<Name>)
    requires Listed(Chain(n), "/dev", cs)
    ensures cs == Names(|cs|) && |cs| <= n
    decreases |cs|
  {
    hide Levels, Level;
    if cs != [] {
      var k := |cs| - 1;
      var before := cs[..k];
      assert forall j | 0 <= j < k :: before[..j] == cs[..j] && LedOn(Chain(n), "/dev", cs, j);
      assert Listed(Chain(n), "/dev", before);
      ListedLevels(n, before);
      assert LedOn(Chain(n), "/dev", cs, k);
      InLevels(0, n, k);
      assert Path("/dev", before) == Level(k) by { LevelIs(k, before); }
      assert cs == before + [cs[k]];
    }
  }

  lemma LevelIs(k: nat, cs: seq<Name>)
    requires cs == Names(k)
    ensures Path("/dev", cs) == Level(k)
  {
  }

  lemma LevelsListed(n: nat, k: nat)
    requires k <= n
    ensures Listed(Chain(n), "/dev", Names(k))
  {
    hide Levels, Level;
    forall j | 0 <= j < k
      ensures LedOn(Chain(n), "/dev", Names(k), j)
    {
      assert Names(k)[..j] == Names(j);
      LevelIs(j, Names(k)[..j]);
      InLevels(0, n, j);
    }
  }

  /** A chain of n directories below /dev is copied exactly if n is at most nine. */
  lemma NineLevels(n: nat)
    ensures var s := Chain(n);
      s.AllCopyable(DEV, s.NewDev(), DEPTH) <==> n <= 9
  {
    hide Setting.AllCopyable, Levels, Level, Listed;
    var s := Chain(n);
    CopiedExactly(s);
    InLevels(0, n, 0);
    LevelIs(0, []);
    if n <= 9 {
      forall cs: seq<Name> | cs != [] && Listed(s, "/dev", cs)
        ensures Manageable(s, cs)
      {
        ListedLevels(n, cs);
        ChainManageable(n, |cs|);
      }
    } else {
      LevelsListed(n, 10);
      LevelIs(10, Names(10));
      InLevels(0, n, 10);
      assert !Manageable(s, Names(10));
    }
  }

  lemma ChainManageable(n: nat, k: nat)
    requires 0 < k <= n <= 9
    ensures Manageable(Chain(n), Names(k))
  {
    hide Levels, Level;
    LevelLengths(k);
    LevelIs(k, Names(k));
    LevelLength(Chain(n).tmp + "/new_dev", k);
    InLevels(0, n, k);
  }
}
