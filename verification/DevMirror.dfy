/**
 The mirror of /dev that a session sees: what each entry becomes in the copy, which trees
 can be copied, and what every path of the original leads to once the original has been
 moved away and the copy bound in its place.
 */
module DevMirror {

  import opened DevPaths
  import opened Options

  datatype Kind = Directory | Block | Character | Other

  datatype Stat = Stat(kind: Kind, permissions: nat, rdev: nat, uid: nat, gid: nat)

  /** What lstat tells of a path of the original tree, and what readdir lists there, in its order. */
  datatype Inode = Inode(stat: Stat, names: seq<Name>)

  /** What the copy holds at a path. */
  datatype File = Folder | Special(stat: Stat) | Symlink(target: string)

  const DEV := "/dev"
  const TMP := "/tmp/"
  const DEPTH: nat := 10

  /**
   tmp is the directory made in /tmp; dev the original tree by path; refused and unowned
   the paths at which the kernel refuses to create a file, or to give it away.
   */
  datatype Setting = Setting(
    tmp: string, ttyDevice: string, cardDevice: string, uid: nat, gid: nat,
    dev: map<string, Inode>, refused: set<string>, unowned: set<string>)
  {
    function OldDev(): string { tmp + "/old_dev" }

    function NewDev(): string { tmp + "/new_dev" }

    /** What the kernel guarantees of directories, and mkdtemp of the name it makes. */
    ghost predicate Valid()
    {
      && |tmp| == |"/tmp/session-XXXXXX"| && TMP <= tmp && '\0' !in tmp
      && (forall p | p in dev :: forall i, j | 0 <= i < j < |dev[p].names| :: dev[p].names[i] != dev[p].names[j])
    }

    predicate IsDirectory(p: string)
    {
      p in dev && dev[p].stat.kind == Directory
    }

    /** Entries replaced by the session's own devices. */
    function Replacement(p: string): Option<string>
    {
      if p == "/dev/tty0" then Some(ttyDevice)
      else if p == "/dev/dri/card0" then Some(cardDevice)
      else None
    }

    /** filter: the stat with which an entry is copied; none if the replacement is missing. */
    function Filter(p: string): Option<Stat>
      requires p in dev
    {
      var st := dev[p].stat;
      match Replacement(p)
      case None => Some(st)
      case Some(device) =>
        if device !in dev then None
        else Some(st.(kind := dev[device].stat.kind, permissions := dev[device].stat.permissions,
                      rdev := dev[device].stat.rdev, uid := uid, gid := gid))
    }

    /** What an entry of the tree is meant to become in the copy. */
    function Expected(p: string): (f: File)
      requires p in dev && (dev[p].stat.kind == Directory || Filter(p).Some?) && |p| >= |DEV|
    {
      if dev[p].stat.kind == Directory then Folder
      else
        var st := Filter(p).value;
        if st.kind == Block || st.kind == Character then Special(st) else Symlink(OldDev() + p[|DEV|..])
    }

    /** cs leads from the directory o to an entry that readdir lists. */
    predicate InTree(o: string, cs: seq<Name>)
      decreases |cs|
    {
      cs == [] ||
      (IsDirectory(o) && cs[0] in dev[o].names && !Dot(cs[0]) && InTree(Join(o, cs[0]), cs[1..]))
    }

    /** The entry at cs can be copied from below o to below f when the recursion may go depth deep. */
    predicate Copyable(o: string, f: string, depth: nat, cs: seq<Name>)
    {
      var p, q := Path(o, cs), Path(f, cs);
      && |p| < PATH_BUF && |q| < PATH_BUF && p in dev && |p| >= |DEV|
      && q !in refused
      && (if dev[p].stat.kind == Directory then |cs| < depth
          else Filter(p).Some? && (Expected(p).Special? ==> q !in unowned))
    }

    /** Exactly the trees whose copying succeeds. */
    ghost predicate AllCopyable(o: string, f: string, depth: nat)
    {
      && depth > 0 && IsDirectory(o)
      && forall cs: seq<Name> | cs != [] && InTree(o, cs) :: Copyable(o, f, depth, cs)
    }

    // ----- the state of a copy in progress -----

    /** q is the copy of something at or below one of the named entries of o. */
    ghost predicate Made(o: string, f: string, done: seq<Name>, q: string)
    {
      exists cs: seq<Name> :: cs != [] && cs[0] in done && InTree(o, cs) && q == Path(f, cs)
    }

    /** Whatever happened, the files that were there are still there, and the others are copies. */
    ghost predicate Grown(o: string, f: string, done: seq<Name>, before: map<string, File>, nodes: map<string, File>)
    {
      && (forall q | q in before :: q in nodes && nodes[q] == before[q])
      && (forall q | q in nodes && q !in before :: Made(o, f, done, q))
      && Closed(nodes, f)
    }

    /** Of the named entries of o everything has been copied. */
    ghost predicate Copied(o: string, f: string, depth: nat, done: seq<Name>, nodes: map<string, File>)
    {
      forall cs: seq<Name> | cs != [] && cs[0] in done && InTree(o, cs) :: CopiedAt(o, f, depth, nodes, cs)
    }

    predicate CopiedAt(o: string, f: string, depth: nat, nodes: map<string, File>, cs: seq<Name>)
    {
      && Copyable(o, f, depth, cs)
      && Path(f, cs) in nodes
      && nodes[Path(f, cs)] == Expected(Path(o, cs))
    }
  }

  /** Every file below f lies in a directory that is there too. */
  ghost predicate Closed(nodes: map<string, File>, f: string)
  {
    forall q, k | q in nodes && Under(f, q) && |f| < k < |q| && q[k] == '/' ::
      q[..k] in nodes && nodes[q[..k]] == Folder
  }

  // ----- path arithmetic -----

  /**
   An entry whose place in the copy fits the path buffer also has a link target that
   fits: snprintf never truncates it.
   */
  lemma TargetNeverTruncated(s: Setting, p: string)
    requires |p| > |DEV| && p[|DEV|] == '/'
    requires |s.NewDev() + p[|DEV|..]| < PATH_BUF
    ensures Snprintf(PATH_BUF, s.OldDev() + "/" + p[|DEV| + 1..]) == s.OldDev() + p[|DEV|..]
  {
    assert p[|DEV|..] == "/" + p[|DEV| + 1..];
  }

  // ----- the view of the session -----

  datatype Tree = Original | Mirror

  /** Mount points, and the tree that each shows. */
  type Mounts = map<string, Tree>

  const BEFORE: Mounts := map[DEV := Original]

  function MoveMount(m: Mounts, from: string, to: string): Mounts
    requires from in m
  {
    (m - {from})[to := m[from]]
  }

  /** What is seen at from is seen at the other place too: the tree mounted there, or the copy that was made there. */
  function BindMount(m: Mounts, from: string, at: string): Mounts
  {
    m[at := if from in m then m[from] else Mirror]
  }

  /** The two mounts made in the session's namespace. */
  function SessionMounts(s: Setting): Mounts
  {
    BindMount(MoveMount(BEFORE, DEV, s.OldDev()), s.NewDev(), DEV)
  }

  datatype Object = OriginalFile(path: string, inode: Inode) | CopiedFile(file: File)

  /** The file at a path below a mount point, without following a final symbolic link. */
  function Find(s: Setting, m: Mounts, nodes: map<string, File>, p: string): Option<Object>
  {
    if s.OldDev() in m && Under(s.OldDev(), p) then FindIn(s, m[s.OldDev()], nodes, p[|s.OldDev()|..])
    else if DEV in m && Under(DEV, p) then FindIn(s, m[DEV], nodes, p[|DEV|..])
    else None
  }

  function FindIn(s: Setting, tree: Tree, nodes: map<string, File>, rest: string): Option<Object>
  {
    match tree
    case Original => if DEV + rest in s.dev then Some(OriginalFile(DEV + rest, s.dev[DEV + rest])) else None
    case Mirror => if s.NewDev() + rest in nodes then Some(CopiedFile(nodes[s.NewDev() + rest])) else None
  }

  /** What a process of the session reaches at a path: a link made by the helper is followed. */
  function Reach(s: Setting, m: Mounts, nodes: map<string, File>, p: string): Option<Object>
  {
    match Find(s, m, nodes, p)
    case Some(CopiedFile(Symlink(target))) => Find(s, m, nodes, target)
    case found => found
  }

  /** The copy under NewDev is complete: exactly the entries of the tree, each as expected. */
  ghost predicate Complete(s: Setting, nodes: map<string, File>)
  {
    && s.AllCopyable(DEV, s.NewDev(), DEPTH)
    && (forall q | q in nodes && Under(s.NewDev(), q) :: s.Made(DEV, s.NewDev(), s.dev[DEV].names, q))
    && s.Copied(DEV, s.NewDev(), DEPTH, s.dev[DEV].names, nodes)
  }

  /**
   Through a complete copy every entry of the original tree is seen as it was, except the
   replaced ones: a directory as a directory, a device as a device of the same type,
   number and owner, and anything else as the original itself, behind the move.
   */
  lemma ViewPreserved(s: Setting, nodes: map<string, File>, cs: seq<Name>)
    requires Complete(s, nodes) && cs != [] && s.InTree(DEV, cs) && s.Valid()
    ensures var p := Path(DEV, cs); var seen := Reach(s, SessionMounts(s), nodes, p);
      && p in s.dev
      && (s.dev[p].stat.kind == Directory ==> seen == Some(CopiedFile(Folder)))
      && (p != "/dev/tty0" && p != "/dev/dri/card0" ==>
            && (s.dev[p].stat.kind in {Block, Character} ==> seen == Some(CopiedFile(Special(s.dev[p].stat))))
            && (s.dev[p].stat.kind == Other ==> seen == Some(OriginalFile(p, s.dev[p]))))
  {
    hide Setting.Valid, Setting.Made, Setting.AllCopyable, SessionMounts, Find;
    var p := Path(DEV, cs);
    SeenAsCopied(s, nodes, cs);
    if s.dev[p].stat.kind == Other {
      FoundBehindMove(s, nodes, cs);
    }
  }

  /**
   tty0 and dri/card0 are the session's own tty and card, which then exist, with their type,
   permissions and number, owned by the user; the original is seen where they are no devices.
   */
  lemma RedirectedSeen(s: Setting, nodes: map<string, File>, cs: seq<Name>)
    requires Complete(s, nodes) && cs != [] && s.InTree(DEV, cs) && s.Valid()
    requires Path(DEV, cs) == "/dev/tty0" || Path(DEV, cs) == "/dev/dri/card0"
    ensures var p := Path(DEV, cs); var device := if p == "/dev/tty0" then s.ttyDevice else s.cardDevice;
      p in s.dev && (s.dev[p].stat.kind != Directory ==>
        && device in s.dev
        && var d := s.dev[device].stat;
        Reach(s, SessionMounts(s), nodes, p) ==
          if d.kind == Block || d.kind == Character then
            Some(CopiedFile(Special(Stat(d.kind, d.permissions, d.rdev, s.uid, s.gid))))
          else Some(OriginalFile(p, s.dev[p])))
  {
    hide Setting.Valid, Setting.Made, Setting.AllCopyable, SessionMounts, Find;
    SeenAsCopied(s, nodes, cs);
    FoundBehindMove(s, nodes, cs);
  }

  /** And nothing else is seen: a list of names that the original does not have leads nowhere. */
  lemma NothingElseSeen(s: Setting, nodes: map<string, File>, cs: seq<Name>)
    requires Complete(s, nodes) && cs != [] && !s.InTree(DEV, cs) && s.Valid()
    ensures Reach(s, SessionMounts(s), nodes, Path(DEV, cs)) == None
  {
    hide Setting.Valid, Setting.AllCopyable, SessionMounts, Find;
    FoundInCopy(s, nodes, cs);
    PathUnder(s.NewDev(), cs);
    if Path(s.NewDev(), cs) in nodes {
      var ds: seq<Name> :| ds != [] && s.InTree(DEV, ds) && Path(s.NewDev(), cs) == Path(s.NewDev(), ds);
      PathInjective(s.NewDev(), cs, ds);
      assert false;
    }
  }

  lemma SeenAsCopied(s: Setting, nodes: map<string, File>, cs: seq<Name>)
    requires Complete(s, nodes) && cs != [] && s.InTree(DEV, cs) && s.Valid()
    ensures var p := Path(DEV, cs);
      && p in s.dev && |p| >= |DEV| && (s.dev[p].stat.kind == Directory || s.Filter(p).Some?)
      && Find(s, SessionMounts(s), nodes, p) == Some(CopiedFile(s.Expected(p)))
  {
    hide Setting.Made, Setting.AllCopyable, SessionMounts, Find, Setting.Expected;
    assert s.CopiedAt(DEV, s.NewDev(), DEPTH, nodes, cs);
    FoundInCopy(s, nodes, cs);
  }

  /** The two mounts show the original at its new place, and the copy in its old one. */
  lemma MountsShow(s: Setting)
    ensures SessionMounts(s).Keys == {s.OldDev(), DEV}
    ensures SessionMounts(s)[DEV] == Mirror
    ensures SessionMounts(s)[s.OldDev()] == Original
  {
    assert s.OldDev()[|s.tmp| + 1] == 'o' && s.NewDev()[|s.tmp| + 1] == 'n';
  }

  /** Below /dev the session finds the copy. */
  lemma FoundInCopy(s: Setting, nodes: map<string, File>, cs: seq<Name>)
    requires cs != [] && s.Valid()
    ensures var q := Path(s.NewDev(), cs);
      Find(s, SessionMounts(s), nodes, Path(DEV, cs)) == if q in nodes then Some(CopiedFile(nodes[q])) else None
  {
    MountsShow(s);
    var p := Path(DEV, cs);
    PathSplit(DEV, cs);
    PathSplit(s.NewDev(), cs);
    PathUnder(DEV, cs);
    OldDevApart(s, p);
    assert p[|DEV|..] == Path("", cs);
  }

  /** Below the original's new place it finds the original. */
  lemma FoundBehindMove(s: Setting, nodes: map<string, File>, cs: seq<Name>)
    requires cs != []
    ensures var p := Path(DEV, cs);
      && |p| >= |DEV|
      && Find(s, SessionMounts(s), nodes, s.OldDev() + p[|DEV|..]) ==
           if p in s.dev then Some(OriginalFile(p, s.dev[p])) else None
  {
    var p := Path(DEV, cs);
    PathUnder(DEV, cs);
    var target := s.OldDev() + p[|DEV|..];
    assert p[..|DEV| + 1][|DEV|] == '/';
    assert target[|s.OldDev()|..] == p[|DEV|..];
    assert target[..|s.OldDev()| + 1] == s.OldDev() + "/";
    assert DEV + p[|DEV|..] == p by {
      assert p[..|DEV|] == p[..|DEV| + 1][..|DEV|] == DEV;
    }
  }

  /** The temporary directory is not below /dev, so neither is the original's new place. */
  lemma OldDevApart(s: Setting, p: string)
    requires s.Valid() && Under(DEV, p)
    ensures !Under(s.OldDev(), p)
  {
    assert p[1] == p[..|DEV| + 1][1] == 'd';
    assert s.OldDev()[1] == s.tmp[..|TMP|][1] == 't';
    assert |p| > |s.OldDev()| ==> p[..|s.OldDev()| + 1][1] == p[1];
    assert (s.OldDev() + "/")[1] == 't';
  }
}
