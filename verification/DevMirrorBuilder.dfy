/**
 Building and clearing the mirror of /dev: the recursive copy that pushes and pops
 entries on two path buffers in place, and the post-order removal.
 */
module DevMirrorBuilder {

  import opened DevPaths
  import opened DevMirror
  import opened Options

  class Symlinks {
    const s: Setting
    /** The files under the temporary directory, by path. */
    var nodes: map<string, File>

    constructor (s: Setting)
      ensures this.s == s && nodes == map[s.NewDev() := Folder]
    {
      this.s := s;
      nodes := map[s.NewDev() := Folder];
    }

    // ----- system calls -----

    method Create(q: string, file: File) returns (r: int)
      modifies this`nodes
      ensures r == 0 <==> q !in old(nodes) && q !in s.refused
      ensures r == 0 || r == -1
      ensures nodes == if r == 0 then old(nodes)[q := file] else old(nodes)
    {
      if q in nodes || q in s.refused {
        return -1;
      }
      nodes := nodes[q := file];
      return 0;
    }

    method Chown(q: string) returns (r: int)
      ensures r == 0 <==> q !in s.unowned
    {
      return if q in s.unowned then -1 else 0;
    }

    method Rmdir(q: string) returns (r: int)
      modifies this`nodes
      ensures r == 0 <==> q in old(nodes) && old(nodes)[q].Folder? && forall c | c in old(nodes) :: !IsChild(q, c)
      ensures nodes == if r == 0 then old(nodes) - {q} else old(nodes)
    {
      if q !in nodes || !nodes[q].Folder? || exists c | c in nodes :: IsChild(q, c) {
        return -1;
      }
      nodes := nodes - {q};
      return 0;
    }

    method Unlink(q: string) returns (r: int)
      modifies this`nodes
      ensures r == 0 <==> q in old(nodes) && !old(nodes)[q].Folder?
      ensures nodes == if r == 0 then old(nodes) - {q} else old(nodes)
    {
      if q !in nodes || nodes[q].Folder? {
        return -1;
      }
      nodes := nodes - {q};
      return 0;
    }

    // ----- copying -----

    method CopyDevice(dst: array<char>, src: array<char>) returns (r: int)
      requires dst.Length == src.Length == PATH_BUF && Terminated(dst[..]) && Terminated(src[..])
      requires var p := Str(src[..]); |p| > |DEV| && p[|DEV|] == '/' && Str(dst[..]) == s.NewDev() + p[|DEV|..]
      requires !s.IsDirectory(Str(src[..]))
      modifies this`nodes
      ensures var p, q := Str(src[..]), Str(dst[..]);
        && (r == 0 <==>
              p in s.dev && s.Filter(p).Some? && q !in old(nodes) && q !in s.refused
              && (s.Expected(p).Special? ==> q !in s.unowned))
        && (r == 0 ==> nodes == old(nodes)[q := s.Expected(p)])
        && (r != 0 ==> r == -1 && OnlyAdded(q, old(nodes), nodes))
    {
      var p, q := Str(src[..]), Str(dst[..]);
      StrEnds(dst[..]);
      TargetNeverTruncated(s, p);
      if p !in s.dev {
        return -1;
      }
      var filtered := s.Filter(p);
      if filtered.None? {
        return -1;
      }
      var st := filtered.value;
      if st.kind == Block || st.kind == Character {
        var made := Create(q, Special(st));
        if made != 0 {
          return -1;
        }
        var owned := Chown(q);
        if owned != 0 {
          return -1;
        }
      } else {
        var oldDevPath := Snprintf(PATH_BUF, s.OldDev() + "/" + p[|DEV| + 1..]);
        var made := Create(q, Symlink(oldDevPath));
        if made != 0 {
          return -1;
        }
      }
      return 0;
    }

    /**
     Copies the directory named in orig into the one named in from, unless depth is used
     up.  It succeeds exactly when everything below can be copied; then the copy is
     complete and both buffers hold what they held.  If it fails, what has been made so
     far still forms a tree.
     */
    method LinkDir(orig: array<char>, from: array<char>, depth: nat) returns (r: int)
      requires s.Valid() && orig != from && orig.Length == from.Length == PATH_BUF
      requires Terminated(orig[..]) && Terminated(from[..])
      requires OnDev(Str(orig[..])) && Str(from[..]) == s.NewDev() + Str(orig[..])[|DEV|..]
      requires forall q | q in nodes :: !Under(Str(from[..]), q)
      modifies this`nodes, orig, from
      ensures Terminated(orig[..]) && Terminated(from[..])
      ensures r == 0 || r == -1
      ensures r == 0 <==> s.AllCopyable(old(Str(orig[..])), old(Str(from[..])), depth)
      ensures r == 0 ==> Str(orig[..]) == old(Str(orig[..])) && Str(from[..]) == old(Str(from[..]))
      ensures var o, f := old(Str(orig[..])), old(Str(from[..]));
        && (o in s.dev ==> s.Grown(o, f, s.dev[o].names, old(nodes), nodes))
        && (o !in s.dev ==> nodes == old(nodes))
        && (r == 0 ==> s.Copied(o, f, depth, s.dev[o].names, nodes))
      decreases depth, 1
    {
      hide Setting.AllCopyable, Setting.Grown, Setting.Copied, Setting.Copyable, Setting.InTree;
      hide Str, Setting.Filter, Setting.Expected, Terminated;
      ghost var o, f, before := Str(orig[..]), Str(from[..]), nodes;
      GrownStart(s, o, f, depth, nodes);
      if depth == 0 {
        if o in s.dev {
          GrownAll(s, o, f, [], before, nodes);
        }
        NotOpened(s, o, f, depth);
        return -1;
      }
      var path := Str(orig[..]);
      if !s.IsDirectory(path) {
        if o in s.dev {
          GrownAll(s, o, f, [], before, nodes);
        }
        NotOpened(s, o, f, depth);
        return -1;
      }
      var names := s.dev[path].names;
      var origLen := Strlen(orig);
      var fromLen := Strlen(from);
      var i := 0;
      while i < |names|
        invariant 0 <= i <= |names|
        invariant Terminated(orig[..]) && Terminated(from[..]) && Str(orig[..]) == o && Str(from[..]) == f
        invariant s.Grown(o, f, names[..i], before, nodes)
        invariant s.Copied(o, f, depth, names[..i], nodes)
      {
        var n := names[i];
        assert names[..i + 1] == names[..i] + [n];
        i := i + 1;
        if Dot(n) {
          SkipDot(s, o, f, depth, names[..i - 1], n, before, nodes);
          continue;
        }
        NotYetThere(s, o, f, names, i - 1, before, nodes);
        r := CopyEntry(orig, from, depth, n, names[..i - 1], before);
        if r != 0 {
          GrownAll(s, o, f, names[..i], before, nodes);
          return -1;
        }
        Truncate(orig, origLen);
        Truncate(from, fromLen);
        assert Join(o, n)[..origLen] == o && Join(f, n)[..fromLen] == f;
      }
      assert names[..i] == names;
      AllDone(s, o, f, depth, nodes);
      return 0;
    }

    /** One turn of the loop over the entries: the entry n of the directory named in orig. */
    method CopyEntry(orig: array<char>, from: array<char>, depth: nat, n: Name,
                     ghost done: seq<Name>, ghost before: map<string, File>) returns (r: int)
      requires s.Valid() && orig != from && orig.Length == from.Length == PATH_BUF
      requires Terminated(orig[..]) && Terminated(from[..])
      requires OnDev(Str(orig[..])) && Str(from[..]) == s.NewDev() + Str(orig[..])[|DEV|..]
      requires depth > 0 && s.IsDirectory(Str(orig[..])) && n in s.dev[Str(orig[..])].names && !Dot(n)
      requires s.Grown(Str(orig[..]), Str(from[..]), done, before, nodes)
      requires s.Copied(Str(orig[..]), Str(from[..]), depth, done, nodes)
      requires Join(Str(from[..]), n) !in nodes
      requires forall q | q in nodes :: !Under(Join(Str(from[..]), n), q)
      modifies this`nodes, orig, from
      ensures Terminated(orig[..]) && Terminated(from[..])
      ensures var o, f := old(Str(orig[..])), old(Str(from[..]));
        && s.Grown(o, f, done + [n], before, nodes)
        && (r == 0 ==>
              && Str(orig[..]) == Join(o, n) && Str(from[..]) == Join(f, n)
              && s.Copied(o, f, depth, done + [n], nodes))
        && (r != 0 ==> !s.AllCopyable(o, f, depth))
      decreases depth, 0
    {
      hide Setting.Valid, Setting.AllCopyable, Setting.Grown, Setting.Copied, Setting.InTree;
      hide Str, Setting.Filter, Setting.Expected, Terminated, Snprintf;
      ghost var o, f, was := Str(orig[..]), Str(from[..]), nodes;
      ghost var p, q := Join(o, n), Join(f, n);
      GrownMore(s, o, f, done, n, before, nodes);
      NotThisOne(s, o, f, depth, n);
      PathOne(o, n);
      PathOne(f, n);
      var status := TryAppend(orig, n);
      if status < 0 {
        return -1;
      }
      status := TryAppend(from, n);
      if status < 0 {
        return -1;
      }
      var path := Str(orig[..]);
      if path !in s.dev {
        return -1;
      }
      if s.dev[path].stat.kind == Directory {
        status := Create(Str(from[..]), Folder);
        if status < 0 {
          return -1;
        }
        AddEntry(s, o, f, done, n, before, was, Folder);
        ghost var mid := nodes;
        status := LinkDir(orig, from, depth - 1);
        AddSubtree(s, o, f, done, n, before, mid, nodes);
        if status < 0 {
          SubtreeFails(s, o, f, depth, n);
          return -1;
        }
        GrownKeeps(s, Join(o, n), Join(f, n), s.dev[path].names, mid, nodes);
        DirectoryCopied(s, o, f, depth, n, nodes);
        SubtreeCopied(s, o, f, depth, done, n, was, nodes);
        return 0;
      } else {
        status := CopyDevice(from, orig);
        if nodes != was {
          AddEntry(s, o, f, done, n, before, was, nodes[q]);
        }
        if status != 0 {
          return -1;
        }
        LeafCopied(s, o, f, depth, done, n, was, nodes);
        return 0;
      }
    }

    // ----- removal -----

    method RmCallback(path: string, directory: bool, level: nat)
      modifies this`nodes
      ensures nodes ==
        if level == 0 || path !in old(nodes) || directory != old(nodes)[path].Folder?
          || (directory && exists c | c in old(nodes) :: IsChild(path, c))
        then old(nodes) else old(nodes) - {path}
    {
      if level == 0 {
        return;
      }
      if directory {
        var r := Rmdir(path);
      } else {
        var r := Unlink(path);
      }
    }

    /** nftw: the files below a directory in any order, each directory after what is in it. */
    method Walk(path: string, level: nat)
      requires path in nodes && Closed(nodes, path)
      requires nodes[path].Folder? || forall q | q in nodes :: !Under(path, q)
      modifies this`nodes
      ensures nodes == Without(old(nodes), path, level == 0)
      decreases set q | q in nodes && Under(path, q)
    {
      hide IsChild, Under, Remaining;
      var directory := nodes[path].Folder?;
      ghost var was := nodes;
      if directory {
        var unvisited := set q | q in nodes && IsChild(path, q);
        AllRemaining(was, path);
        while unvisited != {}
          invariant forall c | c in unvisited :: c in was && IsChild(path, c)
          invariant nodes == Remaining(was, path, unvisited)
          decreases |unvisited|
        {
          var c :| c in unvisited;
          WalkInto(was, path, unvisited, c);
          Walk(c, level + 1);
          WalkedInto(was, path, unvisited, c);
          unvisited := unvisited - {c};
        }
        NoneRemaining(was, path);
      }
      RmCallback(path, directory, level);
    }

    method ClearNewDev()
      requires s.NewDev() in nodes && nodes[s.NewDev()] == Folder && Closed(nodes, s.NewDev())
      modifies this`nodes
      ensures nodes == Without(old(nodes), s.NewDev(), true)
    {
      Walk(s.NewDev(), 0);
    }

    method FillNewDev() returns (r: int)
      requires s.Valid() && forall q | q in nodes :: !Under(s.NewDev(), q)
      modifies this`nodes
      ensures r == 0 || r == -1
      ensures r == 0 <==> s.AllCopyable(DEV, s.NewDev(), DEPTH)
      ensures r == 0 ==> DEV in s.dev && s.Copied(DEV, s.NewDev(), DEPTH, s.dev[DEV].names, nodes)
      ensures DEV in s.dev ==> s.Grown(DEV, s.NewDev(), s.dev[DEV].names, old(nodes), nodes)
      ensures DEV !in s.dev ==> nodes == old(nodes)
    {
      hide Setting.Grown, Setting.Copied;
      var from := new char[PATH_BUF];
      var orig := new char[PATH_BUF];
      Strcpy(from, s.NewDev());
      Strcpy(orig, DEV);
      r := LinkDir(orig, from, DEPTH);
    }

    /** symlinks_new: either a complete copy, exactly when everything can be copied, or nothing at all. */
    method SymlinksNew() returns (r: int)
      requires s.Valid() && s.NewDev() in nodes && nodes[s.NewDev()] == Folder
      requires forall q | q in nodes :: !Under(s.NewDev(), q)
      modifies this`nodes
      ensures r == 0 <==> s.AllCopyable(DEV, s.NewDev(), DEPTH)
      ensures r == 0 ==> Complete(s, nodes)
      ensures r != 0 ==> nodes == old(nodes)
    {
      hide Setting.Copied, Setting.AllCopyable, Setting.Grown;
      ghost var was := nodes;
      r := FillNewDev();
      if r < 0 {
        if DEV in s.dev {
          ClearedAll(s, s.dev[DEV].names, was, nodes);
        }
        ClearNewDev();
        return -1;
      }
      AddedBelow(s, was, nodes);
    }
  }

  predicate OnDev(o: string)
  {
    o == DEV || Under(DEV, o)
  }

  // ----- what one entry adds -----

  lemma GrownStart(s: Setting, o: string, f: string, depth: nat, nodes: map<string, File>)
    requires forall q | q in nodes :: !Under(f, q)
    ensures s.Grown(o, f, [], nodes, nodes) && s.Copied(o, f, depth, [], nodes)
  {
  }

  lemma GrownAll(s: Setting, o: string, f: string, done: seq<Name>, before: map<string, File>, nodes: map<string, File>)
    requires s.Grown(o, f, done, before, nodes)
    requires o in s.dev && forall n | n in done :: n in s.dev[o].names
    ensures s.Grown(o, f, s.dev[o].names, before, nodes)
  {
    hide Setting.InTree, Closed;
    forall q | q in nodes && q !in before
      ensures s.Made(o, f, s.dev[o].names, q)
    {
      assert s.Made(o, f, done, q);
    }
  }

  lemma GrownKeeps(s: Setting, o: string, f: string, done: seq<Name>,
                   before: map<string, File>, nodes: map<string, File>)
    requires s.Grown(o, f, done, before, nodes)
    ensures forall q | q in before :: q in nodes && nodes[q] == before[q]
  {
  }

  lemma GrownMore(s: Setting, o: string, f: string, done: seq<Name>, n: Name,
                  before: map<string, File>, nodes: map<string, File>)
    requires s.Grown(o, f, done, before, nodes)
    ensures s.Grown(o, f, done + [n], before, nodes)
  {
    hide Setting.InTree, Closed;
    forall q | q in nodes && q !in before
      ensures s.Made(o, f, done + [n], q)
    {
      assert s.Made(o, f, done, q);
    }
  }

  lemma SkipDot(s: Setting, o: string, f: string, depth: nat, done: seq<Name>, n: Name,
                before: map<string, File>, nodes: map<string, File>)
    requires s.Grown(o, f, done, before, nodes) && s.Copied(o, f, depth, done, nodes) && Dot(n)
    ensures s.Grown(o, f, done + [n], before, nodes) && s.Copied(o, f, depth, done + [n], nodes)
  {
    hide Setting.Copyable, Closed, Setting.Grown;
    GrownMore(s, o, f, done, n, before, nodes);
  }

  /** Nothing that has been made so far is at or below a name that is still to come. */
  lemma NotYetThere(s: Setting, o: string, f: string, names: seq<Name>, i: nat,
                    before: map<string, File>, nodes: map<string, File>)
    requires i < |names| && forall j, k | 0 <= j < k < |names| :: names[j] != names[k]
    requires s.Grown(o, f, names[..i], before, nodes) && forall q | q in before :: !Under(f, q)
    ensures Join(f, names[i]) !in nodes
    ensures forall q | q in nodes :: !Under(Join(f, names[i]), q)
  {
    hide Setting.InTree, Closed;
    var n := names[i];
    forall q | q in nodes
      ensures q != Join(f, n) && !Under(Join(f, n), q)
    {
      if q in before {
        JoinUnder(f, n, q);
      } else {
        assert s.Made(o, f, names[..i], q);
        var cs: seq<Name> :| cs != [] && cs[0] in names[..i] && s.InTree(o, cs) && q == Path(f, cs);
        if q == Join(f, n) || Under(Join(f, n), q) {
          FirstName(f, n, cs);
        }
      }
    }
  }

  /** Nothing changed but, perhaps, one new file at q. */
  predicate OnlyAdded(q: string, before: map<string, File>, nodes: map<string, File>)
  {
    nodes == before || (q !in before && q in nodes && nodes == before[q := nodes[q]])
  }

  lemma AddEntry(s: Setting, o: string, f: string, done: seq<Name>, n: Name,
                 before: map<string, File>, nodes: map<string, File>, file: File)
    requires s.Grown(o, f, done, before, nodes) && Join(f, n) !in nodes
    requires s.IsDirectory(o) && n in s.dev[o].names && !Dot(n)
    ensures s.Grown(o, f, done + [n], before, nodes[Join(f, n) := file])
  {
    GrownMore(s, o, f, done, n, before, nodes);
    PathOne(f, n);
    assert s.InTree(o, [n]);
    assert s.Made(o, f, done + [n], Join(f, n));
  }

  /** What the recursion adds below the entry n, finished or not, belongs to the copy of o. */
  lemma AddSubtree(s: Setting, o: string, f: string, done: seq<Name>, n: Name,
                   before: map<string, File>, mid: map<string, File>, nodes: map<string, File>)
    requires s.IsDirectory(o) && n in s.dev[o].names && !Dot(n) && Join(o, n) in s.dev
    requires s.Grown(o, f, done + [n], before, mid)
    requires Join(f, n) in mid && mid[Join(f, n)] == Folder
    requires s.Grown(Join(o, n), Join(f, n), s.dev[Join(o, n)].names, mid, nodes)
    ensures s.Grown(o, f, done + [n], before, nodes)
  {
    forall q | q in nodes && q !in mid
      ensures s.Made(o, f, done + [n], q) && Under(Join(f, n), q)
    {
      assert s.Made(Join(o, n), Join(f, n), s.dev[Join(o, n)].names, q);
      var cs: seq<Name> :| cs != [] && s.InTree(Join(o, n), cs) && q == Path(Join(f, n), cs);
      assert ([n] + cs)[1..] == cs;
      assert s.InTree(o, [n] + cs) && Path(f, [n] + cs) == q;
      PathUnder(Join(f, n), cs);
    }
    SubtreeClosed(f, n, mid, nodes);
  }

  lemma SubtreeClosed(f: string, n: Name, mid: map<string, File>, nodes: map<string, File>)
    requires Closed(mid, f) && Closed(nodes, Join(f, n))
    requires Join(f, n) in mid && mid[Join(f, n)] == Folder
    requires forall q | q in mid :: q in nodes && nodes[q] == mid[q]
    requires forall q | q in nodes && q !in mid :: Under(Join(f, n), q)
    ensures Closed(nodes, f)
  {
    forall q, k | q in nodes && q !in mid && Under(f, q) && |f| < k < |q| && q[k] == '/'
      ensures q[..k] in nodes && nodes[q[..k]] == Folder
    {
      var d := Join(f, n);
      assert q[..|d| + 1] == d + "/";
      assert forall j | |f| < j < |d| :: q[..|d| + 1][j] == n[j - |f| - 1] && q[j] != '/';
      if k == |d| {
        assert q[..k] == d;
      }
    }
  }

  // ----- what can be copied -----

  lemma NotOpened(s: Setting, o: string, f: string, depth: nat)
    requires depth == 0 || !s.IsDirectory(o)
    ensures !s.AllCopyable(o, f, depth)
  {
  }

  /** An entry that cannot be copied spoils the whole. */
  lemma NotThisOne(s: Setting, o: string, f: string, depth: nat, n: Name)
    requires s.IsDirectory(o) && n in s.dev[o].names && !Dot(n)
    ensures !s.Copyable(o, f, depth, [n]) ==> !s.AllCopyable(o, f, depth)
  {
    hide Setting.Copyable;
    assert s.InTree(o, [n]);
  }

  /** Copying below an entry is copying with one name less and one level less. */
  lemma CopyableShift(s: Setting, o: string, f: string, depth: nat, n: Name, cs: seq<Name>)
    requires depth > 0
    ensures s.Copyable(o, f, depth, [n] + cs) <==> s.Copyable(Join(o, n), Join(f, n), depth - 1, cs)
    ensures Path(o, [n] + cs) == Path(Join(o, n), cs) && Path(f, [n] + cs) == Path(Join(f, n), cs)
  {
    hide Setting.Filter, Setting.Expected;
    assert ([n] + cs)[1..] == cs;
  }

  lemma SubtreeFails(s: Setting, o: string, f: string, depth: nat, n: Name)
    requires depth > 0 && s.IsDirectory(o) && n in s.dev[o].names && !Dot(n) && s.IsDirectory(Join(o, n))
    requires !s.AllCopyable(Join(o, n), Join(f, n), depth - 1)
    ensures !s.AllCopyable(o, f, depth)
  {
    if depth == 1 {
      NotThisOne(s, o, f, depth, n);
      PathOne(o, n);
      assert !s.Copyable(o, f, depth, [n]);
    } else {
      hide Setting.Copyable;
      var cs: seq<Name> :| cs != [] && s.InTree(Join(o, n), cs)
        && !s.Copyable(Join(o, n), Join(f, n), depth - 1, cs);
      CopyableShift(s, o, f, depth, n, cs);
      assert ([n] + cs)[1..] == cs;
      assert s.InTree(o, [n] + cs);
    }
  }

  lemma DirectoryCopied(s: Setting, o: string, f: string, depth: nat, n: Name, nodes: map<string, File>)
    requires depth > 0 && s.IsDirectory(Join(o, n)) && s.AllCopyable(Join(o, n), Join(f, n), depth - 1)
    requires |o| >= |DEV| && |Join(o, n)| < PATH_BUF && |Join(f, n)| < PATH_BUF
    requires Join(f, n) !in s.refused && Join(f, n) in nodes && nodes[Join(f, n)] == Folder
    ensures s.CopiedAt(o, f, depth, nodes, [n])
  {
    PathOne(o, n);
    PathOne(f, n);
  }

  lemma LeafCopied(s: Setting, o: string, f: string, depth: nat, done: seq<Name>, n: Name,
                   was: map<string, File>, nodes: map<string, File>)
    requires s.Copied(o, f, depth, done, was) && s.CopiedAt(o, f, depth, nodes, [n])
    requires !s.IsDirectory(Join(o, n))
    requires forall q | q in was :: q in nodes && nodes[q] == was[q]
    ensures s.Copied(o, f, depth, done + [n], nodes)
  {
    hide Setting.Copyable, Setting.Expected, Setting.Filter;
    forall cs: seq<Name> | cs != [] && cs[0] in done + [n] && s.InTree(o, cs)
      ensures s.CopiedAt(o, f, depth, nodes, cs)
    {
      if cs[0] in done {
        assert s.CopiedAt(o, f, depth, was, cs);
      } else {
        assert s.InTree(Join(o, n), cs[1..]);
        assert cs == [n];
      }
    }
  }

  lemma SubtreeCopied(s: Setting, o: string, f: string, depth: nat, done: seq<Name>, n: Name,
                      was: map<string, File>, nodes: map<string, File>)
    requires depth > 0 && s.Copied(o, f, depth, done, was) && s.IsDirectory(Join(o, n))
    requires s.CopiedAt(o, f, depth, nodes, [n])
    requires forall q | q in was :: q in nodes && nodes[q] == was[q]
    requires s.Copied(Join(o, n), Join(f, n), depth - 1, s.dev[Join(o, n)].names, nodes)
    ensures s.Copied(o, f, depth, done + [n], nodes)
  {
    hide Setting.Copyable, Setting.Filter, Setting.Expected;
    forall cs: seq<Name> | cs != [] && cs[0] in done + [n] && s.InTree(o, cs)
      ensures s.CopiedAt(o, f, depth, nodes, cs)
    {
      if cs[0] in done {
        assert s.CopiedAt(o, f, depth, was, cs);
      } else {
        assert cs == [n] + cs[1..];
        if cs[1..] == [] {
          assert cs == [n];
        } else {
          CopyableShift(s, o, f, depth, n, cs[1..]);
          assert s.InTree(Join(o, n), cs[1..]);
          assert s.CopiedAt(Join(o, n), Join(f, n), depth - 1, nodes, cs[1..]);
        }
      }
    }
  }

  lemma AllDone(s: Setting, o: string, f: string, depth: nat, nodes: map<string, File>)
    requires depth > 0 && s.IsDirectory(o) && s.Copied(o, f, depth, s.dev[o].names, nodes)
    ensures s.AllCopyable(o, f, depth)
  {
    hide Setting.Copyable, Setting.Expected, Setting.Filter;
    forall cs: seq<Name> | cs != [] && s.InTree(o, cs)
      ensures s.Copyable(o, f, depth, cs)
    {
      assert cs[0] in s.dev[o].names;
    }
  }

  // ----- what is removed -----

  /** The files without those below path, and without path itself unless it is kept. */
  function Without(m: map<string, File>, path: string, keep: bool): map<string, File>
  {
    map q | q in m && !Under(path, q) && (q != path || keep) :: m[q]
  }

  /** Where the component of q that starts at from ends. */
  function Slash(q: string, from: nat): (k: nat)
    requires from <= |q|
    ensures from <= k <= |q| && '/' !in q[from..k] && (k < |q| ==> q[k] == '/')
    decreases |q| - from
  {
    if from == |q| || q[from] == '/' then from
    else
      var k := Slash(q, from + 1);
      assert q[from..k] == [q[from]] + q[from + 1..k];
      k
  }

  /** The entry of the directory at or below which q lies. */
  function First(path: string, q: string): string
    requires Under(path, q)
  {
    q[..Slash(q, |path| + 1)]
  }

  lemma FirstIsChild(path: string, q: string)
    requires Under(path, q)
    ensures var c := First(path, q);
      IsChild(path, c) && (q == c || (Under(c, q) && |path| < |c| < |q| && q[|c|] == '/' && q[..|c|] == c))
  {
    var c := First(path, q);
    assert c[..|path| + 1] == path + "/";
    assert c[|path| + 1..] == q[|path| + 1..|c|];
    if |c| < |q| {
      assert q[..|c| + 1] == c + "/";
    }
  }

  lemma FirstUnique(path: string, c: string, q: string)
    requires IsChild(path, c) && (q == c || Under(c, q))
    ensures Under(path, q) && First(path, q) == c
  {
    assert q[..|c|] == c;
    assert q[..|path| + 1] == c[..|path| + 1];
    var k := |First(path, q)|;
    assert forall j | |path| < j < |c| :: c[|path| + 1..][j - |path| - 1] == q[j];
    assert forall j | |path| < j < k :: q[|path| + 1..k][j - |path| - 1] == q[j];
    assert q == c || q[..|c| + 1][|c|] == '/';
    assert k == |c|;
  }

  /** What is left while the entries in unvisited have not been walked yet. */
  ghost function Remaining(m: map<string, File>, path: string, unvisited: set<string>): map<string, File>
  {
    map q | q in m && (Under(path, q) ==> First(path, q) in unvisited) :: m[q]
  }

  lemma AllRemaining(m: map<string, File>, path: string)
    requires Closed(m, path)
    ensures Remaining(m, path, set q | q in m && IsChild(path, q)) == m
  {
    forall q | q in m && Under(path, q)
      ensures First(path, q) in m && IsChild(path, First(path, q))
    {
      FirstIsChild(path, q);
    }
  }

  lemma NoneRemaining(m: map<string, File>, path: string)
    ensures Remaining(m, path, {}) == Without(m, path, true)
    ensures forall c | c in Remaining(m, path, {}) :: !IsChild(path, c)
  {
  }

  lemma WalkInto(m: map<string, File>, path: string, unvisited: set<string>, c: string)
    requires Closed(m, path) && c in unvisited && c in m && IsChild(path, c)
    ensures var left := Remaining(m, path, unvisited);
      && c in left && Closed(left, c)
      && (left[c].Folder? || forall q | q in left :: !Under(c, q))
      && (set q | q in left && Under(c, q)) < (set q | q in m && Under(path, q))
  {
    hide IsChild, Under, First;
    var left := Remaining(m, path, unvisited);
    FirstUnique(path, c, c);
    forall q | q in left && Under(c, q)
      ensures m[c] == Folder && Under(path, q)
    {
      FirstUnique(path, c, q);
      FirstIsChild(path, q);
      NotUnderItself(c);
      assert q[..|c|] == c;
    }
    ChildClosed(m, path, unvisited, c);
    NotUnderItself(c);
    var below, all := set q | q in left && Under(c, q), set q | q in m && Under(path, q);
    assert below <= all && c in all && c !in below;
  }

  lemma NotUnderItself(c: string)
    ensures !Under(c, c)
  {
  }

  lemma ChildClosed(m: map<string, File>, path: string, unvisited: set<string>, c: string)
    requires Closed(m, path) && c in unvisited && IsChild(path, c)
    ensures Closed(Remaining(m, path, unvisited), c)
  {
    var left := Remaining(m, path, unvisited);
    forall q, k | q in left && Under(c, q) && |c| < k < |q| && q[k] == '/'
      ensures q[..k] in left && left[q[..k]] == Folder
    {
      FirstUnique(path, c, q);
      assert q[..k][..|c| + 1] == c + "/";
      FirstUnique(path, c, q[..k]);
    }
  }

  lemma WalkedInto(m: map<string, File>, path: string, unvisited: set<string>, c: string)
    requires c in unvisited && IsChild(path, c)
    ensures Without(Remaining(m, path, unvisited), c, false) == Remaining(m, path, unvisited - {c})
  {
    hide IsChild, Under, First;
    forall q | q in m
      ensures q == c || Under(c, q) <==> Under(path, q) && First(path, q) == c
    {
      if q == c || Under(c, q) {
        FirstUnique(path, c, q);
      } else if Under(path, q) {
        FirstIsChild(path, q);
      }
    }
  }

  lemma ClearedAll(s: Setting, names: seq<Name>, before: map<string, File>, nodes: map<string, File>)
    requires s.NewDev() in before && before[s.NewDev()] == Folder
    requires forall q | q in before :: !Under(s.NewDev(), q)
    requires s.Grown(DEV, s.NewDev(), names, before, nodes)
    ensures s.NewDev() in nodes && nodes[s.NewDev()] == Folder && Closed(nodes, s.NewDev())
    ensures Without(nodes, s.NewDev(), true) == before
  {
    hide Setting.InTree, Closed, Under;
    forall q | q in nodes && q !in before
      ensures Under(s.NewDev(), q)
    {
      assert s.Made(DEV, s.NewDev(), names, q);
      var cs: seq<Name> :| cs != [] && cs[0] in names && s.InTree(DEV, cs) && q == Path(s.NewDev(), cs);
      PathUnder(s.NewDev(), cs);
    }
  }

  lemma AddedBelow(s: Setting, before: map<string, File>, nodes: map<string, File>)
    requires DEV in s.dev && s.AllCopyable(DEV, s.NewDev(), DEPTH)
    requires forall q | q in before :: !Under(s.NewDev(), q)
    requires s.Grown(DEV, s.NewDev(), s.dev[DEV].names, before, nodes)
    requires s.Copied(DEV, s.NewDev(), DEPTH, s.dev[DEV].names, nodes)
    ensures Complete(s, nodes)
  {
    hide Setting.Copied, Setting.AllCopyable, Setting.Made;
  }
}
