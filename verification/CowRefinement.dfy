/**
  The stack of layers refines one flat file map: what each operation does to
  the view, when it succeeds, and what a whole run leaves unchanged.
 */
module CowRefinement {
  import opened CowLayer
  import opened CowView
  import opened CowOps

  /** Existence, kind, permissions and data of a node; the permissions of directories are left out. */
  datatype Content = DirContent | FileContent(perm: Perm, data: Bytes)

  function ContentOf(n: Node): Content {
    if n.Dir? then DirContent else FileContent(n.perm, n.data)
  }

  function Contents(l: Layer): map<Path, Content> {
    map q | q in l :: ContentOf(l[q])
  }

  /** Every ancestor of the path is a directory of the view, as path resolution requires. */
  ghost predicate Walkable(view: Layer, path: Path) {
    forall j :: 0 <= j < |path| ==> HasDir(view, path[..j])
  }

  ghost predicate OthersKept(view: Layer, view': Layer, path: Path) {
    forall q :: q != path ==> (q in view <==> q in view') && (q in view ==> ContentOf(view[q]) == ContentOf(view'[q]))
  }

  // ---------- the view after an operation ----------

  lemma ViewAfter(fs: Fs, fs': Fs, path: Path, q: Path)
    requires fs.Valid() && fs'.Valid() && Touches(fs, fs', path)
    ensures q in fs'.Top() ==> q in fs'.View() && fs'.View()[q] == fs'.Top()[q]
    ensures q !in fs'.Top() ==>
      (q in fs'.View() <==> q in fs.View()) && (q in fs.View() ==> fs'.View()[q] == fs.View()[q])
    ensures q in fs.Top() ==> q in fs.View() && fs.View()[q] == fs.Top()[q]
  {
    assert fs'.Stack() == fs.Stack();
    TopChangeInView(fs.disk, fs.Stack(), fs'.Top(), q);
  }

  lemma RdInView(fs: Fs, path: Path, q: Path)
    requires fs.Valid() && q in fs.Rd(path)
    ensures q in fs.View()
  {
    LookupIsMerged(fs.Layers(), q);
    assert fs.Layers()[GetRd(fs.Layers(), path)] == fs.Rd(path);
  }

  /** Only the path itself and ancestors cloned as directories can look different afterwards. */
  lemma OnlyAncestorsChange(fs: Fs, fs': Fs, path: Path, q: Path)
    requires fs.Valid() && fs'.Valid() && Touches(fs, fs', path) && q != path
    ensures q in fs.View() <==> q in fs'.View()
    ensures q in fs'.Top() && q !in fs.Top() ==> q < path && q in fs.View() && fs'.View()[q].Dir?
    ensures !(q in fs'.Top() && q !in fs.Top()) && q in fs.View() ==> fs'.View()[q] == fs.View()[q]
  {
    ViewAfter(fs, fs', path, q);
    if q in fs'.Top() && q !in fs.Top() {
      RdInView(fs, path, q);
    }
  }

  /**
    An operation on a path whose ancestors are directories leaves existence, kind
    and contents of every other path and the permissions of every other file
    alone, whether it succeeds or not.
   */
  lemma WalkableKeepsOthers(fs: Fs, op: Op, dirSize: nat)
    requires fs.Valid() && Walkable(fs.View(), op.path)
    ensures OthersKept(fs.View(), Apply(fs, op, dirSize).1.View(), op.path)
  {
    var fs' := Apply(fs, op, dirSize).1;
    ApplyEffect(fs, op, dirSize);
    forall q | q != op.path
      ensures q in fs.View() <==> q in fs'.View()
      ensures q in fs.View() ==> ContentOf(fs.View()[q]) == ContentOf(fs'.View()[q])
    {
      OnlyAncestorsChange(fs, fs', op.path, q);
      if q in fs'.Top() && q !in fs.Top() {
        assert op.path[..|q|] == q;
      }
    }
  }

  /**
    For a successful operation that changed anything the condition is exact: a
    cloned directory hides a file that an intermediate layer has at an ancestor.
   */
  lemma OthersKeptIffWalkable(fs: Fs, op: Op, dirSize: nat)
    requires fs.Valid()
    ensures var (ok, fs') := Apply(fs, op, dirSize);
      ok && fs' != fs ==> (OthersKept(fs.View(), fs'.View(), op.path) <==> Walkable(fs.View(), op.path))
  {
    var (ok, fs') := Apply(fs, op, dirSize);
    ApplyEffect(fs, op, dirSize);
    if ok && fs' != fs {
      if Walkable(fs.View(), op.path) {
        WalkableKeepsOthers(fs, op, dirSize);
      }
      if OthersKept(fs.View(), fs'.View(), op.path) {
        forall j | 0 <= j < |op.path|
          ensures HasDir(fs.View(), op.path[..j])
        {
          var q := op.path[..j];
          AncestorsAreDirs(fs'.Top(), op.path, j);
          ViewAfter(fs, fs', op.path, q);
          assert q != op.path;
        }
      }
    }
  }

  /** One overlay on top of host and master. */
  function Stacked(over: Layer, host: Layer, master: Layer, umask: Perm): Fs {
    Fs(map["over" := over, "host" := host, "master" := master], ["over"], "host", "master", umask)
  }

  lemma StackedView(over: Layer, host: Layer, master: Layer, umask: Perm, path: Path)
    requires IsTree(over) && IsTree(host) && IsTree(master)
    ensures var fs := Stacked(over, host, master, umask);
      && fs.Valid() && fs.Top() == over && fs.disk[fs.master] == master
      && fs.Rd(path) == (if path in over then over else if path in host then host else master)
      && (path in fs.View() <==> path in fs.Rd(path))
      && (path in fs.View() ==> fs.View()[path] == fs.Rd(path)[path])
  {
    var fs := Stacked(over, host, master, umask);
    assert fs.Stack() == ["over", "host", "master"];
    LookupIsMerged(fs.Layers(), path);
  }

  const ROOT: Layer := map[[] := Dir({})]

  /**
    Writing to a/b, which the master filesystem has, hides the file `a` that the
    host has. Path resolution stops at that file, so no caller gets there.
   */
  lemma CloningHidesFile()
    ensures var path := ["a", "b"];
      var fs := Stacked(ROOT, ROOT[["a"] := File({}, [])], ROOT[["a"] := Dir({})][path := File({}, [])], {});
      && fs.Valid() && HasFile(fs.View(), ["a"]) && !Walkable(fs.View(), path)
      && var (ok, fs') := Apply(fs, Write(path, [], 0), 0);
        ok && fs'.Valid() && !OthersKept(fs.View(), fs'.View(), path)
  {
    var path := ["a", "b"];
    var host, master := ROOT[["a"] := File({}, [])], ROOT[["a"] := Dir({})][path := File({}, [])];
    assert Parent(["a"]) == [] && Parent(path) == ["a"] == path[..1];
    var fs := Stacked(ROOT, host, master, {});
    StackedView(ROOT, host, master, {}, ["a"]);
    StackedView(ROOT, host, master, {}, path);
    WriteSucceedsIff(fs, path, [], 0);
    var fs' := Apply(fs, Write(path, [], 0), 0).1;
    ApplyEffect(fs, Write(path, [], 0), 0);
    ViewAfter(fs, fs', path, ["a"]);
    AncestorsAreDirs(fs'.Top(), path, 1);
  }

  /** An ancestor the top layer lacks is cloned with the permissions the view shows. */
  ghost predicate AncestorModesKept(fs: Fs, path: Path)
    requires fs.Valid()
  {
    forall j :: 0 <= j < |path| && path[..j] !in fs.Top() && path[..j] in fs.View() ==>
      path[..j] in fs.Rd(path) && fs.Rd(path)[path[..j]].perm - fs.umask == fs.View()[path[..j]].perm
  }

  /** How an ancestor the top layer lacked looks after an operation that left something at its path. */
  lemma ClonedAncestor(fs: Fs, fs': Fs, path: Path, j: nat)
    requires fs.Valid() && fs'.Valid() && Touches(fs, fs', path) && path in fs'.Top()
    requires j < |path| && path[..j] !in fs.Top()
    ensures path[..j] in fs.Rd(path) && path[..j] in fs.View() && path[..j] in fs'.View()
    ensures fs'.View()[path[..j]] == Dir(fs.Rd(path)[path[..j]].perm - fs.umask)
  {
    AncestorsAreDirs(fs'.Top(), path, j);
    ViewAfter(fs, fs', path, path[..j]);
    RdInView(fs, path, path[..j]);
  }

  /**
    Permissions of the other paths are kept as well exactly if the ancestors that
    are cloned lose none to the umask, and are cloned from where they are seen or alike.
   */
  lemma OtherModesKeptIff(fs: Fs, op: Op, dirSize: nat)
    requires fs.Valid() && Walkable(fs.View(), op.path)
    ensures var (ok, fs') := Apply(fs, op, dirSize);
      ok && fs' != fs ==>
        ((forall q :: q in fs.View() && q != op.path ==> q in fs'.View() && fs'.View()[q] == fs.View()[q])
         <==> AncestorModesKept(fs, op.path))
  {
    var (ok, fs') := Apply(fs, op, dirSize);
    ApplyEffect(fs, op, dirSize);
    if ok && fs' != fs {
      OthersAfter(fs, fs', op.path);
      forall j | 0 <= j < |op.path| && op.path[..j] !in fs.Top()
        ensures op.path[..j] in fs.View() && op.path[..j] in fs.Rd(op.path) && fs.View()[op.path[..j]].Dir?
        ensures op.path[..j] in fs'.View()
        ensures fs'.View()[op.path[..j]] == Dir(fs.Rd(op.path)[op.path[..j]].perm - fs.umask)
      {
        ClonedAncestor(fs, fs', op.path, j);
        assert HasDir(fs.View(), op.path[..j]);
      }
    }
  }

  /** A file in a directory with a permission. */
  const FILE_IN_DIR: Layer := ROOT[["d"] := Dir({1})][["d", "f"] := File({}, [])]

  lemma FileInDirSeen()
    ensures var fs := Stacked(ROOT, FILE_IN_DIR, ROOT, {1});
      && fs.Valid() && fs.Top() == ROOT && fs.Rd(["d", "f"]) == FILE_IN_DIR
      && HasFile(fs.View(), ["d", "f"]) && Walkable(fs.View(), ["d", "f"])
      && ["d"] in fs.View() && fs.View()[["d"]] == Dir({1})
  {
    var path := ["d", "f"];
    assert Parent(["d"]) == [] == path[..0] && Parent(path) == ["d"] == path[..1];
    StackedView(ROOT, FILE_IN_DIR, ROOT, {1}, []);
    StackedView(ROOT, FILE_IN_DIR, ROOT, {1}, ["d"]);
    StackedView(ROOT, FILE_IN_DIR, ROOT, {1}, path);
  }

  /** Writing to that file in a lower layer takes the permission away from the directory. */
  lemma CloningDropsPermissions()
    ensures var fs, path := Stacked(ROOT, FILE_IN_DIR, ROOT, {1}), ["d", "f"];
      && fs.Valid() && Walkable(fs.View(), path) && ["d"] in fs.View() && fs.View()[["d"]] == Dir({1})
      && var (ok, fs') := Apply(fs, Write(path, [], 0), 0);
        ok && fs'.Valid() && ["d"] in fs'.View() && fs'.View()[["d"]] == Dir({})
  {
    var fs, path := Stacked(ROOT, FILE_IN_DIR, ROOT, {1}), ["d", "f"];
    FileInDirSeen();
    assert path[..0] == [] && path[..1] == ["d"];
    WriteSucceedsIff(fs, path, [], 0);
    ApplyEffect(fs, Write(path, [], 0), 0);
    ClonedAncestor(fs, Apply(fs, Write(path, [], 0), 0).1, path, 1);
  }

  lemma OthersAfter(fs: Fs, fs': Fs, path: Path)
    requires fs.Valid() && fs'.Valid() && Touches(fs, fs', path)
    ensures forall q :: q in fs.View() && q != path ==>
      q in fs'.View() &&
      (fs'.View()[q] == fs.View()[q] || exists j :: 0 <= j < |path| && q == path[..j] && q !in fs.Top())
  {
    forall q | q in fs.View() && q != path
      ensures q in fs'.View()
      ensures fs'.View()[q] == fs.View()[q] || exists j :: 0 <= j < |path| && q == path[..j] && q !in fs.Top()
    {
      OnlyAncestorsChange(fs, fs', path, q);
      if q in fs'.Top() && q !in fs.Top() {
        assert path[..|q|] == q;
      }
    }
  }

  /** The data of a file is changed in the top layer already, or there are no permissions the umask can take away. */
  ghost predicate ModeKept(fs: Fs, op: Op)
    requires fs.Valid()
  {
    CopiesUp(fs, op) ==> fs.View()[op.path].perm !! fs.umask
  }

  /**
    A successful operation leaves the target as asked but for permissions lost in
    copying up, a failing one leaves it alone. Nothing is lost exactly if the file
    was in the top layer before or has no permission the umask denies.
   */
  lemma TargetAsAskedIff(fs: Fs, op: Op, dirSize: nat)
    requires fs.Valid()
    ensures var (ok, fs') := Apply(fs, op, dirSize);
      && fs'.Valid()
      && (ok ==>
            && (op.MkNod? || op.MkDir? || op.path in fs.View()) && op.path in fs'.View()
            && fs'.View()[op.path] == Asked(fs, op).(perm := fs'.View()[op.path].perm)
            && (fs'.View()[op.path] == Asked(fs, op) <==> ModeKept(fs, op)))
      && (!ok ==> (op.path in fs'.View() <==> op.path in fs.View())
                  && (op.path in fs.View() ==> fs'.View()[op.path] == fs.View()[op.path]))
  {
    ApplyEffect(fs, op, dirSize);
    ViewAfter(fs, Apply(fs, op, dirSize).1, op.path, op.path);
  }

  /** After a successful write the file reads as the buffer where it was written, as before elsewhere; a gap is zero. */
  lemma WrittenBytes(fs: Fs, path: Path, buf: Bytes, offset: nat, i: nat)
    requires fs.Valid() && Apply(fs, Write(path, buf, offset), 0).0
    ensures var fs' := Apply(fs, Write(path, buf, offset), 0).1;
      && fs'.Valid() && HasFile(fs.View(), path) && HasFile(fs'.View(), path)
      && var before, after := fs.View()[path].data, fs'.View()[path].data;
        && |after| == (if buf == [] || offset + |buf| <= |before| then |before| else offset + |buf|)
        && (i < |after| ==>
              after[i] ==
              if offset <= i < offset + |buf| then buf[i - offset] else if i < |before| then before[i] else 0)
  {
    TargetAsAskedIff(fs, Write(path, buf, offset), 0);
    WriteSucceedsIff(fs, path, buf, offset);
    var before := fs.View()[path].data;
    PWriteBytes(before, buf, offset, i);
  }

  /** After a successful truncation of a file its first bytes are kept, up to the size asked for; new ones are zero. */
  lemma TruncatedBytes(fs: Fs, path: Path, size: nat, dirSize: nat, i: nat)
    requires fs.Valid() && HasFile(fs.View(), path) && Apply(fs, Truncate(path, size), dirSize).0
    ensures var fs' := Apply(fs, Truncate(path, size), dirSize).1;
      && fs'.Valid() && HasFile(fs'.View(), path)
      && var before, after := fs.View()[path].data, fs'.View()[path].data;
        && |after| == size
        && (i < size ==> after[i] == if i < |before| then before[i] else 0)
  {
    TargetAsAskedIff(fs, Truncate(path, size), dirSize);
    FTruncateBytes(fs.View()[path].data, size, i);
  }

  /** Writing no bytes at all to a file of a lower layer takes away a permission. */
  lemma WriteDropsPermissions()
    ensures var path := ["f"];
      var fs := Stacked(ROOT, ROOT[path := File({1, 4}, [])], ROOT, {1});
      && fs.Valid() && path in fs.View() && fs.View()[path] == File({1, 4}, [])
      && var (ok, fs') := Apply(fs, Write(path, [], 0), 0);
        ok && fs'.Valid() && path in fs'.View() && fs'.View()[path] == File({4}, [])
  {
    var path := ["f"];
    var fs := Stacked(ROOT, ROOT[path := File({1, 4}, [])], ROOT, {1});
    assert Parent(path) == [] == path[..0];
    StackedView(ROOT, ROOT[path := File({1, 4}, [])], ROOT, {1}, path);
    WriteSucceedsIff(fs, path, [], 0);
    ApplyEffect(fs, Write(path, [], 0), 0);
    ViewAfter(fs, Apply(fs, Write(path, [], 0), 0).1, path, path);
    assert {1, 4} - {1} == {4};
  }

  // ---------- when operations succeed ----------

  /** No file of the top layer sits where the path needs a directory. */
  ghost predicate Unobstructed(fs: Fs, path: Path)
    requires fs.Valid()
  {
    forall j :: 0 <= j < |path| && path[..j] in fs.Top() ==> fs.Top()[path[..j]].Dir?
  }

  lemma CopySucceedsIff(fs: Fs, path: Path)
    requires fs.Valid()
    ensures Copy(fs, path).0 <==>
      path in fs.Top() || (HasFile(fs.View(), path) && Unobstructed(fs, path))
  {
    RdIsView(fs, path);
    var rd, top := fs.Rd(path), fs.Top();
    if path !in top && path in rd {
      assert path != [] by {
        assert [] in top;
      }
      assert rd == fs.Layers()[GetRd(fs.Layers(), path)] && IsTree(rd);
      CloneTouches(fs, path);
      assert path[..0] == [] && [] in top;
      CloneSucceedsIff(rd, top, path, 1, fs.umask);
      forall j | 0 <= j < |path|
        ensures Clonable(rd, top, path, j) <==> (path[..j] in top ==> top[path[..j]].Dir?)
      {
        AncestorsAreDirs(rd, path, j);
      }
    }
  }

  /** Writing succeeds exactly for a file of the view no file of the top layer obstructs. */
  lemma WriteSucceedsIff(fs: Fs, path: Path, buf: Bytes, offset: nat)
    requires fs.Valid()
    ensures Apply(fs, Write(path, buf, offset), 0).0 <==> HasFile(fs.View(), path) && Unobstructed(fs, path)
  {
    CopySucceedsIff(fs, path);
    CopyEffect(fs, path);
    RdIsView(fs, path);
    UpdateEffect(fs, Copy(fs, path).1, path, data => PWrite(data, buf, offset));
    if path in fs.Top() {
      TopIsUnobstructed(fs, path);
    }
  }

  /** A file of the top layer has directories as ancestors there. */
  lemma TopIsUnobstructed(fs: Fs, path: Path)
    requires fs.Valid() && path in fs.Top()
    ensures Unobstructed(fs, path)
  {
    forall j | 0 <= j < |path| && path[..j] in fs.Top()
      ensures fs.Top()[path[..j]].Dir?
    {
      AncestorsAreDirs(fs.Top(), path, j);
    }
  }

  /** Truncation to the size that is there succeeds for directories too, any other where writing does. */
  lemma TruncateSucceedsIff(fs: Fs, path: Path, size: nat, dirSize: nat)
    requires fs.Valid()
    ensures Apply(fs, Truncate(path, size), dirSize).0 <==>
      || (HasDir(fs.View(), path) && size == dirSize)
      || (HasFile(fs.View(), path) && (size == |fs.View()[path].data| || Unobstructed(fs, path)))
  {
    CopySucceedsIff(fs, path);
    CopyEffect(fs, path);
    RdIsView(fs, path);
    UpdateEffect(fs, Copy(fs, path).1, path, data => FTruncate(data, size));
    if path in fs.Top() {
      TopIsUnobstructed(fs, path);
    }
  }

  /**
    The mode of what the top layer has can always be set, that of a file below it
    where writing succeeds. A directory below it can only be given the mode it has.
   */
  lemma ChmodSucceedsIff(fs: Fs, path: Path, mode: Mode, dirSize: nat)
    requires fs.Valid()
    ensures Apply(fs, Chmod(path, mode), dirSize).0 <==>
      path in fs.View() &&
      (fs.View()[path].StMode() == mode || path in fs.Top() || (fs.View()[path].File? && Unobstructed(fs, path)))
  {
    CopySucceedsIff(fs, path);
    CopyEffect(fs, path);
    RdIsView(fs, path);
  }

  /**
    A file or directory can be created exactly if the top layer lacks the path
    and every ancestor is a directory of the top layer or, where the top layer
    has nothing, exists in the layer the path itself is read from.
   */
  lemma MakeSucceedsIff(fs: Fs, path: Path, mode: Mode)
    requires fs.Valid()
    ensures var makeable :=
        path !in fs.Top() && forall j :: 0 <= j < |path| ==> Clonable(fs.Rd(path), fs.Top(), path, j);
      && (Apply(fs, MkDir(path, mode), 0).0 <==> makeable)
      && (Apply(fs, MkNod(path, mode), 0).0 <==> makeable && mode.kind == Regular)
  {
    CloneTouches(fs, path);
    if path == [] {
      assert [] in fs.Top();
    } else {
      assert path[..0] == [] && [] in fs.Top();
      CloneSucceedsIff(fs.Rd(path), fs.Top(), path, 1, fs.umask);
    }
  }

  /**
    A new path is read from the master filesystem, so creation in a directory
    of the view fails exactly if an ancestor exists only in layers between the
    top and the master.
   */
  lemma MakeNewSucceedsIff(fs: Fs, path: Path, mode: Mode)
    requires fs.Valid() && path !in fs.View() && Walkable(fs.View(), path)
    ensures Apply(fs, MkDir(path, mode), 0).0 <==>
      forall j :: 0 <= j < |path| ==> path[..j] in fs.Top() || path[..j] in fs.disk[fs.master]
  {
    MakeSucceedsIff(fs, path, mode);
    RdIsView(fs, path);
    forall j | 0 <= j < |path|
      ensures Clonable(fs.Rd(path), fs.Top(), path, j) <==> path[..j] in fs.Top() || path[..j] in fs.disk[fs.master]
    {
      assert HasDir(fs.View(), path[..j]);
      RdIsView(fs, path[..j]);
    }
  }

  /** A directory that only the host layer has accepts no new entries once there is an overlay. */
  lemma MkDirBelowMiddleLayerFails()
    ensures var fs := Stacked(ROOT, ROOT[["a"] := Dir({})], ROOT, {});
      && fs.Valid() && HasDir(fs.View(), ["a"]) && ["a", "b"] !in fs.View()
      && !Apply(fs, MkDir(["a", "b"], Mode(Directory, {})), 0).0
  {
    var host, path := ROOT[["a"] := Dir({})], ["a", "b"];
    assert Parent(["a"]) == [] && path[..1] == ["a"];
    StackedView(ROOT, host, ROOT, {}, ["a"]);
    StackedView(ROOT, host, ROOT, {}, path);
    var fs := Stacked(ROOT, host, ROOT, {});
    MakeSucceedsIff(fs, path, Mode(Directory, {}));
    assert !Clonable(fs.Rd(path), fs.Top(), path, 1);
  }
}
