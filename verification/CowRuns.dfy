/** Whole runs of the union filesystem: refinement of a flat file map, and which directories stay untouched. */
module CowRuns {
  import opened Sequences
  import opened CowLayer
  import opened CowOps
  import opened CowRefinement

  // ---------- the flat file system ----------

  /** The same operation on one flat map of contents. */
  function FlatApply(f: map<Path, Content>, op: Op, umask: Perm): map<Path, Content> {
    match op
    case Write(path, buf, offset) =>
      if path in f && f[path].FileContent? then f[path := f[path].(data := PWrite(f[path].data, buf, offset))] else f
    case Truncate(path, size) =>
      if path in f && f[path].FileContent? then f[path := f[path].(data := FTruncate(f[path].data, size))] else f
    case Chmod(path, mode) =>
      if path in f && f[path].FileContent? then f[path := f[path].(perm := mode.perm)] else f
    case MkNod(path, mode) => f[path := FileContent(mode.perm - umask, [])]
    case MkDir(path, _) => f[path := DirContent]
  }

  /** Contents without the permissions of files. */
  function Bare(f: map<Path, Content>): map<Path, Content> {
    map q | q in f :: if f[q].FileContent? then f[q].(perm := {}) else f[q]
  }

  lemma BareApply(f: map<Path, Content>, g: map<Path, Content>, op: Op, umask: Perm)
    requires Bare(f) == Bare(g)
    ensures Bare(FlatApply(f, op, umask)) == Bare(FlatApply(g, op, umask))
  {
    forall q | q in Bare(f)
      ensures q in f && q in g && f[q].FileContent? == g[q].FileContent?
      ensures f[q].FileContent? ==> f[q].data == g[q].data
    {
      assert Bare(f)[q] == Bare(g)[q];
    }
    assert f.Keys == Bare(f).Keys && g.Keys == Bare(g).Keys;
  }

  /** What the kernel checks before it passes an operation on: the ancestors are directories, a new name is new. */
  ghost predicate Issuable(view: Layer, op: Op) {
    Walkable(view, op.path) && (op.MkNod? || op.MkDir? ==> op.path !in view)
  }

  /**
    A successful operation does to the view what it does to a flat file map, a
    failing one nothing; permissions are as on the flat map exactly if copying up
    loses none.
   */
  lemma StepRefinesIff(fs: Fs, op: Op, dirSize: nat)
    requires fs.Valid() && Issuable(fs.View(), op)
    ensures var (ok, fs') := Apply(fs, op, dirSize);
      && fs'.Valid()
      && var flat := if ok then FlatApply(Contents(fs.View()), op, fs.umask) else Contents(fs.View());
        && Bare(Contents(fs'.View())) == Bare(flat)
        && (Contents(fs'.View()) == flat <==> (ok ==> ModeKept(fs, op)))
  {
    var (ok, fs') := Apply(fs, op, dirSize);
    TargetAsAskedIff(fs, op, dirSize);
    WalkableKeepsOthers(fs, op, dirSize);
    if ok {
      var n := fs'.View()[op.path];
      ContentsAfter(fs.View(), fs'.View(), op.path, true, n);
      AskedContent(fs, op);
      PutDiffers(Contents(fs.View()), op.path, ContentOf(n), ContentOf(Asked(fs, op)));
    } else {
      ContentsAfter(fs.View(), fs'.View(), op.path, false, Dir({}));
    }
  }

  lemma PutDiffers(f: map<Path, Content>, path: Path, c: Content, d: Content)
    requires c.FileContent? == d.FileContent? && (c.FileContent? ==> c.data == d.data)
    ensures Bare(f[path := c]) == Bare(f[path := d])
    ensures f[path := c] == f[path := d] <==> c == d
  {
    assert f[path := c][path] == c && f[path := d][path] == d;
  }

  lemma ContentsAfter(view: Layer, view': Layer, path: Path, changed: bool, n: Node)
    requires OthersKept(view, view', path)
    requires changed ==> path in view' && view'[path] == n
    requires !changed ==> (path in view' <==> path in view) && (path in view ==> view'[path] == view[path])
    ensures Contents(view') == if changed then Contents(view)[path := ContentOf(n)] else Contents(view)
  {
  }

  lemma AskedContent(fs: Fs, op: Op)
    requires fs.Valid() && (op.MkNod? || op.MkDir? || op.path in fs.View())
    ensures FlatApply(Contents(fs.View()), op, fs.umask) == Contents(fs.View())[op.path := ContentOf(Asked(fs, op))]
  {
    var f := Contents(fs.View());
    if op.path in f {
      assert f[op.path := f[op.path]] == f;
    }
  }

  /** The view stays a tree, so that a path with a directory as parent is always walkable. */
  lemma StepKeepsTree(fs: Fs, op: Op, dirSize: nat)
    requires fs.Valid() && Issuable(fs.View(), op) && IsTree(fs.View())
    ensures Apply(fs, op, dirSize).1.Valid() && IsTree(Apply(fs, op, dirSize).1.View())
  {
    var (ok, fs') := Apply(fs, op, dirSize);
    TargetAsAskedIff(fs, op, dirSize);
    WalkableKeepsOthers(fs, op, dirSize);
    forall q | q in fs'.View() && q != []
      ensures HasDir(fs'.View(), Parent(q))
    {
      assert Parent(q) == q[..|q| - 1];
      if q in fs.View() {
        assert HasDir(fs.View(), Parent(q));
      } else {
        assert q == op.path;
      }
      assert Parent(q) in fs.View() && fs.View()[Parent(q)].Dir?;
      if Parent(q) == op.path {
        assert ok ==> Asked(fs, op).Dir?;
      }
    }
    assert HasDir(fs'.View(), []) by {
      assert HasDir(fs.View(), []);
    }
  }

  /** The state after a run, and the results of its operations. */
  function RunOps(fs: Fs, ops: seq<Op>, dirSize: nat): (seq<bool>, Fs)
    requires fs.Valid()
    decreases |ops|
  {
    if ops == [] then ([], fs)
    else
      ApplyEffect(fs, ops[0], dirSize);
      var (ok, fs') := Apply(fs, ops[0], dirSize);
      var (oks, fs'') := RunOps(fs', ops[1..], dirSize);
      ([ok] + oks, fs'')
  }

  function FlatRun(f: map<Path, Content>, ops: seq<Op>, oks: seq<bool>, umask: Perm): map<Path, Content>
    requires |ops| == |oks|
    decreases |ops|
  {
    if ops == [] then f else FlatRun(if oks[0] then FlatApply(f, ops[0], umask) else f, ops[1..], oks[1..], umask)
  }

  lemma {:induction false} BareRun(f: map<Path, Content>, g: map<Path, Content>, ops: seq<Op>, oks: seq<bool>,
                                   umask: Perm)
    requires |ops| == |oks| && Bare(f) == Bare(g)
    ensures Bare(FlatRun(f, ops, oks, umask)) == Bare(FlatRun(g, ops, oks, umask))
    decreases |ops|
  {
    if ops != [] {
      BareApply(f, g, ops[0], umask);
      BareRun(if oks[0] then FlatApply(f, ops[0], umask) else f, if oks[0] then FlatApply(g, ops[0], umask) else g,
              ops[1..], oks[1..], umask);
    }
  }

  ghost predicate AllIssuable(fs: Fs, ops: seq<Op>, dirSize: nat)
    requires fs.Valid()
    decreases |ops|
  {
    ops != [] ==>
      && Issuable(fs.View(), ops[0])
      && (ApplyEffect(fs, ops[0], dirSize);
          AllIssuable(Apply(fs, ops[0], dirSize).1, ops[1..], dirSize))
  }

  /** No successful operation of the run loses permissions of the file it changes. */
  ghost predicate ModesKept(fs: Fs, ops: seq<Op>, dirSize: nat)
    requires fs.Valid()
    decreases |ops|
  {
    ops != [] ==>
      && (Apply(fs, ops[0], dirSize).0 ==> ModeKept(fs, ops[0]))
      && (ApplyEffect(fs, ops[0], dirSize);
          ModesKept(Apply(fs, ops[0], dirSize).1, ops[1..], dirSize))
  }

  /** At every moment of the run, the view is the flat file map to which the successful operations were applied. */
  ghost predicate FlatThroughout(fs: Fs, f: map<Path, Content>, ops: seq<Op>, dirSize: nat)
    requires fs.Valid()
    decreases |ops|
  {
    && Contents(fs.View()) == f
    && (ops != [] ==>
          (ApplyEffect(fs, ops[0], dirSize);
           var (ok, fs') := Apply(fs, ops[0], dirSize);
           FlatThroughout(fs', if ok then FlatApply(f, ops[0], fs.umask) else f, ops[1..], dirSize)))
  }

  /**
    Over every run of operations the kernel may issue, the stack of layers looks
    like a single file map to which the successful operations were applied. The
    permissions of files agree if no operation loses any.
   */
  lemma {:induction false} RunRefines(fs: Fs, ops: seq<Op>, dirSize: nat)
    requires fs.Valid() && AllIssuable(fs, ops, dirSize)
    ensures var (oks, fs') := RunOps(fs, ops, dirSize);
      && |oks| == |ops|
      && fs'.Valid()
      && var flat := FlatRun(Contents(fs.View()), ops, oks, fs.umask);
        && Bare(Contents(fs'.View())) == Bare(flat)
        && (ModesKept(fs, ops, dirSize) ==> Contents(fs'.View()) == flat)
        && (IsTree(fs.View()) ==> IsTree(fs'.View()))
    decreases |ops|
  {
    if ops != [] {
      StepRefinesIff(fs, ops[0], dirSize);
      ApplyEffect(fs, ops[0], dirSize);
      var (ok, fs1) := Apply(fs, ops[0], dirSize);
      if IsTree(fs.View()) {
        StepKeepsTree(fs, ops[0], dirSize);
      }
      RunRefines(fs1, ops[1..], dirSize);
      var f := Contents(fs.View());
      BareRun(Contents(fs1.View()), if ok then FlatApply(f, ops[0], fs.umask) else f, ops[1..],
              RunOps(fs1, ops[1..], dirSize).0, fs.umask);
    }
  }

  /** The view is the flat file map, permissions included, at every moment exactly if no operation loses any. */
  lemma {:induction false} ModesRefineIff(fs: Fs, ops: seq<Op>, dirSize: nat)
    requires fs.Valid() && AllIssuable(fs, ops, dirSize)
    ensures FlatThroughout(fs, Contents(fs.View()), ops, dirSize) <==> ModesKept(fs, ops, dirSize)
    decreases |ops|
  {
    if ops != [] {
      StepRefinesIff(fs, ops[0], dirSize);
      ApplyEffect(fs, ops[0], dirSize);
      ModesRefineIff(Apply(fs, ops[0], dirSize).1, ops[1..], dirSize);
    }
  }

  // ---------- which directories a run may write ----------

  datatype Call = FileOp(op: Op) | AddOverlay(path: string) | DelOverlay(path: string) | PopOverlay

  function Without(overlays: seq<string>, path: string): seq<string> {
    if overlays == [] then []
    else if overlays[0] == path then overlays[1..]
    else [overlays[0]] + Without(overlays[1..], path)
  }

  /** The overlay becomes the new top; one that is in the stack already moves there. */
  function Perform(fs: Fs, c: Call, dirSize: nat): (bool, Fs)
    requires fs.Valid()
  {
    match c
    case FileOp(op) => Apply(fs, op, dirSize)
    case AddOverlay(path) =>
      if path !in fs.disk then (false, fs)
      else (true, fs.(overlays := [path] + Without(fs.overlays, path)))
    case DelOverlay(path) => (path in fs.overlays, fs.(overlays := Without(fs.overlays, path)))
    case PopOverlay => if fs.overlays == [] then (false, fs) else (true, fs.(overlays := fs.overlays[1..]))
  }

  lemma {:induction false} WithoutMembers(overlays: seq<string>, path: string)
    ensures forall n :: n in Without(overlays, path) ==> n in overlays
    ensures path !in overlays ==> Without(overlays, path) == overlays
  {
    if overlays != [] {
      WithoutMembers(overlays[1..], path);
    }
  }

  lemma {:induction false} WithoutRemoves(overlays: seq<string>, path: string)
    requires NoDuplicates(overlays)
    ensures path !in Without(overlays, path) && NoDuplicates(Without(overlays, path))
    ensures forall n :: n in Without(overlays, path) <==> n in overlays && n != path
  {
    if overlays != [] {
      assert forall n :: n in overlays <==> n == overlays[0] || n in overlays[1..];
      WithoutRemoves(overlays[1..], path);
      var rest := Without(overlays[1..], path);
      assert overlays[0] !in overlays[1..];
      assert NoDuplicates([overlays[0]] + rest);
    }
  }

  lemma {:induction false} WithoutBetween(a: seq<string>, path: string, b: seq<string>)
    requires path !in a
    ensures Without(a + [path] + b, path) == a + b
  {
    var all := a + [path] + b;
    if a != [] {
      assert all[1..] == a[1..] + [path] + b;
      WithoutBetween(a[1..], path, b);
      assert a == [a[0]] + a[1..];
    } else {
      assert all[1..] == b;
    }
  }

  /** An overlay in the stack is taken out of it, and added again it moves to the top; the others keep their order. */
  lemma OverlayMoves(fs: Fs, a: seq<string>, path: string, b: seq<string>, dirSize: nat)
    requires fs.Valid() && NoDuplicates(fs.overlays) && fs.overlays == a + [path] + b
    ensures Perform(fs, DelOverlay(path), dirSize) == (true, fs.(overlays := a + b))
    ensures Perform(fs, AddOverlay(path), dirSize) == (true, fs.(overlays := [path] + a + b))
    ensures Perform(fs, PopOverlay, dirSize) == (true, fs.(overlays := fs.overlays[1..]))
  {
    var overlays := fs.overlays;
    assert overlays[|a|] == path && path in overlays;
    assert forall k :: 0 <= k < |a| ==> a[k] == overlays[k];
    WithoutBetween(a, path, b);
    Associative([path], a, b);
    assert path in fs.Stack();
  }

  /** A directory that is no overlay is put on top if it exists, and cannot be taken out. */
  lemma OverlayIsNew(fs: Fs, path: string, dirSize: nat)
    requires fs.Valid() && path !in fs.overlays
    ensures Perform(fs, DelOverlay(path), dirSize) == (false, fs)
    ensures Perform(fs, AddOverlay(path), dirSize) ==
      if path in fs.disk then (true, fs.(overlays := [path] + fs.overlays)) else (false, fs)
    ensures fs.overlays == [] ==> Perform(fs, PopOverlay, dirSize) == (false, fs)
  {
    WithoutMembers(fs.overlays, path);
  }

  /** Calls keep the file system valid, the overlays distinct, and every directory but the current top. */
  lemma PerformEffect(fs: Fs, c: Call, dirSize: nat)
    requires fs.Valid() && NoDuplicates(fs.overlays)
    ensures var fs' := Perform(fs, c, dirSize).1;
      && fs'.Valid() && NoDuplicates(fs'.overlays)
      && fs'.host == fs.host && fs'.master == fs.master && fs'.umask == fs.umask
      && fs'.disk.Keys == fs.disk.Keys
      && (forall n :: n in fs.disk && (c.FileOp? ==> n != fs.Stack()[0]) ==> fs'.disk[n] == fs.disk[n])
      && (forall n :: n in fs'.overlays ==> n in fs.overlays || c == AddOverlay(n))
  {
    match c
    case FileOp(op) => ApplyEffect(fs, op, dirSize);
    case AddOverlay(path) =>
      WithoutMembers(fs.overlays, path);
      WithoutRemoves(fs.overlays, path);
    case DelOverlay(path) =>
      WithoutMembers(fs.overlays, path);
      WithoutRemoves(fs.overlays, path);
    case PopOverlay =>
  }

  function Run(fs: Fs, calls: seq<Call>, dirSize: nat): Fs
    requires fs.Valid() && NoDuplicates(fs.overlays)
    decreases |calls|
  {
    if calls == [] then fs
    else
      PerformEffect(fs, calls[0], dirSize);
      Run(Perform(fs, calls[0], dirSize).1, calls[1..], dirSize)
  }

  /** The directory is the top of the stack at some file operation of the run. */
  ghost predicate WrittenIn(fs: Fs, calls: seq<Call>, dirSize: nat, n: string)
    requires fs.Valid() && NoDuplicates(fs.overlays)
    decreases |calls|
  {
    calls != [] &&
    (|| (calls[0].FileOp? && fs.Stack()[0] == n)
     || (PerformEffect(fs, calls[0], dirSize);
         WrittenIn(Perform(fs, calls[0], dirSize).1, calls[1..], dirSize, n)))
  }

  /** A directory that is never on top when a file operation runs is never changed, whatever overlays come and go. */
  lemma {:induction false} LowerLayersNeverChange(fs: Fs, calls: seq<Call>, dirSize: nat, n: string)
    requires fs.Valid() && NoDuplicates(fs.overlays) && n in fs.disk && !WrittenIn(fs, calls, dirSize, n)
    ensures var fs' := Run(fs, calls, dirSize);
      n in fs'.disk && fs'.disk[n] == fs.disk[n]
    decreases |calls|
  {
    if calls != [] {
      PerformEffect(fs, calls[0], dirSize);
      LowerLayersNeverChange(Perform(fs, calls[0], dirSize).1, calls[1..], dirSize, n);
    }
  }

  /** The master filesystem is never written, unless it is itself used as overlay or host directory. */
  lemma {:induction false} MasterNeverWritten(fs: Fs, calls: seq<Call>, dirSize: nat)
    requires fs.Valid() && NoDuplicates(fs.overlays)
    requires fs.master != fs.host && fs.master !in fs.overlays && AddOverlay(fs.master) !in calls
    ensures !WrittenIn(fs, calls, dirSize, fs.master)
    decreases |calls|
  {
    if calls != [] {
      assert fs.Stack()[0] in fs.overlays || fs.Stack()[0] == fs.host;
      PerformEffect(fs, calls[0], dirSize);
      MasterNeverWritten(Perform(fs, calls[0], dirSize).1, calls[1..], dirSize);
    }
  }

  // ---------- undoing what was done on an overlay ----------

  lemma {:induction false} FileOpsChangeTop(fs: Fs, calls: seq<Call>, dirSize: nat)
    requires fs.Valid() && NoDuplicates(fs.overlays) && forall c :: c in calls ==> c.FileOp?
    ensures var fs', n := Run(fs, calls, dirSize), fs.Stack()[0];
      && fs'.Valid() && NoDuplicates(fs'.overlays) && n in fs'.disk
      && fs' == fs.(disk := fs.disk[n := fs'.disk[n]])
    decreases |calls|
  {
    if calls == [] {
      assert fs.disk[fs.Stack()[0] := fs.Top()] == fs.disk;
    } else {
      ApplyEffect(fs, calls[0].op, dirSize);
      var fs1 := Perform(fs, calls[0], dirSize).1;
      assert fs1.Stack() == fs.Stack();
      FileOpsChangeTop(fs1, calls[1..], dirSize);
    }
  }

  lemma {:induction false} RunSplits(fs: Fs, calls: seq<Call>, more: seq<Call>, dirSize: nat)
    requires fs.Valid() && NoDuplicates(fs.overlays)
    ensures var fs' := Run(fs, calls, dirSize);
      && fs'.Valid() && NoDuplicates(fs'.overlays)
      && Run(fs, calls + more, dirSize) == Run(fs', more, dirSize)
    decreases |calls|
  {
    if calls == [] {
      assert calls + more == more;
    } else {
      assert (calls + more)[1..] == calls[1..] + more;
      PerformEffect(fs, calls[0], dirSize);
      RunSplits(Perform(fs, calls[0], dirSize).1, calls[1..], more, dirSize);
    }
  }

  /**
    What overlays are for: with a directory that is not in the stack yet as a new
    overlay, popping it after any file operations undoes them all. Only that
    directory is changed, and the view is the one before.
   */
  lemma PopUndoes(fs: Fs, n: string, calls: seq<Call>, dirSize: nat)
    requires fs.Valid() && NoDuplicates(fs.overlays) && n in fs.disk && n !in fs.Stack()
    requires forall c :: c in calls ==> c.FileOp?
    ensures var fs' := Run(fs, [AddOverlay(n)] + calls + [PopOverlay], dirSize);
      && fs'.Valid() && n in fs'.disk && fs' == fs.(disk := fs.disk[n := fs'.disk[n]])
      && fs'.Stack() == fs.Stack() && fs'.View() == fs.View()
  {
    assert forall m :: m in fs.overlays ==> m in fs.Stack();
    WithoutMembers(fs.overlays, n);
    PerformEffect(fs, AddOverlay(n), dirSize);
    var top := Perform(fs, AddOverlay(n), dirSize).1;
    assert top == fs.(overlays := [n] + fs.overlays);
    FileOpsChangeTop(top, calls, dirSize);
    var done := Run(top, calls, dirSize);
    var fs' := done.(overlays := fs.overlays);
    assert Perform(done, PopOverlay, dirSize).1 == fs' by {
      assert done.overlays[1..] == fs.overlays;
    }
    PerformEffect(done, PopOverlay, dirSize);
    RunsInTurn(fs, AddOverlay(n), calls, PopOverlay, dirSize);
    assert fs'.Layers() == fs.Layers();
  }

  lemma RunsInTurn(fs: Fs, first: Call, calls: seq<Call>, last: Call, dirSize: nat)
    requires fs.Valid() && NoDuplicates(fs.overlays)
    ensures var fs1 := Perform(fs, first, dirSize).1;
      && fs1.Valid() && NoDuplicates(fs1.overlays)
      && var fs2 := Run(fs1, calls, dirSize);
        && fs2.Valid() && NoDuplicates(fs2.overlays)
        && Perform(fs2, last, dirSize).1.Valid()
        && Run(fs, [first] + calls + [last], dirSize) == Perform(fs2, last, dirSize).1
  {
    PerformEffect(fs, first, dirSize);
    var fs1 := Perform(fs, first, dirSize).1;
    assert ([first] + calls + [last])[1..] == calls + [last];
    RunSplits(fs1, calls, [last], dirSize);
    PerformEffect(Run(fs1, calls, dirSize), last, dirSize);
    assert [last][1..] == [];
  }
}
