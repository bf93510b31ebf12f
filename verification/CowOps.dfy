/**
  The modifying operations of the union filesystem (cowfs.c) as functions on the
  disk and the stack of layers: copy-up, write, truncate, chmod, mknod and mkdir.
  For each the effect on the top layer is worked out, as the basis for the
  refinement of one flat file map: what happens to the target, and that besides
  it at most missing ancestors appear. No layer below the top one takes part.
 */
module CowOps {
  import opened Wrappers
  import opened CowLayer
  import opened CowView

  /** The directories on disk by name, the stack of overlays on top of host and master, and the umask. */
  datatype Fs = Fs(disk: map<string, Layer>, overlays: seq<string>, host: string, master: string, umask: Perm) {
    function Stack(): seq<string> {
      overlays + [host, master]
    }

    ghost predicate Valid() {
      && (forall n :: n in Stack() ==> n in disk)
      && (forall n :: n in disk ==> IsTree(disk[n]))
    }

    function Layers(): seq<Layer>
      requires forall n :: n in Stack() ==> n in disk
    {
      CowView.Layers(disk, Stack())
    }

    /** The layer written to: the first overlay, or the host filesystem if there is none. */
    function Top(): Layer
      requires forall n :: n in Stack() ==> n in disk
    {
      disk[Stack()[0]]
    }

    function View(): Layer
      requires forall n :: n in Stack() ==> n in disk
    {
      Merged(Layers())
    }

    /** The layer a path is read from; the master filesystem if no layer has it. */
    function Rd(path: Path): Layer
      requires forall n :: n in Stack() ==> n in disk
    {
      Layers()[GetRd(Layers(), path)]
    }

    function WithTop(top: Layer): Fs {
      this.(disk := disk[Stack()[0] := top])
    }
  }

  // ---------- the operations ----------

  /** Copy a file to the top layer, unless it is read from there already. */
  function Copy(fs: Fs, path: Path): (bool, Fs)
    requires fs.Valid()
  {
    var rd := fs.Rd(path);
    if GetRd(fs.Layers(), path) == 0 then (true, fs)
    else if path !in rd then (false, fs)
    else
      var (cloned, top) := CloneFrom(rd, fs.Top(), path, 1, fs.umask);
      if !cloned then (false, fs.WithTop(top))
      else match MkNodAt(top, path, rd[path].StMode(), fs.umask)
        case None => (false, fs.WithTop(top))
        case Some(t) => (true, fs.WithTop(t[path := t[path].(data := rd[path].data)]))
  }

  /** Open the path for writing in the top layer and replace its contents. */
  function Update(fs: Fs, path: Path, data: Bytes -> Bytes): (bool, Fs)
    requires fs.Valid()
  {
    if HasFile(fs.Top(), path)
    then (true, fs.WithTop(fs.Top()[path := fs.Top()[path].(data := data(fs.Top()[path].data))]))
    else (false, fs)
  }

  /** Change the permissions in the top layer. */
  function SetMode(fs: Fs, path: Path, perm: Perm): (bool, Fs)
    requires fs.Valid()
  {
    if path in fs.Top()
    then (true, fs.WithTop(fs.Top()[path := fs.Top()[path].(perm := perm)]))
    else (false, fs)
  }

  /** Clone the ancestors of the path into the top layer, then make a node there. */
  function Create(fs: Fs, path: Path, make: Layer -> Option<Layer>): (bool, Fs)
    requires fs.Valid()
  {
    var (cloned, top) := CloneFrom(fs.Rd(path), fs.Top(), path, 1, fs.umask);
    if cloned && make(top).Some? then (true, fs.WithTop(make(top).value)) else (false, fs.WithTop(top))
  }

  datatype Op =
    | Write(path: Path, buf: Bytes, offset: nat)
    | Truncate(path: Path, size: nat)
    | Chmod(path: Path, mode: Mode)
    | MkNod(path: Path, mode: Mode)
    | MkDir(path: Path, mode: Mode)

  lemma WithTopValid(fs: Fs, top: Layer)
    requires fs.Valid() && IsTree(top)
    ensures fs.WithTop(top).Valid() && fs.WithTop(top).Top() == top
  {
    assert fs.WithTop(top).Stack() == fs.Stack();
    assert fs.Stack()[0] in fs.Stack();
  }

  /** Replacing a node by one of its kind, or adding one to a directory, leaves a tree. */
  lemma PutIsTree(l: Layer, path: Path, n: Node)
    requires IsTree(l)
    requires if path in l then n.Dir? == l[path].Dir? else path != [] && HasDir(l, Parent(path))
    ensures IsTree(l[path := n])
  {
  }

  lemma CopyValid(fs: Fs, path: Path)
    requires fs.Valid()
    ensures Copy(fs, path).1.Valid()
  {
    var rd := fs.Rd(path);
    if GetRd(fs.Layers(), path) != 0 && path in rd {
      CloneEffect(rd, fs.Top(), path, 1, fs.umask);
      var (cloned, top) := CloneFrom(rd, fs.Top(), path, 1, fs.umask);
      WithTopValid(fs, top);
      match MkNodAt(top, path, rd[path].StMode(), fs.umask)
      case None =>
      case Some(t) =>
        var t' := t[path := t[path].(data := rd[path].data)];
        PutIsTree(top, path, t'[path]);
        assert t' == top[path := t'[path]];
        WithTopValid(fs, t');
    }
  }

  /** `dirSize` is the size stat reports for a directory. */
  function Apply(fs: Fs, op: Op, dirSize: nat): (bool, Fs)
    requires fs.Valid()
  {
    match op
    case Write(path, buf, offset) =>
      CopyValid(fs, path);
      var (copied, fs') := Copy(fs, path);
      if copied then Update(fs', path, data => PWrite(data, buf, offset)) else (false, fs')
    case Truncate(path, size) =>
      var rd := fs.Rd(path);
      if path !in rd then (false, fs)
      else if (if rd[path].Dir? then dirSize else |rd[path].data|) == size then (true, fs)
      else
        CopyValid(fs, path);
        var (copied, fs') := Copy(fs, path);
        if copied then Update(fs', path, data => FTruncate(data, size)) else (false, fs')
    case Chmod(path, mode) =>
      var rd := fs.Rd(path);
      if path !in rd then (false, fs)
      else if rd[path].StMode() == mode then (true, fs)
      else
        CopyValid(fs, path);
        var (copied, fs') := Copy(fs, path);
        if copied then SetMode(fs', path, mode.perm) else (false, fs')
    case MkNod(path, mode) => Create(fs, path, top => MkNodAt(top, path, mode, fs.umask))
    case MkDir(path, mode) => Create(fs, path, top => MkDirAt(top, path, mode.perm, fs.umask))
  }

  // ---------- what an operation may touch ----------

  /**
    Only the top layer changes; in it only the node at the path changes, and
    only the path and ancestors of it that some layer has are added, the
    ancestors as directories.
   */
  ghost predicate Touches(fs: Fs, fs': Fs, path: Path)
    requires fs.Valid() && fs'.Valid()
  {
    && fs' == fs.WithTop(fs'.Top())
    && (forall q :: q in fs.Top() ==> q in fs'.Top() && (q != path ==> fs'.Top()[q] == fs.Top()[q]))
    && (forall q :: q in fs'.Top() && q !in fs.Top() && q != path ==>
          q < path && q in fs.Rd(path) && fs'.Top()[q] == Dir(fs.Rd(path)[q].perm - fs.umask))
  }

  lemma CloneTouches(fs: Fs, path: Path)
    requires fs.Valid()
    ensures var top := CloneFrom(fs.Rd(path), fs.Top(), path, 1, fs.umask).1;
      && IsTree(top)
      && var fs' := fs.WithTop(top);
        && fs'.Valid() && fs'.Top() == top && Touches(fs, fs', path)
        && (path in top <==> path in fs.Top())
        && (path in top ==> top[path] == fs.Top()[path])
  {
    CloneEffect(fs.Rd(path), fs.Top(), path, 1, fs.umask);
    WithTopValid(fs, CloneFrom(fs.Rd(path), fs.Top(), path, 1, fs.umask).1);
  }

  /** Changing the node at the path on top of an operation's other effects adds no further effect. */
  lemma PutTouches(fs: Fs, fs': Fs, path: Path, n: Node)
    requires fs.Valid() && fs'.Valid() && Touches(fs, fs', path)
    requires if path in fs'.Top() then n.Dir? == fs'.Top()[path].Dir? else path != [] && HasDir(fs'.Top(), Parent(path))
    ensures var fs'' := fs'.WithTop(fs'.Top()[path := n]);
      fs''.Valid() && fs''.Top() == fs'.Top()[path := n] && Touches(fs, fs'', path)
  {
    PutIsTree(fs'.Top(), path, n);
    WithTopValid(fs', fs'.Top()[path := n]);
    assert fs'.Stack() == fs.Stack();
  }

  lemma WithTopTwice(fs: Fs, top: Layer, top': Layer)
    requires fs.Valid()
    ensures fs.WithTop(top).WithTop(top') == fs.WithTop(top')
  {
    assert fs.WithTop(top).Stack() == fs.Stack();
  }

  lemma CopiedEffect(fs: Fs, path: Path)
    requires fs.Valid() && path in fs.Rd(path) && GetRd(fs.Layers(), path) != 0
    requires fs.Rd(path)[path].File?
    requires CloneFrom(fs.Rd(path), fs.Top(), path, 1, fs.umask).0
    requires path != [] && path !in fs.Top()
    requires HasDir(CloneFrom(fs.Rd(path), fs.Top(), path, 1, fs.umask).1, Parent(path))
    ensures var (ok, fs') := Copy(fs, path);
      && ok && fs'.Valid() && Touches(fs, fs', path) && path in fs'.Top()
      && fs'.Top()[path] == fs.Rd(path)[path].(perm := fs.Rd(path)[path].perm - fs.umask)
  {
    var rd := fs.Rd(path);
    var top := CloneFrom(rd, fs.Top(), path, 1, fs.umask).1;
    var n := File(rd[path].perm - fs.umask, rd[path].data);
    assert path !in top by {
      CloneEffect(rd, fs.Top(), path, 1, fs.umask);
    }
    assert Copy(fs, path) == (true, fs.WithTop(top[path := n])) by {
      var t := top[path := File(rd[path].perm - fs.umask, [])];
      assert MkNodAt(top, path, rd[path].StMode(), fs.umask) == Some(t);
      assert t[path := t[path].(data := rd[path].data)] == top[path := n];
    }
    CloneTouches(fs, path);
    PutTouches(fs, fs.WithTop(top), path, n);
    WithTopTwice(fs, top, top[path := n]);
  }

  /** A successful copy makes the node writable as it is read, but for permissions the umask denies. */
  lemma CopyEffect(fs: Fs, path: Path)
    requires fs.Valid()
    ensures var (ok, fs') := Copy(fs, path);
      && fs'.Valid() && Touches(fs, fs', path)
      && (if ok then
            && path in fs.View() && path in fs'.Top()
            && fs'.Top()[path] == (if path in fs.Top() then fs.View()[path]
                                   else fs.View()[path].(perm := fs.View()[path].perm - fs.umask))
            && (path !in fs.Top() ==> fs.View()[path].File?)
          else path !in fs'.Top() && path !in fs.Top())
  {
    LookupIsMerged(fs.Layers(), path);
    var rd := fs.Rd(path);
    assert fs.Layers()[0] == fs.Top();
    if GetRd(fs.Layers(), path) != 0 && path in rd {
      CloneTouches(fs, path);
      var (cloned, top) := CloneFrom(rd, fs.Top(), path, 1, fs.umask);
      if cloned && MkNodAt(top, path, rd[path].StMode(), fs.umask).Some? {
        CopiedEffect(fs, path);
      }
    } else {
      assert fs.disk[fs.Stack()[0] := fs.Top()] == fs.disk;
    }
  }

  // ---------- every operation ----------

  /** A write, truncation or open for writing changes the node at the path only. */
  lemma UpdateEffect(fs: Fs, fs': Fs, path: Path, data: Bytes -> Bytes)
    requires fs.Valid() && fs'.Valid() && Touches(fs, fs', path)
    ensures var (ok, fs'') := Update(fs', path, data);
      && fs''.Valid() && Touches(fs, fs'', path)
      && (ok <==> HasFile(fs'.Top(), path))
      && (if ok then fs''.Top() == fs'.Top()[path := fs'.Top()[path].(data := data(fs'.Top()[path].data))]
          else fs'' == fs')
  {
    if HasFile(fs'.Top(), path) {
      PutTouches(fs, fs', path, fs'.Top()[path].(data := data(fs'.Top()[path].data)));
    }
  }

  lemma SetModeEffect(fs: Fs, fs': Fs, path: Path, perm: Perm)
    requires fs.Valid() && fs'.Valid() && Touches(fs, fs', path)
    ensures var (ok, fs'') := SetMode(fs', path, perm);
      && fs''.Valid() && Touches(fs, fs'', path)
      && (ok <==> path in fs'.Top())
      && (if ok then fs''.Top() == fs'.Top()[path := fs'.Top()[path].(perm := perm)] else fs'' == fs')
  {
    if path in fs'.Top() {
      PutTouches(fs, fs', path, fs'.Top()[path].(perm := perm));
    }
  }

  lemma UnchangedTouches(fs: Fs, path: Path)
    requires fs.Valid()
    ensures Touches(fs, fs, path)
  {
    assert fs.disk[fs.Stack()[0] := fs.Top()] == fs.disk;
  }

  /** The node the caller asked for, given the node it sees before; new nodes get no permission the umask denies. */
  function Asked(fs: Fs, op: Op): Node
    requires fs.Valid()
    requires op.MkNod? || op.MkDir? || op.path in fs.View()
  {
    match op
    case MkNod(_, mode) => File(mode.perm - fs.umask, [])
    case MkDir(_, mode) => Dir(mode.perm - fs.umask)
    case Chmod(path, mode) => fs.View()[path].(perm := mode.perm)
    case Write(path, buf, offset) =>
      var n := fs.View()[path];
      if n.Dir? then n else n.(data := PWrite(n.data, buf, offset))
    case Truncate(path, size) =>
      var n := fs.View()[path];
      if n.Dir? then n else n.(data := FTruncate(n.data, size))
  }

  /** The operation changes the data of a file that the top layer lacks, so that the file is copied there first. */
  predicate CopiesUp(fs: Fs, op: Op)
    requires fs.Valid()
  {
    && op.path in fs.View() && fs.View()[op.path].File? && op.path !in fs.Top()
    && (op.Write? || (op.Truncate? && |fs.View()[op.path].data| != op.size))
  }

  /** The node an operation leaves: the one asked for, but copying up applies the umask. */
  function Left(fs: Fs, op: Op): Node
    requires fs.Valid()
    requires op.MkNod? || op.MkDir? || op.path in fs.View()
  {
    var n := Asked(fs, op);
    if CopiesUp(fs, op) then n.(perm := n.perm - fs.umask) else n
  }

  /** Where a path is read from, in terms of the view. */
  lemma RdIsView(fs: Fs, path: Path)
    requires fs.Valid()
    ensures path in fs.Rd(path) <==> path in fs.View()
    ensures path in fs.View() ==> fs.Rd(path)[path] == fs.View()[path]
    ensures GetRd(fs.Layers(), path) == 0 <==> path in fs.Top()
    ensures path in fs.Top() ==> path in fs.View() && fs.Top()[path] == fs.View()[path]
    ensures path !in fs.View() ==> fs.Rd(path) == fs.disk[fs.master]
  {
    LookupIsMerged(fs.Layers(), path);
    assert fs.Layers()[0] == fs.Top();
    if path !in fs.View() {
      NotFoundIsLast(fs.Layers(), path);
    }
  }

  /** An operation's effect on the layers and, at its own path, on the top layer. */
  ghost predicate Effect(fs: Fs, op: Op, ok: bool, fs': Fs)
    requires fs.Valid() && fs'.Valid()
  {
    && Touches(fs, fs', op.path)
    && (if ok then
          && (op.MkNod? || op.MkDir? || op.path in fs.View())
          && (if op.path in fs'.Top() then fs'.Top()[op.path] == Left(fs, op)
              else fs' == fs && op.path in fs.View() && fs.View()[op.path] == Left(fs, op))
        else
          && (op.path in fs'.Top() <==> op.path in fs.Top())
          && (op.path in fs.Top() ==> fs'.Top()[op.path] == fs.Top()[op.path]))
  }

  lemma CreateEffect(fs: Fs, op: Op, make: Layer -> Option<Layer>, allowed: bool)
    requires fs.Valid() && (op.MkNod? || op.MkDir?)
    requires forall top :: make(top) == if allowed then MakeAt(top, op.path, Asked(fs, op)) else None
    ensures var (ok, fs') := Create(fs, op.path, make);
      fs'.Valid() && Effect(fs, op, ok, fs')
  {
    var (cloned, top) := CloneFrom(fs.Rd(op.path), fs.Top(), op.path, 1, fs.umask);
    CloneTouches(fs, op.path);
    if cloned && make(top).Some? {
      PutTouches(fs, fs.WithTop(top), op.path, Asked(fs, op));
      WithTopTwice(fs, top, make(top).value);
    }
  }

  lemma WriteEffect(fs: Fs, op: Op)
    requires fs.Valid() && op.Write?
    ensures var (ok, fs') := Apply(fs, op, 0);
      fs'.Valid() && Effect(fs, op, ok, fs')
  {
    CopyEffect(fs, op.path);
    RdIsView(fs, op.path);
    UpdateEffect(fs, Copy(fs, op.path).1, op.path, data => PWrite(data, op.buf, op.offset));
  }

  lemma TruncateEffect(fs: Fs, op: Op, dirSize: nat)
    requires fs.Valid() && op.Truncate?
    ensures var (ok, fs') := Apply(fs, op, dirSize);
      fs'.Valid() && Effect(fs, op, ok, fs')
  {
    CopyEffect(fs, op.path);
    RdIsView(fs, op.path);
    UnchangedTouches(fs, op.path);
    UpdateEffect(fs, Copy(fs, op.path).1, op.path, data => FTruncate(data, op.size));
  }

  lemma ChmodEffect(fs: Fs, op: Op)
    requires fs.Valid() && op.Chmod?
    ensures var (ok, fs') := Apply(fs, op, 0);
      fs'.Valid() && Effect(fs, op, ok, fs')
  {
    CopyEffect(fs, op.path);
    RdIsView(fs, op.path);
    UnchangedTouches(fs, op.path);
    SetModeEffect(fs, Copy(fs, op.path).1, op.path, op.mode.perm);
  }

  /**
    Every operation, successful or not, touches the top layer only, and there
    leaves at its path what was asked for, or what was there.
   */
  lemma ApplyEffect(fs: Fs, op: Op, dirSize: nat)
    requires fs.Valid()
    ensures var (ok, fs') := Apply(fs, op, dirSize);
      fs'.Valid() && Effect(fs, op, ok, fs')
  {
    match op
    case Write(_, _, _) => WriteEffect(fs, op);
    case Truncate(_, _) => TruncateEffect(fs, op, dirSize);
    case Chmod(_, _) => ChmodEffect(fs, op);
    case MkNod(path, mode) => CreateEffect(fs, op, top => MkNodAt(top, path, mode, fs.umask), mode.kind == Regular);
    case MkDir(path, mode) => CreateEffect(fs, op, top => MkDirAt(top, path, mode.perm, fs.umask), true);
  }
}
