/**
  One directory tree of the union filesystem (cowfs.c), with the file system
  calls cowfs makes on it: regular files and directories, no links. A layer maps
  the paths that exist to their nodes and is closed under parents; permissions
  are sets of bits. Cloning the parents of a path belongs here as well.
 */
module CowLayer {
  import opened Wrappers

  /** A path relative to the root of a layer; [] is the root itself, ".". */
  type Path = seq<string>

  /** Permission bits, by number; a umask is such a set too. */
  type Perm = set<nat>

  type Bytes = seq<bv8>

  datatype Kind = Directory | Regular

  datatype Mode = Mode(kind: Kind, perm: Perm)

  datatype Node = Dir(perm: Perm) | File(perm: Perm, data: Bytes) {
    function StMode(): Mode {
      Mode(if Dir? then Directory else Regular, perm)
    }
  }

  type Layer = map<Path, Node>

  function Parent(p: Path): Path
    requires p != []
  {
    p[..|p| - 1]
  }

  predicate HasDir(l: Layer, p: Path) {
    p in l && l[p].Dir?
  }

  predicate HasFile(l: Layer, p: Path) {
    p in l && l[p].File?
  }

  /** Every node but the root lies in a directory. */
  ghost predicate IsTree(l: Layer) {
    && HasDir(l, [])
    && (forall p {:trigger Parent(p)} :: p in l && p != [] ==> HasDir(l, Parent(p)))
  }

  lemma {:induction false} AncestorsAreDirs(l: Layer, p: Path, j: nat)
    requires IsTree(l) && p in l && j < |p|
    ensures HasDir(l, p[..j])
    decreases |p|
  {
    assert HasDir(l, Parent(p));
    if j < |p| - 1 {
      AncestorsAreDirs(l, Parent(p), j);
      assert Parent(p)[..j] == p[..j];
    } else {
      assert Parent(p) == p[..j];
    }
  }

  // ---------- file system calls ----------

  /** A new node can be made only where there is none, in a directory. */
  function MakeAt(l: Layer, p: Path, n: Node): Option<Layer> {
    if p != [] && p !in l && HasDir(l, Parent(p)) then Some(l[p := n]) else None
  }

  function MkDirAt(l: Layer, p: Path, perm: Perm, umask: Perm): Option<Layer> {
    MakeAt(l, p, Dir(perm - umask))
  }

  /** mknodat, which makes regular files but no directories. */
  function MkNodAt(l: Layer, p: Path, mode: Mode, umask: Perm): Option<Layer> {
    if mode.kind == Regular then MakeAt(l, p, File(mode.perm - umask, [])) else None
  }

  function Zeros(n: nat): Bytes {
    seq(n, _ => 0)
  }

  /** pwrite: a gap before the offset reads as zeros; writing nothing changes nothing. */
  function PWrite(data: Bytes, buf: Bytes, offset: nat): Bytes {
    if buf == [] then data
    else
      (if offset <= |data| then data[..offset] else data + Zeros(offset - |data|))
      + buf
      + (if offset + |buf| <= |data| then data[offset + |buf|..] else [])
  }

  function FTruncate(data: Bytes, size: nat): Bytes {
    if size <= |data| then data[..size] else data + Zeros(size - |data|)
  }

  /** Byte by byte: written bytes are the buffer's, others are kept, a gap is zero. */
  lemma PWriteBytes(data: Bytes, buf: Bytes, offset: nat, i: nat)
    ensures |PWrite(data, buf, offset)| ==
            if buf == [] || offset + |buf| <= |data| then |data| else offset + |buf|
    ensures i < |PWrite(data, buf, offset)| ==>
      PWrite(data, buf, offset)[i] ==
            if offset <= i < offset + |buf| then buf[i - offset] else if i < |data| then data[i] else 0
  {
  }

  /** Byte by byte: the length is the one asked for, bytes are kept, and added ones are zero. */
  lemma FTruncateBytes(data: Bytes, size: nat, i: nat)
    ensures |FTruncate(data, size)| == size
    ensures i < size ==> FTruncate(data, size)[i] == if i < |data| then data[i] else 0
  {
  }

  // ---------- clone_path ----------

  /**
    Create the ancestors path[..k], path[..k + 1], ... in `top` the way they exist
    in `rd`. The directories created before a failure remain.
   */
  function CloneFrom(rd: Layer, top: Layer, path: Path, k: nat, umask: Perm): (bool, Layer)
    requires k > 0
    decreases |path| - k
  {
    if k >= |path| then (true, top)
    else if path[..k] in top then CloneFrom(rd, top, path, k + 1, umask)
    else if path[..k] !in rd then (false, top)
    else match MkDirAt(top, path[..k], rd[path[..k]].perm, umask)
      case None => (false, top)
      case Some(t) => CloneFrom(rd, t, path, k + 1, umask)
  }

  /** What cloning adds: only missing ancestors of the path that exist in `rd`, as directories. */
  ghost predicate Cloned(rd: Layer, top: Layer, path: Path, umask: Perm, top': Layer) {
    && IsTree(top')
    && (forall q :: q in top ==> q in top' && top'[q] == top[q])
    && (forall q :: q in top' && q !in top ==> q < path && q in rd && top'[q] == Dir(rd[q].perm - umask))
  }

  lemma {:induction false} CloneEffect(rd: Layer, top: Layer, path: Path, k: nat, umask: Perm)
    requires IsTree(top) && k > 0
    ensures var (ok, top') := CloneFrom(rd, top, path, k, umask);
      && Cloned(rd, top, path, umask, top')
      && (ok ==> forall j :: k <= j < |path| ==> path[..j] in top')
    decreases |path| - k
  {
    if k < |path| {
      if path[..k] in top {
        CloneEffect(rd, top, path, k + 1, umask);
      } else if path[..k] in rd {
        match MkDirAt(top, path[..k], rd[path[..k]].perm, umask)
        case None =>
        case Some(t) =>
          MadeIsTree(top, path[..k], Dir(rd[path[..k]].perm - umask));
          CloneEffect(rd, t, path, k + 1, umask);
      }
    }
  }

  lemma MadeIsTree(l: Layer, p: Path, n: Node)
    requires IsTree(l) && p != [] && p !in l && HasDir(l, Parent(p))
    ensures IsTree(l[p := n])
  {
  }

  /** The ancestor path[..j] is a directory of `top`, or missing there but present in `rd`. */
  predicate Clonable(rd: Layer, top: Layer, path: Path, j: nat)
    requires j <= |path|
  {
    if path[..j] in top then top[path[..j]].Dir? else path[..j] in rd
  }

  /** Cloning ends with a directory to create the path in exactly if every ancestor can be cloned. */
  lemma {:induction false} CloneSucceedsIff(rd: Layer, top: Layer, path: Path, k: nat, umask: Perm)
    requires IsTree(top) && 0 < k <= |path| && path[..k - 1] in top
    ensures var (ok, top') := CloneFrom(rd, top, path, k, umask);
      ok && HasDir(top', Parent(path)) <==> forall j :: k - 1 <= j < |path| ==> Clonable(rd, top, path, j)
    decreases |path| - k
  {
    CloneEffect(rd, top, path, k, umask);
    var p := path[..k - 1];
    if k == |path| {
      assert Parent(path) == p;
      assert Clonable(rd, top, path, k - 1) <==> HasDir(top, p);
    } else {
      var q := path[..k];
      assert Parent(q) == p;
      if q in top {
        CloneSucceedsIff(rd, top, path, k + 1, umask);
      } else if q !in rd {
        assert !Clonable(rd, top, path, k);
      } else if !HasDir(top, p) {
        assert !Clonable(rd, top, path, k - 1);
      } else {
        var t := MkDirAt(top, q, rd[q].perm, umask).value;
        MadeIsTree(top, q, Dir(rd[q].perm - umask));
        CloneSucceedsIff(rd, t, path, k + 1, umask);
        forall j | k <= j < |path|
          ensures Clonable(rd, t, path, j) <==> Clonable(rd, top, path, j)
        {
          assert |path[..j]| == j && (path[..j] == q ==> j == k);
        }
      }
    }
  }
}
