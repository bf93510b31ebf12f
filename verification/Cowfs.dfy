/** The union filesystem object (cowfs.c), proved against the functions of CowOps and CowRuns. */
module Cowfs {
  import opened Sequences
  import opened CowLayer
  import opened CowOps
  import opened CowRuns
  import CowView
  import CowReaddir

  lemma {:induction false} GetRdIs(layers: seq<Layer>, path: Path, i: nat)
    requires i < |layers| && forall k :: 0 <= k < i ==> path !in layers[k]
    requires path in layers[i] || i == |layers| - 1
    ensures CowView.GetRd(layers, path) == i
  {
    if i > 0 {
      GetRdIs(layers[1..], path, i - 1);
    }
  }

  /** The size of the buffer copy() reads into: 4096 pointers. */
  const COPY_CHUNK: nat := 32768

  class UnionFs {
    /** The contents of the directories on disk. */
    var disk: map<string, Layer>
    var overlays: seq<string>
    const host: string
    const master: string
    const umask: Perm
    /** What stat reports as size of a directory. */
    const dirSize: nat

    ghost function Model(): Fs
      reads this
    {
      Fs(disk, overlays, host, master, umask)
    }

    ghost predicate Valid()
      reads this
    {
      Model().Valid() && NoDuplicates(overlays)
    }

    constructor (disk: map<string, Layer>, host: string, master: string, umask: Perm, dirSize: nat)
      requires host in disk && master in disk && forall n :: n in disk ==> IsTree(disk[n])
      ensures Valid() && Model() == Fs(disk, [], host, master, umask) && this.dirSize == dirSize
    {
      this.disk, overlays := disk, [];
      this.host, this.master, this.umask, this.dirSize := host, master, umask, dirSize;
    }

    /** The directory a descriptor, an index into the stack, stands for. */
    function Name(fd: nat): string
      requires fd < |overlays| + 2
      reads this
    {
      (overlays + [host, master])[fd]
    }

    method GetRd(path: Path) returns (fd: nat)
      requires Valid()
      ensures fd == CowView.GetRd(Model().Layers(), path) && fd < |overlays| + 2
    {
      for i := 0 to |overlays|
        invariant forall k :: 0 <= k < i ==> path !in disk[overlays[k]]
      {
        assert overlays[i] == Model().Stack()[i];
        if path in disk[overlays[i]] {
          GetRdIs(Model().Layers(), path, i);
          return i;
        }
      }
      assert host == Model().Stack()[|overlays|];
      if path in disk[host] {
        GetRdIs(Model().Layers(), path, |overlays|);
        return |overlays|;
      }
      GetRdIs(Model().Layers(), path, |overlays| + 1);
      return |overlays| + 1;
    }

    /** Replace the contents of the directory written to. */
    method SetTop(top: Layer)
      requires Valid() && IsTree(top)
      modifies this`disk
      ensures Valid() && Model() == old(Model()).WithTop(top) && Model().Top() == top
    {
      WithTopValid(Model(), top);
      disk := disk[Name(0) := top];
    }

    method ClonePath(rd: nat, path: Path) returns (ok: bool)
      requires Valid() && rd < |overlays| + 2
      modifies this`disk
      ensures Valid()
      ensures var (cloned, top) := CloneFrom(old(disk[Name(rd)]), old(Model()).Top(), path, 1, umask);
        ok == cloned && Model() == old(Model()).WithTop(top) && Model().Top() == top
    {
      ghost var from, to := disk[Name(rd)], Model().Top();
      assert Model().WithTop(to) == Model() by {
        assert disk[Model().Stack()[0] := to] == disk;
      }
      CloneEffect(from, to, path, 1, umask);
      var k := 1;
      while k < |path|
        invariant k >= 1 && Valid() && IsTree(Model().Top())
        invariant Model() == old(Model()).WithTop(Model().Top())
        invariant CloneFrom(from, Model().Top(), path, k, umask) == CloneFrom(from, to, path, 1, umask)
        invariant disk[Name(rd)] == from
        invariant Name(rd) == Name(0) ==> Model().Top() == from
        decreases |path| - k
      {
        var full := path[..k];
        var wr := disk[Name(0)];
        if full !in wr {
          if full !in disk[Name(rd)] {
            return false;
          }
          var made := MkDirAt(wr, full, disk[Name(rd)][full].perm, umask);
          if made.None? {
            return false;
          }
          MadeIsTree(wr, full, made.value[full]);
          WithTopTwice(old(Model()), wr, made.value);
          SetTop(made.value);
        }
        k := k + 1;
      }
      return true;
    }

    /** Read the source and write to the target file, chunk by chunk. */
    method CopyData(rd: nat, path: Path)
      requires Valid() && 0 < rd < |overlays| + 2 && Name(rd) != Name(0)
      requires HasFile(disk[Name(rd)], path) && HasFile(Model().Top(), path) && Model().Top()[path].data == []
      modifies this`disk
      ensures Valid()
      ensures var t := old(Model()).Top();
        Model() == old(Model()).WithTop(t[path := t[path].(data := old(disk[Name(rd)])[path].data)])
    {
      ghost var t := Model().Top();
      ghost var data := disk[Name(rd)][path].data;
      assert t[path := t[path].(data := [])] == t && Model().WithTop(t) == Model() by {
        assert disk[Model().Stack()[0] := t] == disk;
      }
      var pos := 0;
      while pos < |disk[Name(rd)][path].data|
        invariant Valid() && disk[Name(rd)] == old(disk[Name(rd)]) && pos <= |data|
        invariant Model().Top() == t[path := t[path].(data := data[..pos])]
        invariant Model() == old(Model()).WithTop(Model().Top())
        decreases |data| - pos
      {
        // read() returns any positive number of bytes up to the buffer size
        var len :| 0 < len <= |disk[Name(rd)][path].data| - pos && len <= COPY_CHUNK;
        var buf := disk[Name(rd)][path].data[pos..pos + len];
        var wr := disk[Name(0)];
        var to := wr[path := wr[path].(data := PWrite(wr[path].data, buf, pos))];
        assert PWrite(data[..pos], buf, pos) == data[..pos + len];
        PutIsTree(wr, path, to[path]);
        WithTopTwice(old(Model()), wr, to);
        SetTop(to);
        pos := pos + len;
      }
      assert data[..pos] == data;
    }

    /** Make the node in the top layer and copy the data, if there is any. */
    method CopyNode(rd: nat, path: Path) returns (ok: bool)
      requires Valid() && 0 < rd < |overlays| + 2 && Name(rd) != Name(0) && path in disk[Name(rd)]
      modifies this`disk
      ensures Valid() && Model() == old(Model()).WithTop(Model().Top())
      ensures var from := old(disk[Name(rd)]);
        var made := MkNodAt(old(Model()).Top(), path, from[path].StMode(), umask);
        && ok == made.Some?
        && Model().Top() == if made.None? then old(Model()).Top()
                            else made.value[path := made.value[path].(data := from[path].data)]
    {
      var st, wr := disk[Name(rd)][path], disk[Name(0)];
      assert disk[Model().Stack()[0] := wr] == disk;
      var made := MkNodAt(wr, path, st.StMode(), umask);
      if made.None? {
        return false;
      }
      PutIsTree(wr, path, made.value[path]);
      SetTop(made.value);
      if st.data != [] {
        CopyData(rd, path);
        WithTopTwice(old(Model()), made.value, Model().Top());
      } else {
        assert made.value[path := made.value[path].(data := st.data)] == made.value;
      }
      return true;
    }

    method Copy(path: Path) returns (ok: bool)
      requires Valid()
      modifies this`disk
      ensures Valid()
      ensures (ok, Model()) == CowOps.Copy(old(Model()), path)
    {
      var rd := GetRd(path);
      RdIsView(Model(), path);
      if rd == 0 {
        return true;
      }
      assert disk[Name(rd)] == Model().Rd(path);
      if path !in disk[Name(rd)] {
        return false;
      }
      ghost var from := disk[Name(rd)];
      CloneTouches(Model(), path);
      var cloned := ClonePath(rd, path);
      if !cloned {
        return false;
      }
      ok := CopyNode(rd, path);
      WithTopTwice(old(Model()), CloneFrom(from, old(Model()).Top(), path, 1, umask).1, Model().Top());
    }

    /** Open the copied file for writing and change its data. */
    method Update(path: Path, data: Bytes -> Bytes) returns (ok: bool)
      requires Valid()
      modifies this`disk
      ensures Valid()
      ensures (ok, Model()) == CowOps.Update(old(Model()), path, data)
    {
      var wr := disk[Name(0)];
      if path !in wr || !wr[path].File? {
        return false;
      }
      var to := wr[path := wr[path].(data := data(wr[path].data))];
      PutIsTree(wr, path, to[path]);
      SetTop(to);
      return true;
    }

    method Write(path: Path, buf: Bytes, offset: nat) returns (ok: bool)
      requires Valid()
      modifies this`disk
      ensures Valid()
      ensures (ok, Model()) == Apply(old(Model()), Op.Write(path, buf, offset), dirSize)
    {
      ok := Copy(path);
      if ok {
        ok := Update(path, data => PWrite(data, buf, offset));
      }
    }

    method Truncate(path: Path, size: nat) returns (ok: bool)
      requires Valid()
      modifies this`disk
      ensures Valid()
      ensures (ok, Model()) == Apply(old(Model()), Op.Truncate(path, size), dirSize)
    {
      var rd := GetRd(path);
      assert disk[Name(rd)] == Model().Rd(path);
      if path !in disk[Name(rd)] {
        return false;
      }
      var st := disk[Name(rd)][path];
      if (if st.Dir? then dirSize else |st.data|) == size {
        return true;
      }
      ok := Copy(path);
      if ok {
        ok := Update(path, data => FTruncate(data, size));
      }
    }

    method Chmod(path: Path, mode: Mode) returns (ok: bool)
      requires Valid()
      modifies this`disk
      ensures Valid()
      ensures (ok, Model()) == Apply(old(Model()), Op.Chmod(path, mode), dirSize)
    {
      var rd := GetRd(path);
      assert disk[Name(rd)] == Model().Rd(path);
      if path !in disk[Name(rd)] {
        return false;
      }
      if disk[Name(rd)][path].StMode() == mode {
        return true;
      }
      ok := Copy(path);
      if ok {
        var wr := disk[Name(0)];
        if path !in wr {
          return false;
        }
        PutIsTree(wr, path, wr[path].(perm := mode.perm));
        SetTop(wr[path := wr[path].(perm := mode.perm)]);
      }
    }

    method MkNod(path: Path, mode: Mode) returns (ok: bool)
      requires Valid()
      modifies this`disk
      ensures Valid()
      ensures (ok, Model()) == Apply(old(Model()), Op.MkNod(path, mode), dirSize)
    {
      var rd := GetRd(path);
      assert disk[Name(rd)] == Model().Rd(path);
      ok := ClonePath(rd, path);
      if ok {
        var wr := disk[Name(0)];
        var made := MkNodAt(wr, path, mode, umask);
        if made.None? {
          return false;
        }
        PutIsTree(wr, path, made.value[path]);
        WithTopTwice(old(Model()), wr, made.value);
        SetTop(made.value);
      }
    }

    method MkDir(path: Path, mode: Mode) returns (ok: bool)
      requires Valid()
      modifies this`disk
      ensures Valid()
      ensures (ok, Model()) == Apply(old(Model()), Op.MkDir(path, mode), dirSize)
    {
      var rd := GetRd(path);
      assert disk[Name(rd)] == Model().Rd(path);
      ok := ClonePath(rd, path);
      if ok {
        var wr := disk[Name(0)];
        var made := MkDirAt(wr, path, mode.perm, umask);
        if made.None? {
          return false;
        }
        PutIsTree(wr, path, made.value[path]);
        WithTopTwice(old(Model()), wr, made.value);
        SetTop(made.value);
      }
    }

    /** Remove the first overlay with the given path. */
    method OverlayRemove(path: string) returns (found: bool)
      requires Valid()
      modifies this`overlays
      ensures Valid()
      ensures found == (path in old(overlays)) && overlays == Without(old(overlays), path)
    {
      WithoutMembers(overlays, path);
      WithoutRemoves(overlays, path);
      for i := 0 to |overlays|
        invariant overlays == old(overlays) && path !in overlays[..i]
      {
        if overlays[i] == path {
          WithoutAt(overlays, path, i);
          overlays := overlays[..i] + overlays[i + 1..];
          return true;
        }
      }
      return false;
    }

    method AddOverlay(path: string) returns (ok: bool)
      requires Valid()
      modifies this`overlays
      ensures Valid()
      ensures (ok, Model()) == Perform(old(Model()), Call.AddOverlay(path), dirSize)
    {
      PerformEffect(Model(), Call.AddOverlay(path), dirSize);
      if path !in disk {
        return false;
      }
      var _ := OverlayRemove(path);
      overlays := [path] + overlays;
      return true;
    }

    method DelOverlay(path: string) returns (removed: bool)
      requires Valid()
      modifies this`overlays
      ensures Valid()
      ensures (removed, Model()) == Perform(old(Model()), Call.DelOverlay(path), dirSize)
    {
      removed := OverlayRemove(path);
    }

    method PopOverlay() returns (ok: bool)
      requires Valid()
      modifies this`overlays
      ensures Valid()
      ensures (ok, Model()) == Perform(old(Model()), Call.PopOverlay, dirSize)
    {
      PerformEffect(Model(), Call.PopOverlay, dirSize);
      if overlays == [] {
        return false;
      }
      overlays := overlays[1..];
      return true;
    }

    /** The entries of a directory, from all the layers in which it can be opened. */
    method ReadDir(dir: Path) returns (entries: seq<CowReaddir.Entry>)
      requires Valid()
      ensures CowReaddir.ListsView(Model().View(), dir, entries)
    {
      entries := CowReaddir.ReadDir(CowView.Layers(disk, overlays + [host, master]), dir);
    }
  }

  lemma {:induction false} WithoutAt(overlays: seq<string>, path: string, i: nat)
    requires i < |overlays| && overlays[i] == path && path !in overlays[..i]
    ensures Without(overlays, path) == overlays[..i] + overlays[i + 1..]
  {
    if i > 0 {
      assert overlays[0] in overlays[..i];
      assert overlays[..i] == [overlays[0]] + overlays[1..][..i - 1];
      WithoutAt(overlays[1..], path, i - 1);
    }
  }
}
