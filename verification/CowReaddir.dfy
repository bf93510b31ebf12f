/** Merged directory listings of the union filesystem (cowfs.c), and their agreement with path lookup. */
module CowReaddir {
  import opened CowLayer
  import opened CowView

  const DOTS := {".", ".."}

  predicate IsChild(dir: Path, p: Path) {
    |p| == |dir| + 1 && p[..|dir|] == dir
  }

  function ChildNames(l: Layer, dir: Path): (names: set<string>)
    ensures forall n :: n in names <==> dir + [n] in l
  {
    var names := set p | p in l && IsChild(dir, p) :: p[|dir|];
    assert forall n :: dir + [n] in l ==> IsChild(dir, dir + [n]) && (dir + [n])[|dir|] == n;
    assert forall p :: IsChild(dir, p) ==> p == dir + [p[|dir|]];
    names
  }

  function KindOf(n: Node): Kind {
    n.StMode().kind
  }

  /** The entries of a directory of one layer, with their types. */
  function Entries(l: Layer, dir: Path): (entries: map<string, Kind>)
    ensures entries.Keys == ChildNames(l, dir) + DOTS
    ensures forall n :: n in ChildNames(l, dir) && n !in DOTS ==> entries[n] == KindOf(l[dir + [n]])
  {
    map n | n in ChildNames(l, dir) + DOTS :: if n in DOTS then Directory else KindOf(l[dir + [n]])
  }

  datatype Entry = Entry(name: string, kind: Kind)

  // ---------- the listing ----------

  /** readdir on one stream, until the name is found. */
  method ContainsDir(d: map<string, Kind>, name: string) returns (found: bool)
    ensures found <==> name in d
  {
    var rest := d.Keys;
    while rest != {}
      invariant rest <= d.Keys && (name in d ==> name in rest)
      decreases |rest|
    {
      var ent :| ent in rest;
      if ent == name {
        return true;
      }
      rest := rest - {ent};
    }
    return false;
  }

  /** Whether one of the streams from position d up to the end of the array contains the name. */
  method OverlaysContainDir(dirs: array<map<string, Kind>>, d: nat, name: string) returns (found: bool)
    requires d <= dirs.Length
    ensures found <==> exists k :: d <= k < dirs.Length && name in dirs[k]
  {
    for i := d to dirs.Length
      invariant forall k :: d <= k < i ==> name !in dirs[k]
    {
      found := ContainsDir(dirs[i], name);
      if found {
        return;
      }
    }
    return false;
  }

  /** The name is listed for the stream at position k: no higher stream has it. */
  ghost predicate ListedAt(dirs: seq<map<string, Kind>>, k: nat, name: string)
    requires k < |dirs|
  {
    name in dirs[k] && forall j :: k < j < |dirs| ==> name !in dirs[j]
  }

  /** The entries listed for positions before k, and those of `done` for position k. */
  ghost predicate ListedUpTo(dirs: seq<map<string, Kind>>, k: nat, done: set<string>, entries: seq<Entry>) {
    && k <= |dirs|
    && (forall i, j :: 0 <= i < j < |entries| ==> entries[i].name != entries[j].name)
    && (forall i :: 0 <= i < |entries| ==>
          exists p :: 0 <= p < |dirs| && ListedAt(dirs, p, entries[i].name)
                      && (p < k || (p == k && entries[i].name in done))
                      && entries[i].kind == dirs[p][entries[i].name])
    && (forall p, n :: 0 <= p < |dirs| && ListedAt(dirs, p, n) && (p < k || (p == k && n in done)) ==>
          Entry(n, dirs[p][n]) in entries)
  }

  lemma ListedOnce(dirs: seq<map<string, Kind>>, p: nat, q: nat, name: string)
    requires p < |dirs| && q < |dirs| && ListedAt(dirs, p, name) && ListedAt(dirs, q, name)
    ensures p == q
  {
  }

  lemma ListOneMore(dirs: seq<map<string, Kind>>, k: nat, done: set<string>, entries: seq<Entry>, name: string)
    requires k < |dirs| && ListedUpTo(dirs, k, done, entries) && name in dirs[k] && name !in done
    ensures ListedAt(dirs, k, name) ==> ListedUpTo(dirs, k, done + {name}, entries + [Entry(name, dirs[k][name])])
    ensures !ListedAt(dirs, k, name) ==> ListedUpTo(dirs, k, done + {name}, entries)
  {
    if ListedAt(dirs, k, name) {
      var more := entries + [Entry(name, dirs[k][name])];
      forall i | 0 <= i < |entries|
        ensures entries[i].name != name
      {
        var p :| 0 <= p < |dirs| && ListedAt(dirs, p, entries[i].name)
                 && (p < k || (p == k && entries[i].name in done));
      }
      forall p, n | 0 <= p < |dirs| && ListedAt(dirs, p, n) && (p < k || (p == k && n in done + {name}))
        ensures Entry(n, dirs[p][n]) in more
      {
        if p == k && n == name {
          assert more[|entries|] == Entry(n, dirs[p][n]);
        } else {
          assert Entry(n, dirs[p][n]) in entries;
        }
      }
    }
  }

  lemma NextStream(dirs: seq<map<string, Kind>>, k: nat, entries: seq<Entry>)
    requires k < |dirs| && ListedUpTo(dirs, k, dirs[k].Keys, entries)
    ensures ListedUpTo(dirs, k + 1, {}, entries)
  {
    forall p, n | 0 <= p < |dirs| && ListedAt(dirs, p, n) && p < k + 1
      ensures Entry(n, dirs[p][n]) in entries
    {
      assert p < k || n in dirs[k].Keys;
    }
  }

  /** Lists the stream at position d, each name where no higher stream has it. */
  method ListStream(dirs: array<map<string, Kind>>, first: nat, d: nat, listed: seq<Entry>)
    returns (entries: seq<Entry>)
    requires first <= d < dirs.Length && ListedUpTo(dirs[first..], d - first, {}, listed)
    ensures ListedUpTo(dirs[first..], d + 1 - first, {}, entries)
  {
    entries := listed;
    ghost var streams, stream := dirs[first..], dirs[d];
    assert streams[d - first] == stream;
    assert forall k :: d < k < dirs.Length ==> streams[k - first] == dirs[k];
    var rest := dirs[d].Keys;
    assert stream.Keys - rest == {};
    while rest != {}
      invariant rest <= stream.Keys && ListedUpTo(streams, d - first, stream.Keys - rest, entries)
      decreases rest
    {
      var ent :| ent in rest;
      var hidden := OverlaysContainDir(dirs, d + 1, ent);
      ListOneMore(streams, d - first, stream.Keys - rest, entries, ent);
      assert hidden <==> !ListedAt(streams, d - first, ent);
      if !hidden {
        entries := entries + [Entry(ent, dirs[d][ent])];
      }
      assert stream.Keys - (rest - {ent}) == (stream.Keys - rest) + {ent};
      rest := rest - {ent};
    }
    assert stream.Keys - rest == stream.Keys;
    NextStream(streams, d - first, entries);
  }

  /** Lists the streams from position `first` on, bottom to top. */
  method ListStreams(dirs: array<map<string, Kind>>, first: nat) returns (entries: seq<Entry>)
    requires first <= dirs.Length
    ensures ListedUpTo(dirs[first..], dirs.Length - first, {}, entries)
  {
    entries := [];
    for d := first to dirs.Length
      invariant ListedUpTo(dirs[first..], d - first, {}, entries)
    {
      entries := ListStream(dirs, first, d, entries);
    }
  }

  /** The streams of the layers in which the directory can be opened, from bottom to top. */
  function Streams(layers: seq<Layer>, dir: Path): seq<map<string, Kind>> {
    if layers == [] then []
    else Streams(layers[1..], dir) + if HasDir(layers[0], dir) then [Entries(layers[0], dir)] else []
  }

  lemma {:induction false} StreamsAppend(layers: seq<Layer>, l: Layer, dir: Path)
    ensures Streams(layers + [l], dir) == (if HasDir(l, dir) then [Entries(l, dir)] else []) + Streams(layers, dir)
  {
    if layers == [] {
      assert layers + [l] == [l] && [l][1..] == [];
    } else {
      assert (layers + [l])[1..] == layers[1..] + [l];
      StreamsAppend(layers[1..], l, dir);
    }
  }

  /** The highest layer with a name wins, and it is the one lookup selects for the child. */
  lemma {:induction false} ListedWhereFound(layers: seq<Layer>, dir: Path, name: string) returns (p: nat)
    requires layers != [] && name !in DOTS && forall i :: 0 <= i < |layers| ==> IsTree(layers[i])
    requires dir + [name] in layers[GetRd(layers, dir + [name])]
    ensures p < |Streams(layers, dir)| && ListedAt(Streams(layers, dir), p, name)
    ensures Streams(layers, dir)[p][name] == KindOf(layers[GetRd(layers, dir + [name])][dir + [name]])
  {
    var s, below, child := Streams(layers, dir), Streams(layers[1..], dir), dir + [name];
    assert Parent(child) == dir;
    if child in layers[0] {
      p := |below|;
      assert s == below + [Entries(layers[0], dir)];
      assert name in ChildNames(layers[0], dir);
    } else {
      assert HasDir(layers[0], dir) ==> name !in Entries(layers[0], dir);
      p := ListedWhereFound(layers[1..], dir, name);
      assert s[p] == below[p];
      forall j | p < j < |s|
        ensures name !in s[j]
      {
        assert s[j] == if j < |below| then below[j] else Entries(layers[0], dir);
      }
    }
  }

  lemma {:induction false} NotListedIfNotFound(layers: seq<Layer>, dir: Path, name: string)
    requires name !in DOTS && forall i :: 0 <= i < |layers| ==> dir + [name] !in layers[i]
    ensures forall p :: 0 <= p < |Streams(layers, dir)| ==> name !in Streams(layers, dir)[p]
  {
    if layers != [] {
      NotListedIfNotFound(layers[1..], dir, name);
      assert name !in Entries(layers[0], dir);
    }
  }

  /** What the merged listing of a directory means in terms of the flat view. */
  ghost predicate ListsView(view: Layer, dir: Path, entries: seq<Entry>) {
    && (forall i, j :: 0 <= i < j < |entries| ==> entries[i].name != entries[j].name)
    && (forall i :: 0 <= i < |entries| && entries[i].name != "." && entries[i].name != ".." ==>
          && dir + [entries[i].name] in view
          && entries[i].kind == if view[dir + [entries[i].name]].Dir? then Directory else Regular)
    && (forall n :: n != "." && n != ".." && dir + [n] in view ==>
          exists i :: 0 <= i < |entries| && entries[i].name == n)
  }

  /** The name is listed as a directory exactly if some layer has the directory read. */
  ghost predicate DotListedIff(layers: seq<Layer>, dir: Path, entries: seq<Entry>, n: string) {
    Entry(n, Directory) in entries <==> exists k :: 0 <= k < |layers| && HasDir(layers[k], dir)
  }

  /** A complete listing of the streams emits each name of the view once, with the type lookup finds. */
  lemma ListingAgreesWithLookup(layers: seq<Layer>, dir: Path, entries: seq<Entry>)
    requires layers != [] && forall i :: 0 <= i < |layers| ==> IsTree(layers[i])
    requires ListedUpTo(Streams(layers, dir), |Streams(layers, dir)|, {}, entries)
    ensures ListsView(Merged(layers), dir, entries)
  {
    var s, view := Streams(layers, dir), Merged(layers);
    forall i | 0 <= i < |entries| && entries[i].name !in DOTS
      ensures dir + [entries[i].name] in view && entries[i].kind == KindOf(view[dir + [entries[i].name]])
    {
      var n := entries[i].name;
      var p :| 0 <= p < |s| && ListedAt(s, p, n) && entries[i].kind == s[p][n];
      LookupIsMerged(layers, dir + [n]);
      if dir + [n] !in view {
        NotListedIfNotFound(layers, dir, n);
      } else {
        var q := ListedWhereFound(layers, dir, n);
        ListedOnce(s, p, q, n);
      }
    }
    forall n | n !in DOTS && dir + [n] in view
      ensures exists i :: 0 <= i < |entries| && entries[i].name == n
    {
      LookupIsMerged(layers, dir + [n]);
      var q := ListedWhereFound(layers, dir, n);
      assert Entry(n, s[q][n]) in entries;
    }
  }

  /**
    Opens the directory in every layer from top to bottom, filling an array from
    its end, and lists it from bottom to top.
   */
  method ReadDir(layers: seq<Layer>, dir: Path) returns (entries: seq<Entry>)
    requires layers != [] && forall i :: 0 <= i < |layers| ==> IsTree(layers[i])
    ensures ListsView(Merged(layers), dir, entries)
    ensures DotListedIff(layers, dir, entries, ".") && DotListedIff(layers, dir, entries, "..")
  {
    var overlays := new map<string, Kind>[|layers|](_ => map[]);
    var d := overlays.Length;
    for i := 0 to |layers|
      invariant 0 <= d <= overlays.Length && d >= |layers| - i
      invariant overlays[d..] == Streams(layers[..i], dir)
    {
      assert layers[..i + 1] == layers[..i] + [layers[i]];
      StreamsAppend(layers[..i], layers[i], dir);
      if HasDir(layers[i], dir) {
        d := d - 1;
        overlays[d] := Entries(layers[i], dir);
        assert overlays[d..] == [overlays[d]] + overlays[d + 1..];
      }
    }
    assert layers[..|layers|] == layers;
    entries := ListStreams(overlays, d);
    ListingAgreesWithLookup(layers, dir, entries);
    DotsListed(layers, dir, entries);
  }

  lemma {:induction false} StreamsOpened(layers: seq<Layer>, dir: Path)
    ensures Streams(layers, dir) != [] <==> exists k :: 0 <= k < |layers| && HasDir(layers[k], dir)
    ensures forall p, n :: 0 <= p < |Streams(layers, dir)| && n in DOTS ==>
      n in Streams(layers, dir)[p] && Streams(layers, dir)[p][n] == Directory
  {
    if layers != [] {
      StreamsOpened(layers[1..], dir);
      if k :| 0 <= k < |layers[1..]| && HasDir(layers[1..][k], dir) {
        assert HasDir(layers[k + 1], dir);
      }
      if k :| 0 <= k < |layers| && HasDir(layers[k], dir) {
        assert k > 0 ==> HasDir(layers[1..][k - 1], dir);
      }
    }
  }

  /** The dot entries are listed, as directories, exactly if some layer has the directory. */
  lemma DotsListed(layers: seq<Layer>, dir: Path, entries: seq<Entry>)
    requires ListedUpTo(Streams(layers, dir), |Streams(layers, dir)|, {}, entries)
    ensures DotListedIff(layers, dir, entries, ".") && DotListedIff(layers, dir, entries, "..")
  {
    var s := Streams(layers, dir);
    StreamsOpened(layers, dir);
    forall n | n in DOTS && s != []
      ensures Entry(n, Directory) in entries
    {
      assert ListedAt(s, |s| - 1, n);
    }
  }
}
