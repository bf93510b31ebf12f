/**
  The tree of configuration options that conf/format-options.py builds from the
  definitions it reads, as a map from dotted path and kind to the node's data
  and a map from each section to the list of its children.
 */
module OptionTree {
  import opened Wrappers
  import opened Sequences
  import opened StableSort

  /** The parts of a dotted name. */
  type Path = seq<string>

  datatype Sibling = Sibling(name: string, section: bool)

  const BY_NAME: Sibling -> string := (s: Sibling) => s.name

  datatype Key = Key(path: Path, section: bool)

  datatype Data = Data(fullname: string, default: Option<string>, commented: bool, desc: seq<string>)

  /** `kids` holds the children of each section, and under the empty path those of the parser. */
  datatype Tree = Tree(data: map<Key, Data>, kids: map<Path, seq<Sibling>>)

  datatype Definition = Definition(fullname: string, default: Option<string>, section: bool, commented: bool,
                                   desc: seq<string>)

  const EMPTY := Tree(map[], map[[] := []])

  // ---------- dotted names ----------

  /** The parts between the dots. */
  function Split(s: string): (r: Path)
    ensures r != []
  {
    if s == "" then [""]
    else
      var rest := Split(s[1..]);
      if s[0] == '.' then [""] + rest else [[s[0]] + rest[0]] + rest[1..]
  }

  lemma SplitCons(c: char, s: string)
    ensures Split([c] + s) == if c == '.' then [""] + Split(s) else [[c] + Split(s)[0]] + Split(s)[1..]
  {
    assert ([c] + s)[1..] == s;
  }

  function Join(parts: Path): string
    requires parts != []
  {
    if |parts| == 1 then parts[0] else parts[0] + "." + Join(parts[1..])
  }

  /** A name is its parts joined with dots, and no part holds a dot. */
  lemma {:induction false} SplitIsInverse(s: string)
    ensures Join(Split(s)) == s
    ensures forall part :: part in Split(s) ==> '.' !in part
  {
    if s != "" {
      SplitIsInverse(s[1..]);
      var rest := Split(s[1..]);
      if s[0] == '.' {
        assert Split(s)[1..] == rest;
      } else {
        assert Split(s)[1..] == rest[1..];
      }
    }
  }

  /** Append a part to the full name collected so far. */
  function Extend(fullname: string, name: string): string {
    if fullname == "" then name else fullname + "." + name
  }

  lemma {:induction false} SplitDotless(name: string)
    requires '.' !in name
    ensures Split(name) == [name]
  {
    if name != "" {
      SplitDotless(name[1..]);
      assert [name[0]] + name[1..] == name;
    }
  }

  /** The last part of a name is what follows its last dot. */
  lemma {:induction false} LastPart(front: string, name: string)
    requires '.' !in name
    ensures |Split(front + "." + name)| > 1 && Last(Split(front + "." + name)) == name
  {
    if front == "" {
      assert front + "." + name == ['.'] + name;
      SplitCons('.', name);
      SplitDotless(name);
    } else {
      var rest := front[1..] + "." + name;
      assert front + "." + name == [front[0]] + rest;
      SplitCons(front[0], rest);
      LastPart(front[1..], name);
    }
  }

  lemma LastOfExtended(fullname: string, name: string)
    requires '.' !in name
    ensures Last(Split(Extend(fullname, name))) == name
  {
    if fullname == "" {
      SplitDotless(name);
    } else {
      LastPart(fullname, name);
    }
  }

  /** The full name that walking down the parts collects. */
  function Collected(parts: Path): string {
    if parts == [] then "" else Extend(Collected(Front(parts)), Last(parts))
  }

  lemma {:induction false} JoinAppend(parts: Path, name: string)
    requires parts != []
    ensures Join(parts + [name]) == Join(parts) + "." + name
  {
    if |parts| == 1 {
      assert (parts + [name])[1..] == [name];
    } else {
      JoinAppend(parts[1..], name);
      assert (parts + [name])[1..] == parts[1..] + [name];
      var n := parts[0] + ".";
      assert n + (Join(parts[1..]) + ("." + name)) == (n + Join(parts[1..])) + ("." + name);
    }
  }

  lemma {:induction false} JoinStart(parts: Path)
    requires parts != []
    ensures Join(parts) == "" <==> parts == [""]
    ensures |parts| > 1 && parts[0] == "" ==> Join(parts)[0] == '.'
    ensures parts[0] != "" ==> Join(parts) != "" && Join(parts)[0] == parts[0][0]
  {
  }

  lemma {:induction false} CollectedStart(parts: Path)
    requires forall part :: part in parts ==> '.' !in part
    ensures Collected(parts) == "" || Collected(parts)[0] != '.'
  {
    if parts != [] {
      CollectedStart(Front(parts));
      assert Last(parts) in parts;
      assert Last(parts) != "" ==> Last(parts)[0] in Last(parts);
    }
  }

  /** The collected name is the dotted path unless the path is longer than one part and the first part is empty. */
  lemma {:induction false} CollectedIsJoinIff(parts: Path)
    requires parts != [] && forall part :: part in parts ==> '.' !in part
    ensures Collected(parts) == Join(parts) <==> |parts| == 1 || parts[0] != ""
  {
    JoinStart(parts);
    CollectedStart(parts);
    if |parts| == 1 {
      assert Front(parts) == [] && Collected([]) == "";
    } else if parts[0] != "" {
      var front := Front(parts);
      assert parts == front + [Last(parts)];
      CollectedIsJoinIff(front);
      JoinStart(front);
      JoinAppend(front, Last(parts));
    }
  }

  // ---------- the tree and its invariant ----------

  function NewSection(fullname: string): Data {
    Data(fullname, None, false, [])
  }

  function Place(list: seq<Sibling>, s: Sibling, sort: bool): seq<Sibling> {
    if sort then Sort(list + [s], BY_NAME) else list + [s]
  }

  /** Add a childless node below the section, whose child list becomes the given one. */
  function Attach(t: Tree, path: Path, list: seq<Sibling>, s: Sibling, d: Data): Tree {
    var below := path + [s.name];
    var kids := t.kids[path := list];
    Tree(t.data[Key(below, s.section) := d], if s.section then kids[below := []] else kids)
  }

  function AddNode(t: Tree, path: Path, s: Sibling, d: Data, sort: bool): Tree
    requires path in t.kids
  {
    Attach(t, path, Place(t.kids[path], s, sort), s, d)
  }

  /** A node is in the child list of the section above it. */
  predicate NodeOk(t: Tree, key: Key) {
    && key.path != []
    && Front(key.path) in t.kids
    && Sibling(Last(key.path), key.section) in t.kids[Front(key.path)]
    && (key.section ==> key.path in t.kids)
  }

  /** A child list is that of a section and names nodes, each once, and is sorted if asked for. */
  ghost predicate ListOk(t: Tree, p: Path, sort: bool)
    requires p in t.kids
  {
    && (p != [] ==> Key(p, true) in t.data)
    && (forall s :: s in t.kids[p] ==> Key(p + [s.name], s.section) in t.data)
    && NoDuplicates(t.kids[p])
    && (sort ==> Sorted(t.kids[p], BY_NAME))
  }

  /** The child lists and the nodes agree, no siblings share name and kind, and siblings are sorted if asked for. */
  ghost predicate Inv(t: Tree, sort: bool) {
    && [] in t.kids
    && (forall key {:trigger NodeOk(t, key)} :: key in t.data ==> NodeOk(t, key))
    && (forall p {:trigger ListOk(t, p, sort)} :: p in t.kids ==> ListOk(t, p, sort))
  }

  lemma {:induction false} InsertNoDuplicates(list: seq<Sibling>, s: Sibling)
    requires NoDuplicates(list) && s !in list
    ensures NoDuplicates(InsertSorted(list, s, BY_NAME))
  {
    if list != [] {
      var front, last := Front(list), Last(list);
      if Before(s.name, last.name) {
        InsertNoDuplicates(front, s);
        var r := InsertSorted(front, s, BY_NAME);
        forall i | 0 <= i < |r| ensures r[i] != last {
          assert r[i] in multiset(r);
        }
      }
    }
  }

  /** What placing a new sibling does to a list. */
  lemma PlaceEffect(list: seq<Sibling>, s: Sibling, sort: bool)
    requires NoDuplicates(list) && s !in list && (sort ==> Sorted(list, BY_NAME))
    ensures NoDuplicates(Place(list, s, sort))
    ensures sort ==> Sorted(Place(list, s, sort), BY_NAME)
    ensures forall x :: x in Place(list, s, sort) <==> x in list || x == s
  {
    if sort {
      SortOneMore(list, s, BY_NAME);
      InsertKeepsSorted(list, s, BY_NAME);
      InsertNoDuplicates(list, s);
      forall x ensures x in Place(list, s, sort) <==> x in list || x == s {
        assert x in Place(list, s, sort) <==> x in multiset(Place(list, s, sort));
        assert x in list <==> x in multiset(list);
      }
    }
  }

  /** Only a section has a child list. */
  lemma NoListYet(t: Tree, path: Path, sort: bool)
    requires Inv(t, sort) && path != [] && Key(path, true) !in t.data
    ensures path !in t.kids
  {
    assert path in t.kids ==> ListOk(t, path, sort);
  }

  lemma AddNodeKeepsNode(t: Tree, path: Path, s: Sibling, d: Data, sort: bool, key: Key)
    requires Inv(t, sort) && path in t.kids && Key(path + [s.name], s.section) !in t.data
    requires key in AddNode(t, path, s, d, sort).data
    ensures NodeOk(AddNode(t, path, s, d, sort), key)
  {
    var below := path + [s.name];
    assert ListOk(t, path, sort);
    PlaceEffect(t.kids[path], s, sort);
    assert Front(below) == path != below && Last(below) == s.name;
    assert key in t.data ==> NodeOk(t, key);
    assert below in t.kids ==> ListOk(t, below, sort);
  }

  lemma AddNodeKeepsInv(t: Tree, path: Path, s: Sibling, d: Data, sort: bool)
    requires Inv(t, sort) && path in t.kids && Key(path + [s.name], s.section) !in t.data
    ensures Inv(AddNode(t, path, s, d, sort), sort)
  {
    var t' := AddNode(t, path, s, d, sort);
    forall key | key in t'.data ensures NodeOk(t', key) {
      AddNodeKeepsNode(t, path, s, d, sort, key);
    }
    assert ListOk(t, path, sort);
    PlaceEffect(t.kids[path], s, sort);
    forall p | p in t'.kids ensures ListOk(t', p, sort) {
      assert p in t.kids ==> ListOk(t, p, sort);
    }
  }

  // ---------- what a definition changes ----------

  /** Create the section below if it is missing. */
  function Section(t: Tree, path: Path, name: string, fullname: string, sort: bool): (t': Tree)
    requires Inv(t, sort) && path in t.kids
    ensures Inv(t', sort) && path + [name] in t'.kids
  {
    if Key(path + [name], true) in t.data then
      assert NodeOk(t, Key(path + [name], true));
      t
    else
      AddNodeKeepsInv(t, path, Sibling(name, true), NewSection(fullname), sort);
      AddNode(t, path, Sibling(name, true), NewSection(fullname), sort)
  }

  /** Create the missing sections on the way down the parts, from the k-th on. */
  function Sections(t: Tree, parts: Path, k: nat, fullname: string, sort: bool): (t': Tree)
    requires Inv(t, sort) && k <= |parts| && parts[..k] in t.kids
    ensures Inv(t', sort) && parts in t'.kids
    decreases |parts| - k
  {
    if k == |parts| then
      assert parts[..k] == parts;
      t
    else
      var full := Extend(fullname, parts[k]);
      assert parts[..k] + [parts[k]] == parts[..k + 1];
      Sections(Section(t, parts[..k], parts[k], full, sort), parts, k + 1, full, sort)
  }

  /**
    On the way down from t0 the sections ahead of the k-th part exist in t, and the
    rest of the walk leads to the same tree.
   */
  ghost predicate Walked(t0: Tree, t: Tree, parts: Path, k: nat, fullname: string, sort: bool) {
    && k <= |parts| && Inv(t0, sort) && Inv(t, sort) && [] in t0.kids && parts[..k] in t.kids
    && Sections(t, parts, k, fullname, sort) == Sections(t0, parts, 0, "", sort)
  }

  lemma WalkedEnds(t: Tree, parts: Path, sort: bool)
    requires Inv(t, sort) && [] in t.kids
    ensures Walked(t, t, parts, 0, "", sort)
    ensures forall t', fullname :: Walked(t, t', parts, |parts|, fullname, sort) ==>
      t' == Sections(t, parts, 0, "", sort)
  {
    assert parts[..|parts|] == parts;
  }

  lemma WalkedStep(t0: Tree, t: Tree, parts: Path, k: nat, fullname: string, sort: bool)
    requires Walked(t0, t, parts, k, fullname, sort) && k < |parts|
    ensures parts[..k] in t.kids
    ensures
      var full := Extend(fullname, parts[k]);
      Walked(t0, Section(t, parts[..k], parts[k], full, sort), parts, k + 1, full, sort)
  {
    PrefixStep(parts, k);
  }

  function KeyOf(d: Definition): Key {
    Key(Split(d.fullname), d.section)
  }

  function NonEmpty(desc: seq<string>): seq<string> {
    if desc == [] then []
    else if desc[0] == "" then NonEmpty(desc[1..])
    else [desc[0]] + NonEmpty(desc[1..])
  }

  function DataOf(d: Definition): Data {
    Data(d.fullname, d.default, d.commented, NonEmpty(d.desc))
  }

  /** Take over all but the full name. */
  function Adopted(known: Data, recent: Data): Data {
    recent.(fullname := known.fullname)
  }

  function Adopt(t: Tree, key: Key, d: Data): Tree
    requires key in t.data
  {
    t.(data := t.data[key := Adopted(t.data[key], d)])
  }

  lemma AdoptKeepsInv(t: Tree, key: Key, d: Data, sort: bool)
    requires Inv(t, sort) && key in t.data
    ensures Inv(Adopt(t, key, d), sort)
  {
    var t' := Adopt(t, key, d);
    forall k | k in t'.data ensures NodeOk(t', k) {
      assert NodeOk(t, k);
    }
    forall p | p in t'.kids ensures ListOk(t', p, sort) {
      assert ListOk(t, p, sort);
    }
  }

  /** Let the node take over the data if there is one, or else add it. */
  function Put(t: Tree, path: Path, s: Sibling, d: Data, sort: bool): (t': Tree)
    requires Inv(t, sort) && path in t.kids
    ensures Inv(t', sort)
  {
    var key := Key(path + [s.name], s.section);
    if key in t.data then
      AdoptKeepsInv(t, key, d, sort);
      Adopt(t, key, d)
    else
      AddNodeKeepsInv(t, path, s, d, sort);
      AddNode(t, path, s, d, sort)
  }

  function Add(t: Tree, d: Definition, sort: bool): (t': Tree)
    requires Inv(t, sort)
    ensures Inv(t', sort)
  {
    var path := Split(d.fullname);
    Put(Sections(t, Front(path), 0, "", sort), Front(path), Sibling(Last(path), d.section), DataOf(d), sort)
  }

  /** Creating sections adds the missing ones under their collected names and leaves the other nodes alone. */
  lemma {:induction false} SectionsEffect(t: Tree, parts: Path, k: nat, fullname: string, sort: bool, key: Key)
    requires Inv(t, sort) && k <= |parts| && parts[..k] in t.kids && fullname == Collected(parts[..k])
    ensures
      var t' := Sections(t, parts, k, fullname, sort);
      && (key in t'.data <==> key in t.data || (key.section && k < |key.path| && key.path <= parts))
      && (key in t.data ==> t'.data[key] == t.data[key])
      && (key in t'.data && key !in t.data ==> t'.data[key] == NewSection(Collected(key.path)))
    decreases |parts| - k
  {
    if k < |parts| {
      var next := parts[..k + 1];
      assert parts[..k] + [parts[k]] == next && Front(next) == parts[..k];
      var full := Extend(fullname, parts[k]);
      assert key.path <= parts && |key.path| == k + 1 ==> key.path == next;
      SectionsEffect(Section(t, parts[..k], parts[k], full, sort), parts, k + 1, full, sort, key);
    }
  }

  /** Without sorting, creating sections only appends to the child lists. */
  lemma {:induction false} SectionsAppend(t: Tree, parts: Path, k: nat, fullname: string, p: Path)
    requires Inv(t, false) && k <= |parts| && parts[..k] in t.kids && p in t.kids
    ensures
      var t' := Sections(t, parts, k, fullname, false);
      p in t'.kids && t.kids[p] <= t'.kids[p]
    decreases |parts| - k
  {
    if k < |parts| {
      var next := parts[..k + 1];
      assert parts[..k] + [parts[k]] == next;
      var full := Extend(fullname, parts[k]);
      assert next in t.kids ==> ListOk(t, next, false);
      SectionsAppend(Section(t, parts[..k], parts[k], full, false), parts, k + 1, full, p);
    }
  }

  // ---------- what one definition does ----------

  /** The definition is for this node, or for one below this section. */
  predicate Mentions(d: Definition, key: Key) {
    KeyOf(d) == key || (key.section && key.path != [] && key.path < Split(d.fullname))
  }

  lemma AddEffect(t: Tree, d: Definition, sort: bool, key: Key)
    requires Inv(t, sort)
    ensures
      var t' := Add(t, d, sort);
      && (key in t'.data <==> key in t.data || Mentions(d, key))
      && (key == KeyOf(d) ==>
        t'.data[key] == if key in t.data then Adopted(t.data[key], DataOf(d)) else DataOf(d))
      && (key != KeyOf(d) && key in t.data ==> t'.data[key] == t.data[key])
      && (key != KeyOf(d) && key in t'.data && key !in t.data ==> t'.data[key] == NewSection(Collected(key.path)))
  {
    var path := Split(d.fullname);
    var front := Front(path);
    FrontAndLast(path);
    PrefixOfFront(key.path, path);
    SectionsEffect(t, front, 0, "", sort, key);
    assert front[..0] == [];
  }

  lemma AddAppends(t: Tree, d: Definition, p: Path)
    requires Inv(t, false) && p in t.kids
    ensures p in Add(t, d, false).kids && t.kids[p] <= Add(t, d, false).kids[p]
  {
    var path := Split(d.fullname);
    var t' := Sections(t, Front(path), 0, "", false);
    SectionsAppend(t, Front(path), 0, "", p);
    FrontAndLast(path);
    assert path in t'.kids ==> ListOk(t', path, false);
  }

  /** Every section on the way to a node exists. */
  lemma {:induction false} PrefixExists(t: Tree, key: Key, p: Path, sort: bool)
    requires Inv(t, sort) && key in t.data && p != [] && p < key.path
    ensures Key(p, true) in t.data
    decreases |key.path|
  {
    var front := Front(key.path);
    assert NodeOk(t, key);
    assert ListOk(t, front, sort);
    if p != front {
      assert front != [] && p < front;
      PrefixExists(t, Key(front, true), p, sort);
    }
  }

  lemma SectionMissing(t: Tree, parts: Path, k: nat, sort: bool)
    requires Inv(t, sort) && 0 < k <= |parts| && Key(parts[..k], true) !in t.data
    ensures Key(parts, true) !in t.data
  {
    if k < |parts| {
      if Key(parts, true) in t.data {
        PrefixExists(t, Key(parts, true), parts[..k], sort);
      }
    } else {
      assert parts[..k] == parts;
    }
  }

  /** Creating sections that all exist changes nothing. */
  lemma {:induction false} SectionsExist(t: Tree, parts: Path, k: nat, fullname: string, sort: bool)
    requires Inv(t, sort) && k <= |parts| && parts[..k] in t.kids
    requires forall p :: p != [] && p <= parts ==> Key(p, true) in t.data
    ensures Sections(t, parts, k, fullname, sort) == t
    decreases |parts| - k
  {
    if k < |parts| {
      var full := Extend(fullname, parts[k]);
      PrefixStep(parts, k);
      assert parts[..k + 1] <= parts;
      assert Section(t, parts[..k], parts[k], full, sort) == t;
      SectionsExist(t, parts, k + 1, full, sort);
    }
  }

  /** Defining a node again keeps every child list: a section keeps its children. */
  lemma RedefinitionKeepsChildren(t: Tree, d: Definition, sort: bool)
    requires Inv(t, sort) && KeyOf(d) in t.data
    ensures Add(t, d, sort).kids == t.kids
  {
    var key := KeyOf(d);
    var front := Front(key.path);
    forall p | p != [] && p <= front ensures Key(p, true) in t.data {
      assert p < key.path;
      PrefixExists(t, key, p, sort);
    }
    SectionsExist(t, front, 0, "", sort);
    FrontAndLast(key.path);
  }

  // ---------- all definitions ----------

  function AddAll(defs: seq<Definition>, sort: bool): (t: Tree)
    ensures Inv(t, sort)
  {
    if defs == [] then EMPTY
    else Add(AddAll(Front(defs), sort), Last(defs), sort)
  }

  /** The index of the last definition of the node itself, or -1. */
  function LastOf(defs: seq<Definition>, key: Key): (i: int)
    ensures -1 <= i < |defs|
    ensures i >= 0 ==> KeyOf(defs[i]) == key
    ensures forall j :: i < j < |defs| ==> KeyOf(defs[j]) != key
  {
    if defs == [] then -1
    else if KeyOf(Last(defs)) == key then |defs| - 1
    else LastOf(Front(defs), key)
  }

  ghost predicate Mentioned(defs: seq<Definition>, key: Key) {
    exists i :: 0 <= i < |defs| && Mentions(defs[i], key)
  }

  lemma MentionedStep(defs: seq<Definition>, key: Key)
    requires defs != []
    ensures Mentioned(defs, key) <==> Mentioned(Front(defs), key) || Mentions(Last(defs), key)
  {
    if Mentioned(Front(defs), key) {
      var i :| 0 <= i < |Front(defs)| && Mentions(Front(defs)[i], key);
      assert Mentions(defs[i], key);
    }
    if Mentioned(defs, key) {
      var i :| 0 <= i < |defs| && Mentions(defs[i], key);
      assert i == |defs| - 1 || Mentions(Front(defs)[i], key);
    }
    assert Mentions(Last(defs), key) ==> Mentions(defs[|defs| - 1], key);
  }

  lemma {:induction false} NodeAdopts(defs: seq<Definition>, sort: bool, key: Key)
    ensures
      var t := AddAll(defs, sort);
      && (key in t.data <==> Mentioned(defs, key))
      && (key in t.data ==>
        var i := LastOf(defs, key);
        t.data[key] == Adopted(t.data[key], if i >= 0 then DataOf(defs[i]) else NewSection("")))
  {
    if defs != [] {
      NodeAdopts(Front(defs), sort, key);
      AddEffect(AddAll(Front(defs), sort), Last(defs), sort, key);
      MentionedStep(defs, key);
    }
  }

  /** The number of non-empty paragraphs among the first n. */
  function Filled(all: seq<string>, n: nat): nat
    requires n <= |all|
  {
    if n == 0 then 0 else Filled(all, n - 1) + if all[n - 1] != "" then 1 else 0
  }

  /** `kept` are the non-empty paragraphs: there is one for each, behind those for the ones before it. */
  ghost predicate Paragraphs(all: seq<string>, kept: seq<string>) {
    && |kept| == Filled(all, |all|)
    && forall i :: 0 <= i < |all| && all[i] != "" ==> Filled(all, i) < |kept| && kept[Filled(all, i)] == all[i]
  }

  lemma {:induction false} FilledStep(all: seq<string>, n: nat)
    requires 0 < n <= |all|
    ensures Filled(all, n) == Filled(all[1..], n - 1) + if all[0] != "" then 1 else 0
  {
    if n > 1 {
      FilledStep(all, n - 1);
    }
  }

  lemma {:induction false} NonEmptyParagraphs(desc: seq<string>)
    ensures Paragraphs(desc, NonEmpty(desc))
  {
    if desc != [] {
      NonEmptyParagraphs(desc[1..]);
      FilledStep(desc, |desc|);
      forall i | 0 < i < |desc| && desc[i] != ""
        ensures Filled(desc, i) < |NonEmpty(desc)| && NonEmpty(desc)[Filled(desc, i)] == desc[i]
      {
        FilledStep(desc, i);
        assert desc[1..][i - 1] == desc[i];
      }
    }
  }

  /**
    The tree is an index of the definitions: it has a node for exactly the names
    defined and the sections above them. A node carries the default, the commented
    flag and the non-empty paragraphs of its last definition, and nothing of the
    sort if it is a section that is never defined itself.
   */
  lemma TreeIsIndex(defs: seq<Definition>, sort: bool, key: Key)
    ensures
      var t := AddAll(defs, sort);
      && (key in t.data <==> Mentioned(defs, key))
      && (key in t.data ==>
        var i := LastOf(defs, key);
        && t.data[key].default == (if i >= 0 then defs[i].default else None)
        && t.data[key].commented == (if i >= 0 then defs[i].commented else false)
        && Paragraphs(if i >= 0 then defs[i].desc else [], t.data[key].desc))
  {
    NodeAdopts(defs, sort, key);
    NonEmptyParagraphs([]);
    if LastOf(defs, key) >= 0 {
      NonEmptyParagraphs(defs[LastOf(defs, key)].desc);
    }
  }

  /** With sorting, no option or section stands behind one whose name comes after its own. */
  lemma ChildrenSorted(defs: seq<Definition>, p: Path, i: nat, j: nat)
    requires p in AddAll(defs, true).kids && i < j < |AddAll(defs, true).kids[p]|
    ensures var kids := AddAll(defs, true).kids[p]; !Before(kids[j].name, kids[i].name)
  {
    assert ListOk(AddAll(defs, true), p, true);
    assert forall s :: BY_NAME(s) == s.name;
  }

  /** The first definition that mentions the node is one below it, so the node was created on the way down. */
  predicate MadeOnTheWay(defs: seq<Definition>, key: Key) {
    defs != [] &&
    if Mentions(defs[0], key) then KeyOf(defs[0]) != key else MadeOnTheWay(defs[1..], key)
  }

  lemma {:induction false} MadeOnTheWayStep(defs: seq<Definition>, key: Key)
    requires defs != []
    ensures MadeOnTheWay(defs, key) <==>
      if Mentioned(Front(defs), key) then MadeOnTheWay(Front(defs), key)
      else Mentions(Last(defs), key) && KeyOf(Last(defs)) != key
  {
    if |defs| > 1 {
      assert Front(defs)[0] == defs[0] && Front(defs)[1..] == Front(defs[1..]);
      MadeOnTheWayStep(defs[1..], key);
      if Mentions(defs[0], key) {
        assert Mentions(Front(defs)[0], key);
      } else {
        assert forall i :: 0 < i < |Front(defs)| ==> Front(defs)[i] == Front(defs[1..])[i - 1];
        assert forall i :: 0 <= i < |Front(defs[1..])| ==> Front(defs[1..])[i] == Front(defs)[i + 1];
      }
    } else {
      assert defs[1..] == [];
    }
  }

  lemma {:induction false} FullnameOf(defs: seq<Definition>, sort: bool, key: Key)
    requires Mentioned(defs, key)
    ensures key in AddAll(defs, sort).data
    ensures AddAll(defs, sort).data[key].fullname ==
      if MadeOnTheWay(defs, key) then Collected(key.path) else Join(key.path)
  {
    var before, d := Front(defs), Last(defs);
    MentionedStep(defs, key);
    MadeOnTheWayStep(defs, key);
    TreeIsIndex(before, sort, key);
    AddEffect(AddAll(before, sort), d, sort, key);
    if Mentioned(before, key) {
      FullnameOf(before, sort, key);
    }
    SplitIsInverse(d.fullname);
  }

  lemma MentionedDotless(defs: seq<Definition>, key: Key)
    requires Mentioned(defs, key)
    ensures forall part :: part in key.path ==> '.' !in part
  {
    var i :| 0 <= i < |defs| && Mentions(defs[i], key);
    SplitIsInverse(defs[i].fullname);
  }

  /**
    A node's full name is its dotted path, except for a section below an empty
    first part that was created on the way down.
   */
  lemma FullnameIsPathIff(defs: seq<Definition>, sort: bool, key: Key)
    requires Mentioned(defs, key) && key.path != []
    ensures key in AddAll(defs, sort).data
    ensures AddAll(defs, sort).data[key].fullname == Join(key.path) <==>
      !(MadeOnTheWay(defs, key) && |key.path| > 1 && key.path[0] == "")
  {
    FullnameOf(defs, sort, key);
    MentionedDotless(defs, key);
    CollectedIsJoinIff(key.path);
  }

  /** A definition whose name starts with a dot: the section "a" above it is named "a" and not ".a". */
  lemma LeadingDotLosesDot(sort: bool)
    ensures
      var t := AddAll([Definition(".a.b", None, false, false, [])], sort);
      var key := Key(["", "a"], true);
      key in t.data && t.data[key].fullname != Join(key.path)
  {
    var defs := [Definition(".a.b", None, false, false, [])];
    var key := Key(["", "a"], true);
    SplitCons('b', "");
    SplitCons('.', "b");
    SplitCons('a', ".b");
    SplitCons('.', "a.b");
    assert ['b'] + "" == "b" && ['.'] + "b" == ".b" && ['a'] + ".b" == "a.b" && ['.'] + "a.b" == ".a.b";
    assert Split("b") == ["b"] && Split(".b") == ["", "b"];
    assert ['a'] + "" == "a" && Split("a.b") == ["a", "b"];
    assert Mentions(defs[0], key);
    FullnameIsPathIff(defs, sort, key);
  }

  /** Without sorting, later definitions only append to the child lists: siblings stay in order of first mention. */
  lemma {:induction false} SiblingsOnlyAppended(defs: seq<Definition>, more: seq<Definition>, p: Path)
    requires p in AddAll(defs, false).kids
    ensures p in AddAll(defs + more, false).kids
    ensures AddAll(defs, false).kids[p] <= AddAll(defs + more, false).kids[p]
  {
    if more == [] {
      assert defs + more == defs;
    } else {
      var before := defs + Front(more);
      SiblingsOnlyAppended(defs, Front(more), p);
      assert Front(defs + more) == before && Last(defs + more) == Last(more);
      AddAppends(AddAll(before, false), Last(more), p);
    }
  }

  // ---------- sorting at every step or once at the end ----------

  const SORTED: seq<Sibling> -> seq<Sibling> := (list: seq<Sibling>) => Sort(list, BY_NAME)

  /** One map is the other with the function applied to every value. */
  ghost predicate Image<A, B>(t: map<Path, A>, u: map<Path, B>, f: A -> B) {
    u.Keys == t.Keys && forall p {:trigger u[p]} :: p in u ==> u[p] == f(t[p])
  }

  lemma ImageUpdate<A, B>(t: map<Path, A>, u: map<Path, B>, f: A -> B, path: Path, a: A)
    requires Image(t, u, f)
    ensures Image(t[path := a], u[path := f(a)], f)
  {
  }

  /** The same tree with every child list sorted. */
  ghost predicate SortedCopy(t: Tree, u: Tree) {
    u.data == t.data && Image(t.kids, u.kids, SORTED)
  }

  lemma PlaceSorted(list: seq<Sibling>, s: Sibling)
    ensures Place(SORTED(list), s, true) == SORTED(Place(list, s, false))
    ensures SORTED([]) == []
  {
    SortAgain(list, s, BY_NAME);
  }

  lemma AddNodeSorted(t: Tree, u: Tree, path: Path, s: Sibling, d: Data)
    requires SortedCopy(t, u) && path in t.kids
    ensures SortedCopy(AddNode(t, path, s, d, false), AddNode(u, path, s, d, true))
  {
    var placed, below := Place(t.kids[path], s, false), path + [s.name];
    PlaceSorted(t.kids[path], s);
    ImageUpdate(t.kids, u.kids, SORTED, path, placed);
    ImageUpdate(t.kids[path := placed], u.kids[path := SORTED(placed)], SORTED, below, []);
  }

  lemma SectionSorted(t: Tree, u: Tree, path: Path, name: string, fullname: string)
    requires Inv(t, false) && Inv(u, true) && SortedCopy(t, u) && path in t.kids
    ensures SortedCopy(Section(t, path, name, fullname, false), Section(u, path, name, fullname, true))
  {
    if Key(path + [name], true) !in t.data {
      AddNodeSorted(t, u, path, Sibling(name, true), NewSection(fullname));
    }
  }

  lemma PutSorted(t: Tree, u: Tree, path: Path, s: Sibling, d: Data)
    requires Inv(t, false) && Inv(u, true) && SortedCopy(t, u) && path in t.kids
    ensures SortedCopy(Put(t, path, s, d, false), Put(u, path, s, d, true))
  {
    if Key(path + [s.name], s.section) !in t.data {
      AddNodeSorted(t, u, path, s, d);
    }
  }

  lemma {:induction false} SectionsSorted(t: Tree, u: Tree, parts: Path, k: nat, fullname: string)
    requires Inv(t, false) && Inv(u, true) && SortedCopy(t, u)
    requires k <= |parts| && parts[..k] in t.kids
    ensures SortedCopy(Sections(t, parts, k, fullname, false), Sections(u, parts, k, fullname, true))
    decreases |parts| - k
  {
    if k < |parts| {
      var full := Extend(fullname, parts[k]);
      PrefixStep(parts, k);
      SectionSorted(t, u, parts[..k], parts[k], full);
      SectionsSorted(Section(t, parts[..k], parts[k], full, false), Section(u, parts[..k], parts[k], full, true), parts,
                     k + 1, full);
    }
  }

  /** Sorting after every insertion gives what sorting the child lists once at the end would give. */
  lemma {:induction false} SortingOnceIsEnough(defs: seq<Definition>)
    ensures SortedCopy(AddAll(defs, false), AddAll(defs, true))
  {
    if defs != [] {
      var d := Last(defs);
      var t, u, path := AddAll(Front(defs), false), AddAll(Front(defs), true), Split(d.fullname);
      SortingOnceIsEnough(Front(defs));
      SectionsSorted(t, u, Front(path), 0, "");
      PutSorted(Sections(t, Front(path), 0, "", false), Sections(u, Front(path), 0, "", true), Front(path),
                Sibling(Last(path), d.section), DataOf(d));
    }
  }
}
