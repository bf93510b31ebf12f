/** The option parser object of conf/format-options.py with its nodes on the heap, proved against OptionTree. */
module OptionParser {
  import opened Wrappers
  import opened Sequences
  import opened StableSort
  import opened OptionTree

  class ConfigOption {
    const name: string
    const fullname: string
    var default: Option<string>
    const section: bool
    var commented: bool
    var desc: seq<string>
    var options: seq<ConfigOption>

    constructor (fullname: string, default: Option<string>, section: bool, commented: bool)
      ensures this.fullname == fullname && name == Last(Split(fullname)) && this.section == section
      ensures this.default == default && this.commented == commented && desc == [] && options == []
    {
      this.name := Last(Split(fullname));
      this.fullname := fullname;
      this.default := default;
      this.section := section;
      this.commented := commented;
      this.desc := [];
      this.options := [];
    }

    function Data(): Data
      reads this
    {
      OptionTree.Data.Data(fullname, default, commented, desc)
    }

    /** The object read as a definition. */
    function Definition(): Definition
      reads this
    {
      OptionTree.Definition.Definition(fullname, default, section, commented, desc)
    }

    method Adopt(other: ConfigOption)
      modifies this
      ensures default == old(other.default) && commented == old(other.commented) && desc == old(other.desc)
      ensures Data() == Adopted(old(Data()), old(other.Data()))
      ensures options == old(options)
    {
      default := other.default;
      commented := other.commented;
      desc := other.desc;
    }

    method FilterDesc()
      modifies this`desc
      ensures desc == NonEmpty(old(desc))
    {
      var kept := [];
      for i := 0 to |desc|
        invariant desc == old(desc) && NonEmpty(desc) == kept + NonEmpty(desc[i..])
      {
        assert desc[i..][1..] == desc[i + 1..];
        if desc[i] != "" {
          assert kept + ([desc[i]] + NonEmpty(desc[i + 1..])) == kept + [desc[i]] + NonEmpty(desc[i + 1..]);
          kept := kept + [desc[i]];
        }
      }
      assert desc[|desc|..] == [] && kept + [] == kept;
      desc := kept;
    }
  }

  const BY_OBJECT_NAME: ConfigOption -> string := (o: ConfigOption) => o.name

  function Siblings(list: seq<ConfigOption>): (r: seq<Sibling>)
    ensures |r| == |list| && forall i :: 0 <= i < |r| ==> r[i] == Sibling(list[i].name, list[i].section)
  {
    seq(|list|, i requires 0 <= i < |list| => Sibling(list[i].name, list[i].section))
  }

  lemma SiblingsAppend(list: seq<ConfigOption>, o: ConfigOption)
    ensures Siblings(list + [o]) == Siblings(list) + [Sibling(o.name, o.section)]
  {
  }

  lemma {:induction false} SiblingsOfInsert(list: seq<ConfigOption>, o: ConfigOption)
    ensures Siblings(InsertSorted(list, o, BY_OBJECT_NAME))
         == InsertSorted(Siblings(list), Sibling(o.name, o.section), BY_NAME)
  {
    if list == [] {
      SiblingsAppend([], o);
      assert Siblings([]) == [];
    } else {
      var front, last := Front(list), Last(list);
      SiblingsAppend(front, last);
      assert front + [last] == list;
      if Before(o.name, last.name) {
        SiblingsOfInsert(front, o);
        SiblingsAppend(InsertSorted(front, o, BY_OBJECT_NAME), last);
      } else {
        SiblingsAppend(list, o);
      }
    }
  }

  /** Sorting the objects sorts the names and kinds they stand for. */
  lemma {:induction false} SiblingsOfSort(list: seq<ConfigOption>)
    ensures Siblings(Sort(list, BY_OBJECT_NAME)) == Sort(Siblings(list), BY_NAME)
  {
    if list != [] {
      var front := Front(list);
      assert Front(Siblings(list)) == Siblings(front);
      SiblingsOfSort(front);
      SiblingsOfInsert(Sort(front, BY_OBJECT_NAME), Last(list));
    }
  }

  /** The list holds the objects of the siblings below the path. */
  ghost predicate Lists(list: seq<ConfigOption>, kids: seq<Sibling>, path: Path, index: map<Key, ConfigOption>) {
    && Siblings(list) == kids
    && forall i {:trigger list[i]} :: 0 <= i < |list| ==>
      var key := Key(path + [list[i].name], list[i].section);
      key in index && index[key] == list[i]
  }

  lemma ListsAppend(list: seq<ConfigOption>, kids: seq<Sibling>, path: Path, index: map<Key, ConfigOption>,
                    o: ConfigOption)
    requires Lists(list, kids, path, index) && Key(path + [o.name], o.section) !in index
    ensures Lists(list + [o], kids + [Sibling(o.name, o.section)], path, index[Key(path + [o.name], o.section) := o])
  {
    SiblingsAppend(list, o);
  }

  lemma ListsPermuted(list: seq<ConfigOption>, kids: seq<Sibling>, path: Path, index: map<Key, ConfigOption>,
                      r: seq<ConfigOption>)
    requires Lists(list, kids, path, index) && forall i :: 0 <= i < |r| ==> r[i] in list
    ensures Lists(r, Siblings(r), path, index)
  {
    forall i | 0 <= i < |r|
      ensures Key(path + [r[i].name], r[i].section) in index && index[Key(path + [r[i].name], r[i].section)] == r[i]
    {
      var j :| 0 <= j < |list| && list[j] == r[i];
    }
  }

  /** The tree with the objects of its nodes, the child lists of its sections, and the set of all the objects. */
  datatype Model = Model(tree: Tree, index: map<Key, ConfigOption>, lists: map<Path, seq<ConfigOption>>,
                         repr: set<ConfigOption>)

  ghost predicate ListedAt(m: Model, path: Path)
    requires path in m.lists && path in m.tree.kids
  {
    Lists(m.lists[path], m.tree.kids[path], path, m.index)
  }

  /** No other node has the object of this one. */
  ghost predicate Alone(m: Model, key: Key)
    requires key in m.index
  {
    forall k :: k in m.index && m.index[k] == m.index[key] ==> k == key
  }

  ghost predicate Linked(m: Model) {
    && m.index.Keys == m.tree.data.Keys
    && m.lists.Keys == m.tree.kids.Keys
    && (forall key {:trigger m.index[key]} :: key in m.index ==> m.index[key] in m.repr)
    && (forall path {:trigger ListedAt(m, path)} :: path in m.lists ==> ListedAt(m, path))
    && (forall key {:trigger Alone(m, key)} :: key in m.index ==> Alone(m, key))
  }

  /** The model with a childless object attached below the section, whose list becomes the given one. */
  ghost function Attached(m: Model, path: Path, list: seq<ConfigOption>, o: ConfigOption, d: Data): Model {
    var below, lists := path + [o.name], m.lists[path := list];
    Model(Attach(m.tree, path, Siblings(list), Sibling(o.name, o.section), d),
          m.index[Key(below, o.section) := o],
          if o.section then lists[below := []] else lists,
          m.repr + {o})
  }

  lemma AttachedLinked(m: Model, path: Path, list: seq<ConfigOption>, o: ConfigOption, d: Data)
    requires Linked(m) && Key(path + [o.name], o.section) !in m.index && o !in m.repr
    requires Lists(list, Siblings(list), path, m.index[Key(path + [o.name], o.section) := o])
    ensures Linked(Attached(m, path, list, o, d))
  {
    var m' := Attached(m, path, list, o, d);
    assert path + [o.name] != path;
    forall p | p in m'.lists ensures ListedAt(m', p) {
      if o.section && p == path + [o.name] {
        assert Siblings([]) == [];
      } else if p != path {
        assert ListedAt(m, p);
      }
    }
    forall key | key in m'.index ensures Alone(m', key) {
      assert key in m.index ==> Alone(m, key);
    }
  }

  lemma AdoptKeepsLinks(m: Model, key: Key, d: Data)
    requires Linked(m) && key in m.tree.data
    ensures Linked(m.(tree := Adopt(m.tree, key, d)))
  {
    var m' := m.(tree := Adopt(m.tree, key, d));
    forall p | p in m'.lists ensures ListedAt(m', p) {
      assert ListedAt(m, p);
    }
    forall k | k in m'.index ensures Alone(m', k) {
      assert Alone(m, k);
    }
  }

  /** The object has the node's name, kind, data and children. */
  ghost predicate StandsFor(o: ConfigOption, key: Key, m: Model)
    reads o
  {
    && key.path != [] && o.name == Last(key.path) && o.section == key.section
    && key in m.tree.data && m.tree.data[key] == o.Data()
    && (if key.section then key.path in m.lists && o.options == m.lists[key.path] else o.options == [])
  }

  /** Attaching a node below a section concerns no other object. */
  lemma AttachedKeepsOthers(m: Model, path: Path, list: seq<ConfigOption>, o: ConfigOption, key: Key)
    requires key in m.index && StandsFor(m.index[key], key, m) && key != Key(path, true)
    requires Key(path + [o.name], o.section) !in m.index
    ensures StandsFor(m.index[key], key, Attached(m, path, list, o, o.Data()))
  {
  }

  lemma AttachedNew(m: Model, path: Path, list: seq<ConfigOption>, o: ConfigOption)
    requires o.options == []
    ensures StandsFor(o, Key(path + [o.name], o.section), Attached(m, path, list, o, o.Data()))
  {
  }

  class Parser {
    var options: seq<ConfigOption>
    const sort: bool

    /** What the objects stand for. */
    ghost var model: Model

    ghost predicate Holds(key: Key)
      requires key in model.index
      reads this, model.index[key]
    {
      StandsFor(model.index[key], key, model)
    }

    ghost predicate Valid()
      reads this, model.repr
    {
      && Inv(model.tree, sort)
      && Linked(model)
      && [] in model.lists && options == model.lists[[]]
      && forall key {:trigger Holds(key)} :: key in model.index ==> Holds(key)
    }

    constructor (sort: bool)
      ensures Valid() && this.sort == sort && model.tree == EMPTY && model.index == map[] && model.repr == {}
    {
      options := [];
      this.sort := sort;
      model := Model(EMPTY, map[], map[[] := []], {});
      new;
      assert Siblings([]) == [];
    }

    /** The object of the section, or nothing for the parser itself. */
    ghost predicate IsAt(parent: ConfigOption?, path: Path)
      reads this
    {
      && path in model.lists
      && if path == [] then parent == null else Key(path, true) in model.index && parent == model.index[Key(path, true)]
    }

    /** The options of the section, or of the parser. */
    function OptionsOf(parent: ConfigOption?, ghost path: Path): (list: seq<ConfigOption>)
      requires Valid() && IsAt(parent, path)
      reads this, model.repr, parent
      ensures path in model.tree.kids && Lists(list, model.tree.kids[path], path, model.index)
    {
      assert ListedAt(model, path);
      assert path != [] ==> Holds(Key(path, true));
      if parent == null then options else parent.options
    }

    /** The first child of the section, or of the parser, with the name and kind. */
    method Find(parent: ConfigOption?, name: string, section: bool, ghost path: Path) returns (found: ConfigOption?)
      requires Valid() && IsAt(parent, path)
      ensures found != null <==> Key(path + [name], section) in model.index
      ensures found != null ==> found == model.index[Key(path + [name], section)]
    {
      var list := OptionsOf(parent, path);
      ghost var key := Key(path + [name], section);
      for i := 0 to |list|
        invariant Sibling(name, section) !in model.tree.kids[path][..i]
      {
        if list[i].name == name && list[i].section == section {
          return list[i];
        }
      }
      assert Front(key.path) == path;
      assert key in model.tree.data ==> NodeOk(model.tree, key);
      return null;
    }

    /** The list with the object appended, and sorted if asked for. */
    method Placed(list: seq<ConfigOption>, o: ConfigOption, ghost kids: seq<Sibling>, ghost path: Path,
                  ghost index: map<Key, ConfigOption>) returns (r: seq<ConfigOption>)
      requires Lists(list, kids, path, index) && Key(path + [o.name], o.section) !in index
      ensures Lists(r, Place(kids, Sibling(o.name, o.section), sort), path,
        index[Key(path + [o.name], o.section) := o])
    {
      ghost var s, index' := Sibling(o.name, o.section), index[Key(path + [o.name], o.section) := o];
      r := list + [o];
      ListsAppend(list, kids, path, index, o);
      if sort {
        SiblingsOfSort(r);
        SortMembers(r, BY_OBJECT_NAME);
        ListsPermuted(r, kids + [s], path, index', Sort(r, BY_OBJECT_NAME));
        r := Sort(r, BY_OBJECT_NAME);
      }
    }

    /** Replace the child list of the section, or of the parser, which is all that the new model asks for. */
    method SetOptions(parent: ConfigOption?, list: seq<ConfigOption>, ghost path: Path, ghost m: Model)
      requires Inv(m.tree, sort) && Linked(m) && [] in m.lists && path in m.lists && m.lists[path] == list
      requires if path == [] then parent == null else
        && Key(path, true) in m.index && m.index[Key(path, true)] == parent && options == m.lists[[]]
        && StandsFor(parent, Key(path, true), m.(lists := m.lists[path := parent.options]))
      requires forall k {:trigger m.index[k]} :: k in m.index && (path == [] || k != Key(path, true)) ==>
        StandsFor(m.index[k], k, m)
      modifies this, parent
      ensures Valid() && model == m
    {
      if parent == null {
        options := list;
      } else {
        assert Alone(m, Key(path, true));
        parent.options := list;
      }
      model := m;
    }

    /** Give the section, or the parser, a child list with a new childless object. */
    method Enter(parent: ConfigOption?, list: seq<ConfigOption>, o: ConfigOption, ghost path: Path)
      requires Valid() && IsAt(parent, path)
      requires o !in model.repr && o.options == [] && Key(path + [o.name], o.section) !in model.index
      requires o.section ==> path + [o.name] !in model.lists
      requires Inv(Attach(model.tree, path, Siblings(list), Sibling(o.name, o.section), o.Data()), sort)
      requires Lists(list, Siblings(list), path, model.index[Key(path + [o.name], o.section) := o])
      modifies this, parent
      ensures Valid() && model == Attached(old(model), path, list, o, o.Data())
    {
      ghost var m, attached := model, Attached(model, path, list, o, o.Data());
      AttachedLinked(m, path, list, o, o.Data());
      AttachedNew(m, path, list, o);
      assert path != [] ==> Holds(Key(path, true));
      forall k | k in m.index && (path == [] || k != Key(path, true)) ensures StandsFor(m.index[k], k, attached) {
        assert Holds(k);
        AttachedKeepsOthers(m, path, list, o, k);
      }
      SetOptions(parent, list, path, attached);
    }

    /** Append a childless object to the list of the section, or of the parser, and sort the list if asked for. */
    method Append(parent: ConfigOption?, o: ConfigOption, ghost path: Path)
      requires Valid() && IsAt(parent, path)
      requires o !in model.repr && o.options == [] && Key(path + [o.name], o.section) !in model.index
      modifies this, parent
      ensures Valid() && model.repr == old(model).repr + {o}
      ensures model.index == old(model).index[Key(path + [o.name], o.section) := o]
      ensures path in old(model).tree.kids
      ensures model.tree == AddNode(old(model).tree, path, Sibling(o.name, o.section), o.Data(), sort)
    {
      AddNodeKeepsInv(model.tree, path, Sibling(o.name, o.section), o.Data(), sort);
      if o.section {
        NoListYet(model.tree, path + [o.name], sort);
      }
      var placed := Placed(OptionsOf(parent, path), o, model.tree.kids[path], path, model.index);
      Enter(parent, placed, o, path);
    }

    /** Create a section below the section. */
    method AddSection(parent: ConfigOption?, above: string, name: string, ghost path: Path)
      returns (option: ConfigOption)
      requires Valid() && IsAt(parent, path) && '.' !in name && Key(path + [name], true) !in model.index
      modifies this, parent
      ensures Valid() && fresh(model.repr - old(model.repr))
      ensures IsAt(option, path + [name])
      ensures path in old(model).tree.kids
      ensures model.tree == Section(old(model).tree, path, name, Extend(above, name), sort)
    {
      LastOfExtended(above, name);
      option := new ConfigOption(Extend(above, name), None, true, false);
      Append(parent, option, path);
    }

    /** The section for the k-th part below the section, created if it is missing and creation is asked for. */
    method SectionBelow(parent: ConfigOption?, parts: Path, k: nat, above: string, create: bool)
      returns (option: ConfigOption?)
      requires k < |parts| && Valid() && IsAt(parent, parts[..k]) && '.' !in parts[k]
      modifies this, parent
      ensures Valid() && fresh(model.repr - old(model.repr))
      ensures parts[..k] in old(model).tree.kids
      ensures create ==> model.tree == Section(old(model).tree, parts[..k], parts[k], Extend(above, parts[k]), sort)
      ensures !create ==> model == old(model)
      ensures option == null ==> !create && Key(parts, true) !in model.index
      ensures option != null ==> IsAt(option, parts[..k + 1])
    {
      PrefixStep(parts, k);
      option := Find(parent, parts[k], true, parts[..k]);
      if option == null {
        if !create {
          SectionMissing(model.tree, parts, k + 1, sort);
          return;
        }
        option := AddSection(parent, above, parts[k], parts[..k]);
      } else {
        assert NodeOk(model.tree, Key(parts[..k + 1], true));
      }
    }

    /** One step of the walk that began with the tree `start`. */
    method Descend(parent: ConfigOption?, parts: Path, k: nat, above: string, create: bool, ghost start: Tree)
      returns (option: ConfigOption?)
      requires k < |parts| && Valid() && IsAt(parent, parts[..k]) && '.' !in parts[k]
      requires create ==> Walked(start, model.tree, parts, k, above, sort)
      modifies this, parent
      ensures Valid() && fresh(model.repr - old(model.repr))
      ensures create ==> Walked(start, model.tree, parts, k + 1, Extend(above, parts[k]), sort)
      ensures !create ==> model == old(model)
      ensures option == null ==> !create && Key(parts, true) !in model.index
      ensures option != null ==> IsAt(option, parts[..k + 1])
    {
      ghost var before := model.tree;
      option := SectionBelow(parent, parts, k, above, create);
      if create {
        WalkedStep(start, before, parts, k, above, sort);
      }
    }

    /**
      Walk down the sections, creating the missing ones if asked for. Without
      creation, a missing section ends the walk.
     */
    method WalkSections(parts: Path, create: bool) returns (option: ConfigOption?)
      requires Valid() && forall part :: part in parts ==> '.' !in part
      modifies this, model.repr
      ensures Valid() && fresh(model.repr - old(model.repr))
      ensures create ==> model.tree == Sections(old(model.tree), parts, 0, "", sort)
      ensures !create ==> model == old(model)
      ensures create || Key(parts, true) in model.index ==> IsAt(option, parts)
      ensures !create && Key(parts, true) !in model.index ==> option == null
    {
      option := null;
      var fullname := "";
      ghost var m := model;
      WalkedEnds(m.tree, parts, sort);
      for k := 0 to |parts|
        invariant Valid() && fresh(model.repr - m.repr) && IsAt(option, parts[..k])
        invariant create ==> Walked(m.tree, model.tree, parts, k, fullname, sort)
        invariant !create ==> model == m
      {
        option := Descend(option, parts, k, fullname, create, m.tree);
        fullname := Extend(fullname, parts[k]);
        if option == null {
          break;
        }
      }
      assert parts[..|parts|] == parts;
    }

    /** Let the node take over the data of a newer definition. */
    method Renew(found: ConfigOption, option: ConfigOption, ghost key: Key)
      requires Valid() && key in model.index && found == model.index[key] && option != found
      modifies this, found
      ensures Valid() && key in old(model).tree.data
      ensures model == old(model).(tree := Adopt(old(model).tree, key, option.Data()))
    {
      ghost var adopted := Adopt(model.tree, key, option.Data());
      assert Holds(key) && Alone(model, key);
      AdoptKeepsInv(model.tree, key, option.Data(), sort);
      AdoptKeepsLinks(model, key, option.Data());
      found.Adopt(option);
      model := model.(tree := adopted);
      forall k | k in model.index ensures Holds(k) {
        assert old(Holds(k));
      }
    }

    /** Let the child below the section take over the data if there is one, or else make the object the child. */
    method AddTo(parent: ConfigOption?, option: ConfigOption, ghost path: Path)
      requires Valid() && IsAt(parent, path) && option !in model.repr && option.options == []
      modifies this, model.repr
      ensures Valid() && model.repr <= old(model).repr + {option}
      ensures path in old(model).tree.kids
      ensures model.tree == Put(old(model).tree, path, Sibling(option.name, option.section), option.Data(), sort)
    {
      var found := Find(parent, option.name, option.section, path);
      if found != null {
        Renew(found, option, Key(path + [option.name], option.section));
      } else {
        Append(parent, option, path);
      }
    }

    /** Find or create the section above the definition and add the definition there. */
    method AddBelowSection(option: ConfigOption)
      requires Valid() && option !in model.repr
      requires option.options == [] && option.name == Last(Split(option.fullname))
      modifies this, model.repr
      ensures Valid() && fresh(model.repr - old(model.repr) - {option})
      ensures
        var path := Split(option.fullname);
        model.tree == Put(Sections(old(model).tree, Front(path), 0, "", sort), Front(path),
                          Sibling(option.name, option.section), option.Data(), sort)
    {
      var parts := Split(option.fullname);
      SplitIsInverse(option.fullname);
      var parent := WalkSections(Front(parts), true);
      AddTo(parent, option, Front(parts));
    }

    /** Add a definition. */
    method AddOption(option: ConfigOption)
      requires Valid() && option !in model.repr
      requires option.options == [] && option.name == Last(Split(option.fullname))
      modifies this, model.repr, option
      ensures Valid() && fresh(model.repr - old(model.repr) - {option})
      ensures model.tree == Add(old(model).tree, old(option.Definition()), sort)
    {
      ghost var d := option.Definition();
      option.FilterDesc();
      assert option.Data() == DataOf(d);
      AddBelowSection(option);
    }

    /** The object of the section with the dotted name, if there is one. */
    method GetOption(name: string) returns (option: ConfigOption?)
      requires Valid()
      modifies this, model.repr
      ensures Valid() && model == old(model)
      ensures option != null <==> Key(Split(name), true) in model.index
      ensures option != null ==> option == model.index[Key(Split(name), true)]
    {
      SplitIsInverse(name);
      option := WalkSections(Split(name), false);
    }
  }
}
