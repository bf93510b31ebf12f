/**
  The loggers the daemon configures (daemon.c): its list of entries, the level
  arrays of the logger objects it owns, and the loggers registered on the bus.
 */
module DaemonLoggers {
  import opened Wrappers
  import opened Sequences
  import opened LoggerRegistry

  /** A logger entry; without syslog support a syslog entry has no logger. */
  datatype Entry = Entry(target: string, file: bool, logger: Option<Logger>)

  /** A logger to load, with the levels to set or none to leave the levels as they are. */
  datatype Wanted = Wanted(target: string, file: bool, levels: Option<seq<int>>)

  /** `levels` has the level array of every logger object that exists, `next` is above every logger ever made. */
  datatype State = State(loggers: seq<Entry>, levels: map<Logger, seq<int>>, next: nat, all: seq<LogEntry>)

  predicate Matches(e: Entry, w: Wanted) {
    e.file == w.file && e.target == w.target
  }

  // ---------- lists ----------

  /** The registrations of other loggers. */
  function Keep(all: seq<LogEntry>, gone: set<Logger>): seq<LogEntry> {
    if all == [] then []
    else if all[0].logger in gone then Keep(all[1..], gone)
    else [all[0]] + Keep(all[1..], gone)
  }

  lemma {:induction false} KeepMembers(all: seq<LogEntry>, gone: set<Logger>)
    ensures forall x :: x in Keep(all, gone) <==> x in all && x.logger !in gone
  {
    if all != [] {
      KeepMembers(all[1..], gone);
    }
  }

  lemma {:induction false} KeepConcat(a: seq<LogEntry>, b: seq<LogEntry>, gone: set<Logger>)
    ensures Keep(a + b, gone) == Keep(a, gone) + Keep(b, gone)
  {
    if a == [] {
      assert a + b == b;
    } else {
      KeepConcat(a[1..], b, gone);
      assert (a + b)[1..] == a[1..] + b;
      Associative([a[0]], Keep(a[1..], gone), Keep(b, gone));
    }
  }

  lemma {:induction false} KeepTwice(all: seq<LogEntry>, a: set<Logger>, b: set<Logger>)
    ensures Keep(Keep(all, a), b) == Keep(all, a + b)
  {
    if all != [] {
      KeepTwice(all[1..], a, b);
    }
  }

  /** Loggers that are not registered make no difference. */
  lemma {:induction false} KeepSame(all: seq<LogEntry>, a: set<Logger>, b: set<Logger>)
    requires forall x :: x in all ==> (x.logger in a <==> x.logger in b)
    ensures Keep(all, a) == Keep(all, b)
  {
    if all != [] {
      KeepSame(all[1..], a, b);
    }
  }

  lemma {:induction false} KeepAll(all: seq<LogEntry>, gone: set<Logger>)
    requires forall x :: x in all ==> x.logger !in gone
    ensures Keep(all, gone) == all
  {
    if all != [] {
      KeepAll(all[1..], gone);
    }
  }

  function Owned(loggers: seq<Entry>): set<Logger> {
    set e | e in loggers && e.logger.Some? :: e.logger.value
  }

  /** The registrations of the entries' loggers with their levels, in the order of the entries. */
  function Registrations(loggers: seq<Entry>, levels: map<Logger, seq<int>>): (r: seq<LogEntry>)
    requires Owned(loggers) <= levels.Keys
  {
    if loggers == [] then []
    else
      var front, last := loggers[..|loggers| - 1], loggers[|loggers| - 1];
      assert forall l :: l in Owned(front) ==> l in Owned(loggers);
      if last.logger.None? then Registrations(front, levels)
      else
        assert last.logger.value in Owned(loggers);
        Registrations(front, levels) + [LogEntry(last.logger.value, levels[last.logger.value])]
  }

  // ---------- loading ----------

  /** The first entry for the target and kind, or the length of the list. */
  function Find(list: seq<Entry>, w: Wanted): (i: nat)
    ensures i <= |list|
    ensures i < |list| ==> Matches(list[i], w)
    ensures forall k :: 0 <= k < i ==> !Matches(list[k], w)
  {
    if list == [] || Matches(list[0], w) then 0 else 1 + Find(list[1..], w)
  }

  function Silent(n: nat): seq<int> {
    seq(n, _ => LEVEL_SILENT)
  }

  /** The entry to use, the existing entries that are left, and the state with the logger created if need be. */
  function Obtain(st: State, existing: seq<Entry>, w: Wanted, syslog: bool, n: nat): (Entry, seq<Entry>, State) {
    var i := Find(existing, w);
    if i < |existing| then (existing[i], existing[..i] + existing[i + 1..], st)
    else if w.file || syslog then
      var l := Logger(st.next, true, false);
      (Entry(w.target, w.file, Some(l)), existing, st.(levels := st.levels[l := Silent(n)], next := st.next + 1))
    else (Entry(w.target, w.file, None), existing, st)
  }

  /** Set the logger's levels if asked for and register it again. */
  function Enroll(st: State, l: Logger, levels: Option<seq<int>>): State
    requires l in st.levels
  {
    var set' := if levels.Some? then st.levels[l := levels.value] else st.levels;
    st.(levels := set', all := Keep(st.all, {l}) + [LogEntry(l, set'[l])])
  }

  ghost predicate Consistent(st: State, existing: seq<Entry>) {
    forall e :: e in existing && e.logger.Some? ==> e.logger.value in st.levels
  }

  function LoadOne(st: State, existing: seq<Entry>, w: Wanted, syslog: bool, n: nat): (r: (seq<Entry>, State))
    requires Consistent(st, existing)
    ensures Consistent(r.1, r.0)
  {
    var (e, rest, st') := Obtain(st, existing, w, syslog, n);
    assert forall x :: x in rest ==> x in existing;
    var listed := st'.(loggers := st'.loggers + [e]);
    (rest, if e.logger.Some? then Enroll(listed, e.logger.value, w.levels) else listed)
  }

  function LoadAll(st: State, existing: seq<Entry>, wanted: seq<Wanted>, syslog: bool, n: nat): (r: (seq<Entry>, State))
    requires Consistent(st, existing)
    ensures Consistent(r.1, r.0)
    decreases |wanted|
  {
    if wanted == [] then (existing, st)
    else
      var (rest, st') := LoadOne(st, existing, wanted[0], syslog, n);
      LoadAll(st', rest, wanted[1..], syslog, n)
  }

  lemma {:induction false} LoadAllConcat(st: State, existing: seq<Entry>, a: seq<Wanted>, b: seq<Wanted>, syslog: bool,
                                         n: nat)
    requires Consistent(st, existing)
    ensures
      var (rest, st') := LoadAll(st, existing, a, syslog, n);
      LoadAll(st, existing, a + b, syslog, n) == LoadAll(st', rest, b, syslog, n)
    decreases |a|
  {
    if a == [] {
      assert a + b == b;
    } else {
      assert (a + b)[1..] == a[1..] + b;
      var (rest, st') := LoadOne(st, existing, a[0], syslog, n);
      LoadAllConcat(st', rest, a[1..], b, syslog, n);
    }
  }

  lemma LoadAllAppend(st: State, existing: seq<Entry>, wanted: seq<Wanted>, w: Wanted, syslog: bool, n: nat)
    requires Consistent(st, existing)
    ensures
      var (rest, st') := LoadAll(st, existing, wanted, syslog, n);
      LoadAll(st, existing, wanted + [w], syslog, n) == LoadOne(st', rest, w, syslog, n)
  {
    LoadAllConcat(st, existing, wanted, [w], syslog, n);
    assert [w][1..] == [];
  }

  /** Unregister and destroy the loggers of the entries. */
  function Discard(st: State, existing: seq<Entry>): State
    decreases |existing|
  {
    if existing == [] then st
    else if existing[0].logger.None? then Discard(st, existing[1..])
    else
      var l := existing[0].logger.value;
      Discard(st.(levels := st.levels - {l}, all := Keep(st.all, {l})), existing[1..])
  }

  function Load(st: State, wanted: seq<Wanted>, syslog: bool, n: nat): State
    requires Consistent(st, st.loggers)
  {
    var (rest, st') := LoadAll(st.(loggers := []), st.loggers, wanted, syslog, n);
    Discard(st', rest)
  }

  // ---------- the bus behind a prefix of the entries ----------

  /** The bus has the registrations of other loggers, as they were, and then those of the entries. */
  ghost predicate Behind(before: seq<LogEntry>, loggers: seq<Entry>, st: State)
  {
    && Owned(loggers) <= st.levels.Keys
    && st.all == Keep(before, Owned(loggers)) + Registrations(loggers, st.levels)
  }

  lemma {:induction false} RegistrationMembers(loggers: seq<Entry>, levels: map<Logger, seq<int>>)
    requires Owned(loggers) <= levels.Keys
    ensures forall x :: x in Registrations(loggers, levels) ==> x.logger in Owned(loggers)
  {
    if loggers != [] {
      assert forall l :: l in Owned(loggers[..|loggers| - 1]) ==> l in Owned(loggers);
      RegistrationMembers(loggers[..|loggers| - 1], levels);
    }
  }

  /** Only the levels of the entries' own loggers matter. */
  lemma {:induction false} RegistrationsSame(loggers: seq<Entry>, a: map<Logger, seq<int>>, b: map<Logger, seq<int>>)
    requires Owned(loggers) <= a.Keys && Owned(loggers) <= b.Keys
    requires forall l :: l in Owned(loggers) ==> a[l] == b[l]
    ensures Registrations(loggers, a) == Registrations(loggers, b)
  {
    if loggers != [] {
      assert forall l :: l in Owned(loggers[..|loggers| - 1]) ==> l in Owned(loggers);
      RegistrationsSame(loggers[..|loggers| - 1], a, b);
    }
  }

  lemma OwnedAppend(loggers: seq<Entry>, e: Entry)
    ensures Owned(loggers + [e]) == Owned(loggers) + if e.logger.Some? then {e.logger.value} else {}
  {
    assert forall x :: x in loggers + [e] <==> x in loggers || x == e;
  }

  lemma SkipEntry(before: seq<LogEntry>, loggers: seq<Entry>, e: Entry, st: State)
    requires Behind(before, loggers, st) && e.logger.None?
    ensures Behind(before, loggers + [e], st)
  {
    OwnedAppend(loggers, e);
    assert (loggers + [e])[..|loggers|] == loggers;
    assert Owned(loggers + [e]) == Owned(loggers);
  }

  lemma EnrollEntry(before: seq<LogEntry>, loggers: seq<Entry>, e: Entry, st: State, levels: Option<seq<int>>)
    requires Behind(before, loggers, st) && e.logger.Some?
    requires e.logger.value in st.levels && e.logger.value !in Owned(loggers)
    ensures Behind(before, loggers + [e], Enroll(st, e.logger.value, levels))
  {
    var l, st' := e.logger.value, Enroll(st, e.logger.value, levels);
    var regs := Registrations(loggers, st.levels);
    OwnedAppend(loggers, e);
    assert (loggers + [e])[..|loggers|] == loggers;
    RegistrationsSame(loggers, st.levels, st'.levels);
    RegistrationMembers(loggers, st.levels);
    KeepConcat(Keep(before, Owned(loggers)), regs, {l});
    KeepTwice(before, Owned(loggers), {l});
    KeepAll(regs, {l});
    assert Keep(before, Owned(loggers) + {l}) + regs + [LogEntry(l, st'.levels[l])]
        == Keep(before, Owned(loggers) + {l}) + (regs + [LogEntry(l, st'.levels[l])]);
  }

  lemma {:induction false} DiscardEffect(st: State, existing: seq<Entry>)
    ensures Discard(st, existing) == st.(levels := st.levels - Owned(existing), all := Keep(st.all, Owned(existing)))
    decreases |existing|
  {
    if existing == [] {
      KeepAll(st.all, {});
      assert Owned(existing) == {} && st.levels - {} == st.levels;
    } else {
      var e, rest := existing[0], existing[1..];
      assert existing == [e] + rest;
      if e.logger.None? {
        DiscardEffect(st, rest);
        assert Owned(existing) == Owned(rest);
      } else {
        var l := e.logger.value;
        DiscardEffect(st.(levels := st.levels - {l}, all := Keep(st.all, {l})), rest);
        KeepTwice(st.all, {l}, Owned(rest));
        assert Owned(existing) == {l} + Owned(rest);
        assert st.levels - {l} - Owned(rest) == st.levels - ({l} + Owned(rest));
      }
    }
  }

  // ---------- the invariant ----------

  function Only(all: seq<LogEntry>, mine: set<Logger>): seq<LogEntry> {
    if all == [] then []
    else if all[0].logger in mine then [all[0]] + Only(all[1..], mine)
    else Only(all[1..], mine)
  }

  /** No two entries share a logger. */
  predicate Apart(list: seq<Entry>) {
    forall i, j :: 0 <= i < j < |list| && list[i].logger.Some? ==> list[i].logger != list[j].logger
  }

  /** No two entries have the same target and kind. */
  predicate DistinctTargets(list: seq<Entry>) {
    forall i, j :: 0 <= i < j < |list| ==> (list[i].target, list[i].file) != (list[j].target, list[j].file)
  }

  /** Section names are distinct in each kind of section. */
  predicate DistinctWanted(wanted: seq<Wanted>) {
    forall i, j :: 0 <= i < j < |wanted| ==> (wanted[i].target, wanted[i].file) != (wanted[j].target, wanted[j].file)
  }

  ghost predicate Made(st: State) {
    && (forall l :: l in st.levels ==> l.id < st.next)
    && (forall x :: x in st.all ==> x.logger.id < st.next)
  }

  /**
    The logger objects that exist are exactly those of the entries, and of the
    daemon's loggers the bus has exactly those of the entries, once each, in the
    order of the entries and with their current levels.
   */
  ghost predicate Inv(st: State) {
    && Apart(st.loggers) && DistinctTargets(st.loggers)
    && st.levels.Keys == Owned(st.loggers)
    && Only(st.all, Owned(st.loggers)) == Registrations(st.loggers, st.levels)
    && Made(st)
  }

  /** What others have registered on the bus. */
  function Others(st: State): seq<LogEntry> {
    Keep(st.all, Owned(st.loggers))
  }

  lemma {:induction false} OnlyConcat(a: seq<LogEntry>, b: seq<LogEntry>, mine: set<Logger>)
    ensures Only(a + b, mine) == Only(a, mine) + Only(b, mine)
  {
    if a == [] {
      assert a + b == b;
    } else {
      OnlyConcat(a[1..], b, mine);
      assert (a + b)[1..] == a[1..] + b;
      Associative([a[0]], Only(a[1..], mine), Only(b, mine));
    }
  }

  lemma {:induction false} OnlyAll(all: seq<LogEntry>, mine: set<Logger>)
    requires forall x :: x in all ==> x.logger in mine
    ensures Only(all, mine) == all && Keep(all, mine) == []
  {
    if all != [] {
      OnlyAll(all[1..], mine);
    }
  }

  lemma {:induction false} OnlyNone(all: seq<LogEntry>, mine: set<Logger>)
    requires forall x :: x in all ==> x.logger !in mine
    ensures Only(all, mine) == []
  {
    if all != [] {
      OnlyNone(all[1..], mine);
    }
  }

  /** With the registrations of other loggers first, each part can be read off. */
  lemma BehindParts(before: seq<LogEntry>, loggers: seq<Entry>, st: State)
    requires Behind(before, loggers, st)
    ensures Only(st.all, Owned(loggers)) == Registrations(loggers, st.levels)
    ensures Keep(st.all, Owned(loggers)) == Keep(before, Owned(loggers))
  {
    var kept, regs := Keep(before, Owned(loggers)), Registrations(loggers, st.levels);
    KeepMembers(before, Owned(loggers));
    RegistrationMembers(loggers, st.levels);
    OnlyConcat(kept, regs, Owned(loggers));
    OnlyNone(kept, Owned(loggers));
    OnlyAll(regs, Owned(loggers));
    KeepConcat(kept, regs, Owned(loggers));
    KeepAll(kept, Owned(loggers));
    assert kept + [] == kept && [] + regs == regs;
  }

  lemma {:induction false} OnlyMember(all: seq<LogEntry>, mine: set<Logger>, x: LogEntry)
    ensures x in Only(all, mine) <==> x in all && x.logger in mine
  {
    if all != [] {
      OnlyMember(all[1..], mine, x);
    }
  }

  lemma {:induction false} RegistrationMember(loggers: seq<Entry>, levels: map<Logger, seq<int>>, x: LogEntry)
    requires Owned(loggers) <= levels.Keys
    ensures x in Registrations(loggers, levels) <==> x.logger in Owned(loggers) && x.levels == levels[x.logger]
  {
    if loggers != [] {
      var front, last := loggers[..|loggers| - 1], loggers[|loggers| - 1];
      assert loggers == front + [last];
      assert forall e :: e in loggers <==> e in front || e == last;
      assert Owned(loggers) == Owned(front) + if last.logger.Some? then {last.logger.value} else {};
      RegistrationMember(front, levels, x);
    }
  }

  /** A logger of the daemon is registered with its current levels, and with no others. */
  lemma OwnRegistration(st: State, x: LogEntry)
    requires Inv(st) && x.logger in st.levels
    ensures x in st.all <==> x.levels == st.levels[x.logger]
  {
    OnlyMember(st.all, Owned(st.loggers), x);
    RegistrationMember(st.loggers, st.levels, x);
  }

  // ---------- what a load does ----------

  /** The entry of an earlier load is used again, or else a new one is made, with a logger if the kind is supported. */
  ghost predicate Chosen(old': State, w: Wanted, e: Entry, syslog: bool) {
    && Matches(e, w)
    && (forall x :: x in old'.loggers && Matches(x, w) ==> e == x)
    && (e in old'.loggers ||
        if w.file || syslog then e.logger.Some? && e.logger.value.id >= old'.next else e.logger.None?)
  }

  /** The levels the wanted logger is to have, given those it has. */
  function LevelsFor(w: Wanted, e: Entry, known: map<Logger, seq<int>>, n: nat): seq<int> {
    if w.levels.Some? then w.levels.value
    else if e.logger.Some? && e.logger.value in known then known[e.logger.value]
    else Silent(n)
  }

  predicate Unwanted(e: Entry, wanted: seq<Wanted>) {
    forall w :: w in wanted ==> !Matches(e, w)
  }

  ghost predicate LoadedAt(old': State, wanted: seq<Wanted>, j: nat, st: State, syslog: bool, n: nat)
    requires |st.loggers| == |wanted| && j < |wanted|
  {
    var e := st.loggers[j];
    && Chosen(old', wanted[j], e, syslog)
    && (e.logger.Some? ==>
      e.logger.value in st.levels && st.levels[e.logger.value] == LevelsFor(wanted[j], e, old'.levels, n))
  }

  ghost predicate Loaded(old': State, wanted: seq<Wanted>, st: State, syslog: bool, n: nat) {
    && |st.loggers| == |wanted|
    && forall j :: 0 <= j < |wanted| ==> LoadedAt(old', wanted, j, st, syslog, n)
  }

  /** The earlier entries that have not been used. */
  ghost predicate Remaining(old': State, wanted: seq<Wanted>, existing: seq<Entry>, st: State) {
    && (forall e :: e in existing <==> e in old'.loggers && Unwanted(e, wanted))
    && DistinctTargets(existing) && Apart(existing)
    && (forall l :: l in Owned(existing) ==> l in old'.levels && l in st.levels && st.levels[l] == old'.levels[l])
  }

  /** After the loggers wanted so far. */
  ghost predicate Loading(old': State, wanted: seq<Wanted>, existing: seq<Entry>, st: State, syslog: bool, n: nat) {
    && Loaded(old', wanted, st, syslog, n)
    && Remaining(old', wanted, existing, st)
    && Apart(st.loggers) && Owned(st.loggers) !! Owned(existing)
    && st.levels.Keys == Owned(st.loggers) + Owned(existing)
    && old'.next <= st.next
    && Behind(old'.all, st.loggers, st)
    && Made(st)
  }

  lemma WithoutOne(list: seq<Entry>, i: nat)
    requires i < |list| && Apart(list) && DistinctTargets(list)
    ensures
      var rest := list[..i] + list[i + 1..];
      && Apart(rest) && DistinctTargets(rest)
      && (forall x :: x in rest <==> x in list && (x.target, x.file) != (list[i].target, list[i].file))
      && Owned(rest) == Owned(list) - (if list[i].logger.Some? then {list[i].logger.value} else {})
  {
    var rest := list[..i] + list[i + 1..];
    forall x | x in list && (x.target, x.file) != (list[i].target, list[i].file) ensures x in rest {
      var k :| 0 <= k < |list| && list[k] == x;
      assert if k < i then rest[k] == x else rest[k - 1] == x;
    }
  }

  /** What obtaining the entry for the next wanted logger does. */
  ghost predicate Obtained(old': State, w: Wanted, existing: seq<Entry>, st: State, syslog: bool, n: nat, e: Entry,
                           rest: seq<Entry>, st': State) {
    var own := if e.logger.Some? then {e.logger.value} else {};
    && Chosen(old', w, e, syslog)
    && own !! Owned(st.loggers) && own !! Owned(rest)
    && (forall l :: l in own ==> l in st'.levels && st'.levels[l] == LevelsFor(w.(levels := None), e, old'.levels, n))
    && (forall x :: x in rest <==> x in existing && !Matches(x, w))
    && DistinctTargets(rest) && Apart(rest)
    && Owned(rest) <= Owned(existing)
    && st'.levels.Keys == Owned(st.loggers) + own + Owned(rest)
    && st'.loggers == st.loggers && st'.all == st.all && st.next <= st'.next
    && (forall l :: l in Owned(st.loggers) || l in Owned(rest) ==>
      l in st.levels && l in st'.levels && st'.levels[l] == st.levels[l])
    && Made(st')
  }

  /** No entry but the one found has the target and kind wanted. */
  lemma FoundIsOnly(list: seq<Entry>, e: Entry, w: Wanted)
    requires DistinctTargets(list) && e in list && Matches(e, w)
    ensures forall x :: x in list && Matches(x, w) ==> e == x
  {
    var j :| 0 <= j < |list| && list[j] == e;
    forall x | x in list && Matches(x, w) ensures e == x {
      var k :| 0 <= k < |list| && list[k] == x;
      assert j == k;
    }
  }

  lemma WithoutFound(list: seq<Entry>, w: Wanted)
    requires Find(list, w) < |list| && Apart(list) && DistinctTargets(list)
    ensures
      var i := Find(list, w);
      var rest, own := list[..i] + list[i + 1..], if list[i].logger.Some? then {list[i].logger.value} else {};
      && Apart(rest) && DistinctTargets(rest)
      && (forall x :: x in rest <==> x in list && !Matches(x, w))
      && own <= Owned(list) && own !! Owned(rest) && Owned(list) == own + Owned(rest)
  {
    var i := Find(list, w);
    WithoutOne(list, i);
    assert list[i] in list;
    OwnedParts(list, i);
  }

  /** The loggers of a list are that of one entry and those of the others. */
  lemma OwnedParts(list: seq<Entry>, i: nat)
    requires i < |list|
    ensures Owned(list) ==
      (if list[i].logger.Some? then {list[i].logger.value} else {}) + Owned(list[..i] + list[i + 1..])
  {
    assert list == list[..i] + [list[i]] + list[i + 1..];
    var rest := list[..i] + list[i + 1..];
    assert forall e :: e in list <==> e in rest || e == list[i];
  }

  lemma ReuseChosen(old': State, wanted: seq<Wanted>, w: Wanted, existing: seq<Entry>, st: State, syslog: bool, n: nat)
    requires DistinctTargets(old'.loggers) && Remaining(old', wanted, existing, st)
    requires Find(existing, w) < |existing|
    ensures
      var e := existing[Find(existing, w)];
      && Chosen(old', w, e, syslog)
      && (e.logger.Some? ==>
        e.logger.value in st.levels
        && st.levels[e.logger.value] == LevelsFor(w.(levels := None), e, old'.levels, n))
  {
    var e := existing[Find(existing, w)];
    assert e in existing;
    FoundIsOnly(old'.loggers, e, w);
    assert e.logger.Some? ==> e.logger.value in Owned(existing);
  }

  lemma ReuseEffect(old': State, wanted: seq<Wanted>, w: Wanted, existing: seq<Entry>, st: State, syslog: bool, n: nat)
    requires Inv(old') && Loading(old', wanted, existing, st, syslog, n) && Find(existing, w) < |existing|
    ensures
      var (e, rest, st') := Obtain(st, existing, w, syslog, n);
      Obtained(old', w, existing, st, syslog, n, e, rest, st')
  {
    WithoutFound(existing, w);
    ReuseChosen(old', wanted, w, existing, st, syslog, n);
  }

  lemma CreateEffect(old': State, wanted: seq<Wanted>, w: Wanted, existing: seq<Entry>, st: State, syslog: bool, n: nat)
    requires Inv(old') && Loading(old', wanted, existing, st, syslog, n) && Find(existing, w) == |existing|
    requires forall x :: x in wanted ==> (x.target, x.file) != (w.target, w.file)
    ensures
      var (e, rest, st') := Obtain(st, existing, w, syslog, n);
      Obtained(old', w, existing, st, syslog, n, e, rest, st')
  {
    assert forall x :: x in old'.loggers && Matches(x, w) ==> x in existing;
    assert Logger(st.next, true, false) !in st.levels;
    assert forall l :: l in old'.levels ==> l.id < st.next;
  }

  lemma LoadedAppend(old': State, wanted: seq<Wanted>, w: Wanted, st: State, syslog: bool, n: nat, e: Entry, st': State)
    requires Loaded(old', wanted, st, syslog, n) && st'.loggers == st.loggers + [e]
    requires Chosen(old', w, e, syslog)
    requires e.logger.Some? ==>
      e.logger.value in st'.levels && st'.levels[e.logger.value] == LevelsFor(w, e, old'.levels, n)
    requires forall l :: l in Owned(st.loggers) && l in st.levels ==> l in st'.levels && st'.levels[l] == st.levels[l]
    ensures Loaded(old', wanted + [w], st', syslog, n)
  {
    forall j | 0 <= j < |wanted + [w]| ensures LoadedAt(old', wanted + [w], j, st', syslog, n) {
      if j < |wanted| {
        assert LoadedAt(old', wanted, j, st, syslog, n);
        assert st.loggers[j].logger.Some? ==> st.loggers[j].logger.value in Owned(st.loggers);
      }
    }
  }

  lemma RemainingAppend(old': State, wanted: seq<Wanted>, w: Wanted, existing: seq<Entry>, st: State,
                        rest: seq<Entry>, st': State)
    requires Remaining(old', wanted, existing, st)
    requires forall x :: x in rest <==> x in existing && !Matches(x, w)
    requires DistinctTargets(rest) && Apart(rest) && Owned(rest) <= Owned(existing)
    requires forall l :: l in Owned(rest) && l in st.levels ==> l in st'.levels && st'.levels[l] == st.levels[l]
    ensures Remaining(old', wanted + [w], rest, st')
  {
    assert forall x :: x in wanted + [w] <==> x in wanted || x == w;
  }

  lemma BehindAppend(old': State, w: Wanted, st: State, e: Entry, st1: State)
    requires Behind(old'.all, st.loggers, st) && st1.all == st.all && st1.loggers == st.loggers
    requires e.logger.Some? ==> e.logger.value in st1.levels && e.logger.value !in Owned(st.loggers)
    requires forall l :: l in Owned(st.loggers) && l in st.levels ==> l in st1.levels && st1.levels[l] == st.levels[l]
    ensures
      var listed := st1.(loggers := st1.loggers + [e]);
      var st' := if e.logger.Some? then Enroll(listed, e.logger.value, w.levels) else listed;
      Behind(old'.all, st.loggers + [e], st')
  {
    var listed := st1.(loggers := st1.loggers + [e]);
    RegistrationsSame(st.loggers, st.levels, st1.levels);
    if e.logger.Some? {
      EnrollEntry(old'.all, st.loggers, e, listed, w.levels);
    } else {
      SkipEntry(old'.all, st.loggers, e, listed);
    }
  }

  lemma MadeAppend(st: State, e: Entry, st1: State, levels: Option<seq<int>>)
    requires Made(st1) && (e.logger.Some? ==> e.logger.value in st1.levels)
    ensures
      var listed := st1.(loggers := st1.loggers + [e]);
      Made(if e.logger.Some? then Enroll(listed, e.logger.value, levels) else listed)
  {
    if e.logger.Some? {
      KeepMembers(st1.all, {e.logger.value});
    }
  }

  lemma EnlistEffect(old': State, wanted: seq<Wanted>, w: Wanted, existing: seq<Entry>, st: State, syslog: bool, n: nat,
                     e: Entry, rest: seq<Entry>, st1: State, st': State)
    requires Loading(old', wanted, existing, st, syslog, n)
    requires Obtained(old', w, existing, st, syslog, n, e, rest, st1)
    requires st'.loggers == st.loggers + [e] && st'.next == st1.next && Made(st') && Behind(old'.all, st'.loggers, st')
    requires st'.levels ==
      if e.logger.Some? && w.levels.Some? then st1.levels[e.logger.value := w.levels.value] else st1.levels
    ensures Loading(old', wanted + [w], rest, st', syslog, n)
  {
    OwnedAppend(st.loggers, e);
    LoadedAppend(old', wanted, w, st, syslog, n, e, st');
    RemainingAppend(old', wanted, w, existing, st, rest, st');
  }

  lemma LoadOneEffect(old': State, wanted: seq<Wanted>, w: Wanted, existing: seq<Entry>, st: State, syslog: bool,
                      n: nat)
    requires Inv(old') && Loading(old', wanted, existing, st, syslog, n)
    requires forall x :: x in wanted ==> (x.target, x.file) != (w.target, w.file)
    ensures Consistent(st, existing)
    ensures
      var (rest, st') := LoadOne(st, existing, w, syslog, n);
      Loading(old', wanted + [w], rest, st', syslog, n)
  {
    assert forall e :: e in existing && e.logger.Some? ==> e.logger.value in Owned(existing);
    if Find(existing, w) < |existing| {
      ReuseEffect(old', wanted, w, existing, st, syslog, n);
    } else {
      CreateEffect(old', wanted, w, existing, st, syslog, n);
    }
    var (e, rest, st1) := Obtain(st, existing, w, syslog, n);
    var listed := st1.(loggers := st1.loggers + [e]);
    var st' := if e.logger.Some? then Enroll(listed, e.logger.value, w.levels) else listed;
    assert LoadOne(st, existing, w, syslog, n) == (rest, st');
    BehindAppend(old', w, st, e, st1);
    MadeAppend(st, e, st1, w.levels);
    EnlistEffect(old', wanted, w, existing, st, syslog, n, e, rest, st1, st');
  }

  lemma {:induction false} LoadAllEffect(old': State, done: seq<Wanted>, wanted: seq<Wanted>, existing: seq<Entry>,
                                         st: State, syslog: bool, n: nat)
    requires Inv(old') && Loading(old', done, existing, st, syslog, n) && DistinctWanted(done + wanted)
    ensures Consistent(st, existing)
    ensures
      var (rest, st') := LoadAll(st, existing, wanted, syslog, n);
      Loading(old', done + wanted, rest, st', syslog, n)
    decreases |wanted|
  {
    assert forall e :: e in existing && e.logger.Some? ==> e.logger.value in Owned(existing);
    if wanted == [] {
      assert done + wanted == done;
    } else {
      var w := wanted[0];
      assert (done + wanted)[|done|] == w;
      forall x | x in done ensures (x.target, x.file) != (w.target, w.file) {
        var j :| 0 <= j < |done| && done[j] == x;
        assert (done + wanted)[j] == x;
      }
      LoadOneEffect(old', done, w, existing, st, syslog, n);
      var (rest, st') := LoadOne(st, existing, w, syslog, n);
      assert done + [w] + wanted[1..] == done + wanted;
      LoadAllEffect(old', done + [w], wanted[1..], rest, st', syslog, n);
    }
  }

  lemma LoadingStarts(st: State, syslog: bool, n: nat)
    requires Inv(st)
    ensures Loading(st, [], st.loggers, st.(loggers := []), syslog, n)
  {
    KeepAll(st.all, {});
    assert Owned([]) == {};
  }

  /** Of the loggers on the bus before the load, the daemon's own are those it has used again or has left. */
  lemma OldLoggersAccounted(st: State, wanted: seq<Wanted>, rest: seq<Entry>, st': State, syslog: bool, n: nat,
                            x: LogEntry)
    requires Inv(st) && Loading(st, wanted, rest, st', syslog, n) && x in st.all
    ensures x.logger in Owned(st'.loggers) + Owned(rest) <==> x.logger in Owned(st.loggers)
  {
    if x.logger in Owned(st'.loggers) {
      var e :| e in st'.loggers && e.logger == Some(x.logger);
      var j :| 0 <= j < |st'.loggers| && st'.loggers[j] == e;
      assert LoadedAt(st, wanted, j, st', syslog, n);
    }
    if x.logger in Owned(st.loggers) {
      var e :| e in st.loggers && e.logger == Some(x.logger);
      if !Unwanted(e, wanted) {
        var w :| w in wanted && Matches(e, w);
        var j :| 0 <= j < |wanted| && wanted[j] == w;
        assert LoadedAt(st, wanted, j, st', syslog, n);
        assert st'.loggers[j] == e;
      }
    }
  }

  /** The loggers of the entries left after loading still exist, once each. */
  lemma LeftoversExist(st: State, wanted: seq<Wanted>, syslog: bool, n: nat)
    requires Inv(st) && DistinctWanted(wanted)
    ensures Consistent(st, st.loggers)
    ensures
      var (rest, mid) := LoadAll(st.(loggers := []), st.loggers, wanted, syslog, n);
      Apart(rest) && Owned(rest) <= mid.levels.Keys
  {
    LoadingStarts(st, syslog, n);
    assert [] + wanted == wanted;
    LoadAllEffect(st, [], wanted, st.loggers, st.(loggers := []), syslog, n);
  }

  lemma {:induction false} LoadAllLength(st: State, existing: seq<Entry>, wanted: seq<Wanted>, syslog: bool, n: nat)
    requires Consistent(st, existing)
    ensures |LoadAll(st, existing, wanted, syslog, n).1.loggers| == |st.loggers| + |wanted|
    decreases |wanted|
  {
    if wanted != [] {
      var (rest, st') := LoadOne(st, existing, wanted[0], syslog, n);
      LoadAllLength(st', rest, wanted[1..], syslog, n);
    }
  }

  lemma LoadedTargets(st: State, wanted: seq<Wanted>, st': State, syslog: bool, n: nat)
    requires Loaded(st, wanted, st', syslog, n) && DistinctWanted(wanted)
    ensures DistinctTargets(st'.loggers)
  {
    forall j | 0 <= j < |wanted| ensures Matches(st'.loggers[j], wanted[j]) {
      assert LoadedAt(st, wanted, j, st', syslog, n);
    }
  }

  /**
    A load keeps the entries that are still configured, makes the others and
    destroys those no longer configured; what others have registered stays.
   */
  lemma LoadEffect(st: State, wanted: seq<Wanted>, syslog: bool, n: nat)
    requires Inv(st) && DistinctWanted(wanted)
    ensures Consistent(st, st.loggers)
    ensures
      var st' := Load(st, wanted, syslog, n);
      Inv(st') && Loaded(st, wanted, st', syslog, n) && Others(st') == Others(st)
  {
    LoadingStarts(st, syslog, n);
    assert [] + wanted == wanted;
    LoadAllEffect(st, [], wanted, st.loggers, st.(loggers := []), syslog, n);
    var (rest, mid) := LoadAll(st.(loggers := []), st.loggers, wanted, syslog, n);
    var st' := Load(st, wanted, syslog, n);
    DiscardEffect(mid, rest);
    DiscardBehind(st, wanted, rest, mid, syslog, n);
    LoadedTargets(st, wanted, mid, syslog, n);
    BehindParts(Others(st), mid.loggers, st');
    KeepTwice(st.all, Owned(st.loggers), Owned(mid.loggers));
    KeepMembers(mid.all, Owned(rest));
    forall j | 0 <= j < |wanted| ensures LoadedAt(st, wanted, j, st', syslog, n) {
      assert LoadedAt(st, wanted, j, mid, syslog, n);
      assert mid.loggers[j].logger.Some? ==> mid.loggers[j].logger.value in Owned(mid.loggers);
    }
  }

  lemma LoadKeepsInv(st: State, wanted: seq<Wanted>, syslog: bool, n: nat)
    requires Inv(st) && DistinctWanted(wanted)
    ensures Consistent(st, st.loggers) && Inv(Load(st, wanted, syslog, n))
  {
    LoadEffect(st, wanted, syslog, n);
  }

  /** A logger of an earlier entry is used again only by that entry, and only if it is still configured. */
  lemma UsedAgain(st: State, wanted: seq<Wanted>, st': State, syslog: bool, n: nat, e: Entry, x: Entry)
    requires Inv(st) && Loaded(st, wanted, st', syslog, n)
    requires e in st.loggers && e.logger.Some? && x in st'.loggers && x.logger == e.logger
    ensures x == e && !Unwanted(e, wanted)
  {
    assert e.logger.value in Owned(st.loggers);
    var j :| 0 <= j < |wanted| && st'.loggers[j] == x;
    assert LoadedAt(st, wanted, j, st', syslog, n) && wanted[j] in wanted;
    var a :| 0 <= a < |st.loggers| && st.loggers[a] == e;
    var b :| 0 <= b < |st.loggers| && st.loggers[b] == x;
    assert a == b;
  }

  lemma LoadedIsWanted(st: State, wanted: seq<Wanted>, st': State, syslog: bool, n: nat, e: Entry)
    requires Loaded(st, wanted, st', syslog, n) && e in st'.loggers
    ensures !Unwanted(e, wanted)
  {
    var j :| 0 <= j < |wanted| && st'.loggers[j] == e;
    assert LoadedAt(st, wanted, j, st', syslog, n) && wanted[j] in wanted;
  }

  /** An entry outlasts a load if and only if its target and kind are still configured; otherwise its logger is gone. */
  lemma KeptIffConfigured(st: State, wanted: seq<Wanted>, syslog: bool, n: nat, e: Entry)
    requires Inv(st) && DistinctWanted(wanted) && e in st.loggers
    ensures Consistent(st, st.loggers)
    ensures
      var st' := Load(st, wanted, syslog, n);
      && (e in st'.loggers <==> !Unwanted(e, wanted))
      && (e.logger.Some? && Unwanted(e, wanted) ==>
        e.logger.value !in st'.levels && forall x :: x in st'.all ==> x.logger != e.logger.value)
  {
    LoadEffect(st, wanted, syslog, n);
    var st' := Load(st, wanted, syslog, n);
    if e in st'.loggers {
      LoadedIsWanted(st, wanted, st', syslog, n, e);
    }
    if Unwanted(e, wanted) {
      if e.logger.Some? {
        assert e.logger.value in Owned(st.loggers);
        forall x | x in st'.loggers && x.logger == e.logger ensures false {
          UsedAgain(st, wanted, st', syslog, n, e, x);
        }
        KeepMembers(st.all, Owned(st.loggers));
        KeepMembers(st'.all, Owned(st'.loggers));
      }
    } else {
      var w :| w in wanted && Matches(e, w);
      var j :| 0 <= j < |wanted| && wanted[j] == w;
      assert LoadedAt(st, wanted, j, st', syslog, n);
      assert st'.loggers[j] == e;
    }
  }

  lemma DiscardBehind(st: State, wanted: seq<Wanted>, rest: seq<Entry>, mid: State, syslog: bool, n: nat)
    requires Inv(st) && Loading(st, wanted, rest, mid, syslog, n)
    ensures Behind(Others(st), mid.loggers, Discard(mid, rest))
    ensures Keep(Others(st), Owned(mid.loggers)) == Others(st)
  {
    var new', left, old' := Owned(mid.loggers), Owned(rest), Owned(st.loggers);
    var regs := Registrations(mid.loggers, mid.levels);
    DiscardEffect(mid, rest);
    forall x | x in st.all ensures x.logger in new' + left <==> x.logger in old' {
      OldLoggersAccounted(st, wanted, rest, mid, syslog, n, x);
    }
    RegistrationMembers(mid.loggers, mid.levels);
    RegistrationsSame(mid.loggers, mid.levels, Discard(mid, rest).levels);
    KeepConcat(Keep(st.all, new'), regs, left);
    KeepTwice(st.all, new', left);
    KeepAll(regs, left);
    KeepSame(st.all, new' + left, old');
    KeepTwice(st.all, old', new');
    KeepSame(st.all, old' + new', old');
  }

  // ---------- the loggers configured ----------

  /** A section of the settings: a default level and levels of single groups. */
  datatype Section = Section(target: string, byDefault: Option<int>, byGroup: map<nat, int>) {
    function Level(g: nat): int {
      if g in byGroup then byGroup[g] else if byDefault.Some? then byDefault.value else 1
    }
  }

  datatype Settings = Settings(syslog: seq<Section>, filelog: seq<Section>)

  const LEVEL_AUDIT: int := 0

  predicate SupportedFacility(facility: string, syslog: bool) {
    syslog && (facility == "daemon" || facility == "auth")
  }

  function WantedSection(s: Section, file: bool, n: nat): Wanted {
    Wanted(s.target, file, Some(seq(n, g requires 0 <= g => s.Level(g))))
  }

  function WantedSyslog(sections: seq<Section>, syslog: bool, n: nat): seq<Wanted> {
    if sections == [] then []
    else
      var front, last := sections[..|sections| - 1], sections[|sections| - 1];
      if SupportedFacility(last.target, syslog) then WantedSyslog(front, syslog, n) + [WantedSection(last, false, n)]
      else WantedSyslog(front, syslog, n)
  }

  function WantedFiles(sections: seq<Section>, n: nat): seq<Wanted> {
    seq(|sections|, i requires 0 <= i < |sections| => WantedSection(sections[i], true, n))
  }

  /** The loggers set up from levels given on the command line. */
  function Legacy(levels: seq<int>, toStderr: bool, n: nat): seq<Wanted> {
    [Wanted("daemon", false, Some(levels)),
     Wanted("stdout", true, if toStderr then Some(levels) else None),
     Wanted("auth", false, Some(seq(n, _ => LEVEL_AUDIT)))]
  }

  function AllWanted(settings: Settings, levels: Option<seq<int>>, toStderr: bool, syslog: bool, n: nat): seq<Wanted> {
    var configured := WantedSyslog(settings.syslog, syslog, n) + WantedFiles(settings.filelog, n);
    if configured == [] && levels.Some? then Legacy(levels.value, toStderr, n) else configured
  }

  predicate DistinctSections(sections: seq<Section>) {
    forall i, j :: 0 <= i < j < |sections| ==> sections[i].target != sections[j].target
  }

  lemma {:induction false} WantedSyslogDistinct(sections: seq<Section>, syslog: bool, n: nat)
    requires DistinctSections(sections)
    ensures DistinctWanted(WantedSyslog(sections, syslog, n))
    ensures forall w :: w in WantedSyslog(sections, syslog, n) ==>
      !w.file && exists s :: s in sections && s.target == w.target
  {
    if sections != [] {
      var front := sections[..|sections| - 1];
      WantedSyslogDistinct(front, syslog, n);
      forall w | w in WantedSyslog(front, syslog, n) ensures w.target != sections[|sections| - 1].target {
        var s :| s in front && s.target == w.target;
        var k :| 0 <= k < |front| && front[k] == s;
        assert sections[k] == s;
      }
    }
  }

  /** With distinct section names the loggers wanted are distinct. */
  lemma AllWantedDistinct(settings: Settings, levels: Option<seq<int>>, toStderr: bool, syslog: bool, n: nat)
    requires DistinctSections(settings.syslog) && DistinctSections(settings.filelog)
    ensures DistinctWanted(AllWanted(settings, levels, toStderr, syslog, n))
  {
    WantedSyslogDistinct(settings.syslog, syslog, n);
  }

  // ---------- setting a level ----------

  /** The level of one group, or of all for a group beyond the last. */
  function Updated(levels: seq<int>, group: nat, level: int): seq<int> {
    if group < |levels| then levels[group := level] else seq(|levels|, _ => level)
  }

  predicate Equipped(loggers: seq<Entry>) {
    forall e :: e in loggers ==> e.logger.Some?
  }

  /** Set the level of the loggers from the k-th on and register them again. */
  function SetLevels(st: State, k: nat, group: nat, level: int): State
    requires k <= |st.loggers| && Equipped(st.loggers) && Owned(st.loggers) <= st.levels.Keys
    decreases |st.loggers| - k
  {
    if k == |st.loggers| then st
    else
      var l := st.loggers[k].logger.value;
      assert st.loggers[k] in st.loggers && l in Owned(st.loggers);
      SetLevels(Enroll(st, l, Some(Updated(st.levels[l], group, level))), k + 1, group, level)
  }

  lemma OwnedAt(loggers: seq<Entry>, i: nat)
    requires i < |loggers| && loggers[i].logger.Some?
    ensures loggers[i].logger.value in Owned(loggers)
  {
    assert loggers[i] in loggers;
  }

  /** Setting the level from the k-th logger of `st` on comes to the same as from the j-th of `st'` on. */
  ghost predicate Levelled(st: State, k: nat, group: nat, level: int, st': State, j: nat) {
    && k <= |st.loggers| && j <= |st'.loggers| == |st.loggers|
    && Equipped(st.loggers) && Equipped(st'.loggers)
    && Owned(st.loggers) <= st.levels.Keys && Owned(st'.loggers) <= st'.levels.Keys
    && SetLevels(st, k, group, level) == SetLevels(st', j, group, level)
  }

  lemma SetLevelsStep(st: State, k: nat, group: nat, level: int)
    requires k < |st.loggers| && Equipped(st.loggers) && Owned(st.loggers) <= st.levels.Keys
    ensures
      var l := st.loggers[k].logger.value;
      && l in st.levels
      && var st' := Enroll(st, l, Some(Updated(st.levels[l], group, level)));
        && st'.loggers == st.loggers && st'.levels.Keys == st.levels.Keys
        && SetLevels(st, k, group, level) == SetLevels(st', k + 1, group, level)
  {
    OwnedAt(st.loggers, k);
  }

  lemma {:induction false} SetLevelsEffect(old': State, st: State, k: nat, group: nat, level: int)
    requires k <= |st.loggers| && Equipped(st.loggers) && Owned(st.loggers) == st.levels.Keys
    requires Apart(st.loggers) && Behind(old'.all, st.loggers[..k], st) && Made(st)
    ensures
      var st' := SetLevels(st, k, group, level);
      && st' == st.(all := st'.all, levels := st'.levels)
      && st'.levels.Keys == st.levels.Keys && Made(st')
      && Behind(old'.all, st.loggers, st')
    decreases |st.loggers| - k
  {
    if k == |st.loggers| {
      assert st.loggers[..k] == st.loggers;
    } else {
      var e := st.loggers[k];
      var l := e.logger.value;
      OwnedAt(st.loggers, k);
      var levels := Some(Updated(st.levels[l], group, level));
      assert st.loggers[..k] + [e] == st.loggers[..k + 1];
      EnrollEntry(old'.all, st.loggers[..k], e, st, levels);
      KeepMembers(st.all, {l});
      SetLevelsEffect(old', Enroll(st, l, levels), k + 1, group, level);
    }
  }

  /** Each logger from the k-th on has its level set once. */
  lemma {:induction false} SetLevelsAt(st: State, k: nat, group: nat, level: int, i: nat)
    requires k <= |st.loggers| && Equipped(st.loggers) && Owned(st.loggers) <= st.levels.Keys
    requires Apart(st.loggers) && i < |st.loggers|
    ensures
      var st', l := SetLevels(st, k, group, level), st.loggers[i].logger.value;
      l in st.levels && l in st'.levels
      && st'.levels[l] == if i < k then st.levels[l] else Updated(st.levels[l], group, level)
    decreases |st.loggers| - k
  {
    OwnedAt(st.loggers, i);
    if k < |st.loggers| {
      OwnedAt(st.loggers, k);
      var l := st.loggers[k].logger.value;
      SetLevelsAt(Enroll(st, l, Some(Updated(st.levels[l], group, level))), k + 1, group, level, i);
    }
  }

  lemma BehindNothing(st: State)
    ensures Behind(st.all, st.loggers[..0], st)
  {
    KeepAll(st.all, {});
    assert st.loggers[..0] == [] && Owned([]) == {};
  }

  /** Setting a level leaves the registrations of others alone. */
  lemma SetLevelKeepsInv(st: State, group: nat, level: int)
    requires Inv(st) && Equipped(st.loggers)
    ensures
      var st' := SetLevels(st, 0, group, level);
      Inv(st') && st'.loggers == st.loggers && Others(st') == Others(st)
  {
    BehindNothing(st);
    SetLevelsEffect(st, st, 0, group, level);
    BehindParts(st.all, st.loggers, SetLevels(st, 0, group, level));
  }

  /** Setting a level changes it in every logger of the daemon, for one group, or for all if there is no such group. */
  lemma SetLevelReaches(st: State, group: nat, level: int, l: Logger)
    requires Inv(st) && Equipped(st.loggers) && l in st.levels
    ensures
      var st' := SetLevels(st, 0, group, level);
      && l in st'.levels && |st'.levels[l]| == |st.levels[l]|
      && forall g :: 0 <= g < |st.levels[l]| ==>
        st'.levels[l][g] == if g == group || group >= |st.levels[l]| then level else st.levels[l][g]
  {
    var e :| e in st.loggers && e.logger == Some(l);
    var i :| 0 <= i < |st.loggers| && st.loggers[i] == e;
    SetLevelsAt(st, 0, group, level, i);
  }

  // ---------- runs ----------

  /** What happens between starting and stopping: loads, level changes, and others adding and removing their loggers. */
  datatype Call =
    | LoadLoggers(settings: Settings, levels: Option<seq<int>>, toStderr: bool)
    | SetLevel(group: nat, level: int)
    | AddOther(logger: Logger, asked: seq<int>)
    | RemoveOther(logger: Logger)

  /** Section names are distinct, levels are set if every entry has a logger, and others handle their own loggers. */
  ghost predicate Allowed(st: State, c: Call) {
    match c
    case LoadLoggers(settings, _, _) => DistinctSections(settings.syslog) && DistinctSections(settings.filelog)
    case SetLevel(_, _) => Equipped(st.loggers)
    case AddOther(l, _) => l !in Owned(st.loggers)
    case RemoveOther(l) => l !in Owned(st.loggers)
  }

  ghost function Step(st: State, c: Call, syslog: bool, n: nat): State
    requires Inv(st) && Allowed(st, c)
  {
    match c
    case LoadLoggers(settings, levels, toStderr) =>
      AllWantedDistinct(settings, levels, toStderr, syslog, n);
      LoadEffect(st, AllWanted(settings, levels, toStderr, syslog, n), syslog, n);
      Load(st, AllWanted(settings, levels, toStderr, syslog, n), syslog, n)
    case SetLevel(group, level) => SetLevels(st, 0, group, level)
    case AddOther(l, levels) =>
      st.(all := Keep(st.all, {l}) + [LogEntry(l, levels)], next := if l.id < st.next then st.next else l.id + 1)
    case RemoveOther(l) => st.(all := Keep(st.all, {l}))
  }

  /** The registrations of others if the daemon had none of its own. */
  function OthersStep(all: seq<LogEntry>, c: Call): seq<LogEntry> {
    match c
    case AddOther(l, levels) => Keep(all, {l}) + [LogEntry(l, levels)]
    case RemoveOther(l) => Keep(all, {l})
    case _ => all
  }

  lemma {:induction false} OnlyKeep(all: seq<LogEntry>, mine: set<Logger>, l: Logger)
    requires l !in mine
    ensures Only(Keep(all, {l}), mine) == Only(all, mine)
  {
    if all != [] {
      OnlyKeep(all[1..], mine, l);
    }
  }

  lemma OtherEffect(st: State, l: Logger, more: seq<LogEntry>)
    requires Inv(st) && l !in Owned(st.loggers) && forall x :: x in more ==> x.logger == l
    ensures
      var all, mine := Keep(st.all, {l}) + more, Owned(st.loggers);
      Only(all, mine) == Only(st.all, mine) && Keep(all, mine) == Keep(Keep(st.all, mine), {l}) + more
  {
    var mine := Owned(st.loggers);
    OnlyKeep(st.all, mine, l);
    OnlyConcat(Keep(st.all, {l}), more, mine);
    OnlyNone(more, mine);
    KeepConcat(Keep(st.all, {l}), more, mine);
    KeepTwice(st.all, {l}, mine);
    KeepTwice(st.all, mine, {l});
    KeepSame(st.all, {l} + mine, mine + {l});
    KeepAll(more, mine);
    assert Only(st.all, mine) + [] == Only(st.all, mine);
  }

  /** Every step keeps the invariant, and to other loggers the bus looks as if the daemon had none. */
  lemma StepEffect(st: State, c: Call, syslog: bool, n: nat)
    requires Inv(st) && Allowed(st, c)
    ensures Inv(Step(st, c, syslog, n)) && Others(Step(st, c, syslog, n)) == OthersStep(Others(st), c)
  {
    match c
    case LoadLoggers(settings, levels, toStderr) =>
      AllWantedDistinct(settings, levels, toStderr, syslog, n);
      LoadEffect(st, AllWanted(settings, levels, toStderr, syslog, n), syslog, n);
    case SetLevel(group, level) => SetLevelKeepsInv(st, group, level);
    case AddOther(l, levels) =>
      OtherEffect(st, l, [LogEntry(l, levels)]);
      KeepMembers(st.all, {l});
    case RemoveOther(l) =>
      OtherEffect(st, l, []);
      KeepMembers(st.all, {l});
      assert Keep(st.all, {l}) + [] == Keep(st.all, {l});
  }

  ghost predicate AllAllowed(st: State, calls: seq<Call>, syslog: bool, n: nat)
    requires Inv(st)
    decreases |calls|
  {
    calls == [] ||
    (Allowed(st, calls[0]) &&
     (StepEffect(st, calls[0], syslog, n); AllAllowed(Step(st, calls[0], syslog, n), calls[1..], syslog, n)))
  }

  ghost function Run(st: State, calls: seq<Call>, syslog: bool, n: nat): State
    requires Inv(st) && AllAllowed(st, calls, syslog, n)
    decreases |calls|
  {
    if calls == [] then st
    else
      StepEffect(st, calls[0], syslog, n);
      Run(Step(st, calls[0], syslog, n), calls[1..], syslog, n)
  }

  function OthersRun(all: seq<LogEntry>, calls: seq<Call>): seq<LogEntry>
    decreases |calls|
  {
    if calls == [] then all else OthersRun(OthersStep(all, calls[0]), calls[1..])
  }

  /**
    After any run the logger objects and the daemon's registrations are exactly
    those of its entries, and the bus holds besides them what others have added.
   */
  lemma {:induction false} RunConservesLoggers(st: State, calls: seq<Call>, syslog: bool, n: nat)
    requires Inv(st) && AllAllowed(st, calls, syslog, n)
    ensures Inv(Run(st, calls, syslog, n))
    ensures Others(Run(st, calls, syslog, n)) == OthersRun(Others(st), calls)
    decreases |calls|
  {
    if calls != [] {
      StepEffect(st, calls[0], syslog, n);
      RunConservesLoggers(Step(st, calls[0], syslog, n), calls[1..], syslog, n);
    }
  }

  /** What a state says about which entries have a logger. */
  predicate LoggersByKind(loggers: seq<Entry>, syslog: bool) {
    forall e :: e in loggers ==> (e.logger.Some? <==> e.file || syslog)
  }

  /**
    After a load exactly the syslog entries of a build without syslog support have
    no logger, so levels can be set unless there is such an entry.
   */
  lemma EquippedIff(st: State, wanted: seq<Wanted>, syslog: bool, n: nat)
    requires Inv(st) && DistinctWanted(wanted) && LoggersByKind(st.loggers, syslog)
    ensures Consistent(st, st.loggers)
    ensures
      var st' := Load(st, wanted, syslog, n);
      && LoggersByKind(st'.loggers, syslog)
      && (Equipped(st'.loggers) <==> syslog || forall w :: w in wanted ==> w.file)
  {
    LoadEffect(st, wanted, syslog, n);
    var st' := Load(st, wanted, syslog, n);
    forall e | e in st'.loggers ensures e.logger.Some? <==> e.file || syslog {
      var j :| 0 <= j < |wanted| && st'.loggers[j] == e;
      assert LoadedAt(st, wanted, j, st', syslog, n);
    }
    forall j | 0 <= j < |wanted| ensures st'.loggers[j].file == wanted[j].file && st'.loggers[j] in st'.loggers {
      assert LoadedAt(st, wanted, j, st', syslog, n);
    }
    if Equipped(st'.loggers) && !syslog {
      forall w | w in wanted ensures w.file {
        var j :| 0 <= j < |wanted| && wanted[j] == w;
        assert st'.loggers[j].logger.Some?;
      }
    }
    if forall w :: w in wanted ==> w.file {
      forall e | e in st'.loggers ensures e.file {
        var j :| 0 <= j < |wanted| && st'.loggers[j] == e;
        assert wanted[j] in wanted;
      }
    }
  }

  // ---------- the levels configured ----------

  /** The daemon has an entry of this target and kind with a logger that has these levels. */
  ghost predicate Logged(st: State, target: string, file: bool, levels: seq<int>) {
    exists e :: e in st.loggers && e.target == target && e.file == file && e.logger.Some?
                && e.logger.value in st.levels && st.levels[e.logger.value] == levels
  }

  /** The sections of supported syslog facilities. */
  function Facilities(settings: Settings, syslog: bool): set<Section> {
    set s | s in settings.syslog && syslog && (s.target == "daemon" || s.target == "auth")
  }

  /** The section has a logger with the level configured for each group, or else for the section, or else 1. */
  ghost predicate SectionLogged(s: Section, file: bool, n: nat, st': State) {
    Logged(st', s.target, file, seq(n, g requires 0 <= g < n =>
      if g in s.byGroup then s.byGroup[g] else if s.byDefault.Some? then s.byDefault.value else 1))
  }

  ghost predicate SectionsLogged(settings: Settings, syslog: bool, n: nat, st': State) {
    && (forall s :: s in settings.filelog ==> SectionLogged(s, true, n, st'))
    && (forall s :: s in Facilities(settings, syslog) ==> SectionLogged(s, false, n, st'))
  }

  /** Every entry is that of a section. */
  ghost predicate NoOthers(settings: Settings, syslog: bool, st': State) {
    forall e :: e in st'.loggers ==>
      if e.file then exists s :: s in settings.filelog && s.target == e.target
      else exists s :: s in Facilities(settings, syslog) && s.target == e.target
  }

  /** The default entries are there, with the levels given. */
  ghost predicate DefaultsLogged(st: State, given: seq<int>, toStderr: bool, syslog: bool, n: nat, st': State) {
    && |st'.loggers| == 3
    && st'.loggers[0].target == "daemon" && !st'.loggers[0].file
    && st'.loggers[1].target == "stdout" && st'.loggers[1].file
    && st'.loggers[2].target == "auth" && !st'.loggers[2].file
    && (syslog ==> Logged(st', "daemon", false, given) && Logged(st', "auth", false, seq(n, _ => 0)))
    && if toStderr then Logged(st', "stdout", true, given) else StdoutAsBefore(st, n, st')
  }

  /**
    The loggers are those of the settings: of the file sections and the syslog
    sections of supported facilities. Without such a section they are the default
    ones, if levels are given for them.
   */
  ghost predicate Configured(st: State, settings: Settings, given: Option<seq<int>>, toStderr: bool, syslog: bool,
                             n: nat, st': State)
  {
    && SectionsLogged(settings, syslog, n, st')
    && if settings.filelog != [] || Facilities(settings, syslog) != {} then NoOthers(settings, syslog, st')
       else if given.None? then st'.loggers == []
       else DefaultsLogged(st, given.value, toStderr, syslog, n, st')
  }

  /** The logger for stdout keeps its levels, and a new one has the level -1 for each group. */
  ghost predicate StdoutAsBefore(st: State, n: nat, st': State) {
    && (forall e :: e in st.loggers && e.file && e.target == "stdout" && e.logger.Some? ==>
          e.logger.value in st.levels && Logged(st', "stdout", true, st.levels[e.logger.value]))
    && ((forall e :: e in st.loggers ==> !(e.file && e.target == "stdout")) ==>
          Logged(st', "stdout", true, seq(n, _ => -1)))
  }

  lemma {:induction false} WantedSyslogMember(sections: seq<Section>, syslog: bool, n: nat, w: Wanted)
    ensures w in WantedSyslog(sections, syslog, n) <==>
      exists s :: s in sections && SupportedFacility(s.target, syslog) && w == WantedSection(s, false, n)
  {
    if sections != [] {
      var front, last := sections[..|sections| - 1], sections[|sections| - 1];
      WantedSyslogMember(front, syslog, n, w);
      assert forall s :: s in sections <==> s in front || s == last;
    }
  }

  lemma WantedFilesMember(sections: seq<Section>, n: nat, w: Wanted)
    ensures w in WantedFiles(sections, n) <==> exists s :: s in sections && w == WantedSection(s, true, n)
  {
    if s :| s in sections && w == WantedSection(s, true, n) {
      var i :| 0 <= i < |sections| && sections[i] == s;
      assert WantedFiles(sections, n)[i] == w;
    }
  }

  /** What is wanted is logged, with its levels or those it had. */
  lemma WantedIsLogged(st: State, wanted: seq<Wanted>, st': State, syslog: bool, n: nat, j: nat)
    requires Loaded(st, wanted, st', syslog, n) && LoggersByKind(st.loggers, syslog) && j < |wanted|
    requires wanted[j].file || syslog
    ensures Logged(st', wanted[j].target, wanted[j].file, LevelsFor(wanted[j], st'.loggers[j], st.levels, n))
  {
    assert LoadedAt(st, wanted, j, st', syslog, n);
    var e := st'.loggers[j];
    assert e in st'.loggers;
    assert e in st.loggers ==> e.logger.Some?;
  }

  lemma SectionIsLogged(st: State, wanted: seq<Wanted>, st': State, syslog: bool, n: nat, s: Section, file: bool)
    requires Loaded(st, wanted, st', syslog, n) && LoggersByKind(st.loggers, syslog)
    requires WantedSection(s, file, n) in wanted && (file || syslog)
    ensures SectionLogged(s, file, n, st')
  {
    var w := WantedSection(s, file, n);
    var j :| 0 <= j < |wanted| && wanted[j] == w;
    WantedIsLogged(st, wanted, st', syslog, n, j);
    assert w.levels.value == seq(n, g requires 0 <= g < n =>
      if g in s.byGroup then s.byGroup[g] else if s.byDefault.Some? then s.byDefault.value else 1);
  }

  lemma DefaultsAreLogged(st: State, levels: seq<int>, toStderr: bool, syslog: bool, n: nat, st': State)
    requires Inv(st) && LoggersByKind(st.loggers, syslog)
    requires Loaded(st, Legacy(levels, toStderr, n), st', syslog, n)
    ensures DefaultsLogged(st, levels, toStderr, syslog, n, st')
  {
    var wanted := Legacy(levels, toStderr, n);
    forall j | 0 <= j < 3 ensures Matches(st'.loggers[j], wanted[j]) {
      assert LoadedAt(st, wanted, j, st', syslog, n);
    }
    if syslog {
      WantedIsLogged(st, wanted, st', syslog, n, 0);
      WantedIsLogged(st, wanted, st', syslog, n, 2);
      assert seq(n, _ => LEVEL_AUDIT) == seq(n, _ => 0);
    }
    WantedIsLogged(st, wanted, st', syslog, n, 1);
    var e := st'.loggers[1];
    assert Chosen(st, wanted[1], e, syslog) by {
      assert LoadedAt(st, wanted, 1, st', syslog, n);
    }
    if !toStderr {
      forall x | x in st.loggers && x.file && x.target == "stdout" && x.logger.Some?
        ensures x.logger.value in st.levels && Logged(st', "stdout", true, st.levels[x.logger.value])
      {
        assert e == x && x.logger.value in Owned(st.loggers);
      }
      if forall x :: x in st.loggers ==> !(x.file && x.target == "stdout") {
        assert e !in st.loggers && e.logger.value !in st.levels;
        assert Silent(n) == seq(n, _ => -1);
      }
    }
  }

  lemma SectionWanted(settings: Settings, given: Option<seq<int>>, toStderr: bool, syslog: bool, n: nat, s: Section,
                      file: bool)
    requires if file then s in settings.filelog else s in Facilities(settings, syslog)
    ensures WantedSyslog(settings.syslog, syslog, n) + WantedFiles(settings.filelog, n) != []
    ensures WantedSection(s, file, n) in AllWanted(settings, given, toStderr, syslog, n)
  {
    var w, configured := WantedSection(s, file, n),
      WantedSyslog(settings.syslog, syslog, n) + WantedFiles(settings.filelog, n);
    if file {
      WantedFilesMember(settings.filelog, n, w);
    } else {
      WantedSyslogMember(settings.syslog, syslog, n, w);
    }
    assert w in configured;
  }

  lemma OnlySectionsWanted(settings: Settings, given: Option<seq<int>>, toStderr: bool, syslog: bool, n: nat, w: Wanted)
    requires settings.filelog != [] || Facilities(settings, syslog) != {}
    requires w in AllWanted(settings, given, toStderr, syslog, n)
    ensures if w.file then exists s :: s in settings.filelog && s.target == w.target
            else exists s :: s in Facilities(settings, syslog) && s.target == w.target
  {
    if settings.filelog != [] {
      SectionWanted(settings, given, toStderr, syslog, n, settings.filelog[0], true);
    } else {
      var s :| s in Facilities(settings, syslog);
      SectionWanted(settings, given, toStderr, syslog, n, s, false);
    }
    WantedFilesMember(settings.filelog, n, w);
    WantedSyslogMember(settings.syslog, syslog, n, w);
  }

  /** A load configures the loggers. */
  lemma LoadConfigures(st: State, settings: Settings, given: Option<seq<int>>, toStderr: bool, syslog: bool, n: nat)
    requires Inv(st) && LoggersByKind(st.loggers, syslog)
    requires DistinctSections(settings.syslog) && DistinctSections(settings.filelog)
    ensures Consistent(st, st.loggers)
    ensures
      var st' := Load(st, AllWanted(settings, given, toStderr, syslog, n), syslog, n);
      Configured(st, settings, given, toStderr, syslog, n, st')
  {
    var wanted := AllWanted(settings, given, toStderr, syslog, n);
    AllWantedDistinct(settings, given, toStderr, syslog, n);
    LoadEffect(st, wanted, syslog, n);
    var st' := Load(st, wanted, syslog, n);
    forall s | s in settings.filelog ensures SectionLogged(s, true, n, st') {
      SectionWanted(settings, given, toStderr, syslog, n, s, true);
      SectionIsLogged(st, wanted, st', syslog, n, s, true);
    }
    forall s | s in Facilities(settings, syslog) ensures SectionLogged(s, false, n, st') {
      SectionWanted(settings, given, toStderr, syslog, n, s, false);
      SectionIsLogged(st, wanted, st', syslog, n, s, false);
    }
    if settings.filelog != [] || Facilities(settings, syslog) != {} {
      NoOthersLoaded(st, settings, given, toStderr, syslog, n, st');
    } else {
      NothingConfigured(settings, syslog, n);
      if given.Some? {
        DefaultsAreLogged(st, given.value, toStderr, syslog, n, st');
      }
    }
  }

  lemma NoOthersLoaded(st: State, settings: Settings, given: Option<seq<int>>, toStderr: bool, syslog: bool, n: nat,
                       st': State)
    requires settings.filelog != [] || Facilities(settings, syslog) != {}
    requires Loaded(st, AllWanted(settings, given, toStderr, syslog, n), st', syslog, n)
    ensures NoOthers(settings, syslog, st')
  {
    var wanted := AllWanted(settings, given, toStderr, syslog, n);
    forall e | e in st'.loggers
      ensures if e.file then exists s :: s in settings.filelog && s.target == e.target
              else exists s :: s in Facilities(settings, syslog) && s.target == e.target
    {
      LoadedIsWanted(st, wanted, st', syslog, n, e);
      var w :| w in wanted && Matches(e, w);
      OnlySectionsWanted(settings, given, toStderr, syslog, n, w);
    }
  }

  lemma NothingConfigured(settings: Settings, syslog: bool, n: nat)
    requires settings.filelog == [] && Facilities(settings, syslog) == {}
    ensures WantedSyslog(settings.syslog, syslog, n) + WantedFiles(settings.filelog, n) == []
  {
    var wanted := WantedSyslog(settings.syslog, syslog, n);
    forall s | s in settings.syslog ensures !SupportedFacility(s.target, syslog) {
      assert s !in Facilities(settings, syslog);
    }
    if wanted != [] {
      WantedSyslogMember(settings.syslog, syslog, n, wanted[0]);
    }
  }

  /** A build without syslog support that starts with no settings cannot set levels afterwards. */
  lemma DefaultsWithoutSyslog(levels: seq<int>, toStderr: bool, n: nat)
    ensures
      var st, wanted := State([], map[], 0, []), AllWanted(Settings([], []), Some(levels), toStderr, false, n);
      Inv(st) && Consistent(st, st.loggers) && !Equipped(Load(st, wanted, false, n).loggers)
  {
    var st, wanted := State([], map[], 0, []), AllWanted(Settings([], []), Some(levels), toStderr, false, n);
    AllWantedDistinct(Settings([], []), Some(levels), toStderr, false, n);
    EquippedIff(st, wanted, false, n);
    assert wanted[0] == Wanted("daemon", false, Some(levels)) && wanted[0] in wanted;
  }
}
