/** The daemon's handling of its configured loggers (daemon.c) on top of the event bus, against DaemonLoggers. */
module Daemon {
  import opened Wrappers
  import opened Sequences
  import opened LoggerRegistry
  import opened LoggerFastPath
  import opened DaemonLoggers
  import Bus

  lemma {:induction false} KeepByIndex(all: seq<LogEntry>, l: Logger)
    requires Distinct(all)
    ensures
      var i := IndexOf(all, l);
      Keep(all, {l}) == if i == |all| then all else all[..i] + all[i + 1..]
  {
    if all != [] {
      var rest := all[1..];
      if all[0].logger == l {
        OthersApart(all);
        KeepAll(rest, {l});
        assert all[..0] + rest == rest;
      } else {
        KeepByIndex(rest, l);
        var j := IndexOf(rest, l);
        assert all == [all[0]] + rest;
        if j < |rest| {
          Associative([all[0]], rest[..j], rest[j + 1..]);
          assert [all[0]] + rest[..j] == all[..j + 1] && rest[j + 1..] == all[j + 2..];
        }
      }
    }
  }

  lemma OthersApart(all: seq<LogEntry>)
    requires Distinct(all) && all != []
    ensures forall x :: x in all[1..] ==> x.logger != all[0].logger
  {
    assert forall k :: 0 <= k < |all| - 1 ==> all[1..][k] == all[k + 1];
  }

  lemma RemoveEffect(r: Registry, l: Logger)
    requires LoggerRegistry.Inv(r)
    ensures RemoveLogger(r, l).all == Keep(r.all, {l})
  {
    var i := IndexOf(r.all, l);
    KeepByIndex(r.all, l);
    if i < |r.all| {
      UnregisterGroups(r.(all := r.all[..i] + r.all[i + 1..]), 0, r.all[i], LEVEL_SILENT, LEVEL_SILENT);
    }
  }

  /** What adding and removing a logger does to the list of all loggers of the bus. */
  lemma BusEffect(r: Registry, l: Logger, levels: seq<int>)
    requires LoggerRegistry.Inv(r)
    ensures RemoveLogger(r, l).all == Keep(r.all, {l})
    ensures AddLogger(r, l, levels).all == Keep(r.all, {l}) + [LogEntry(l, levels)]
  {
    RemoveEffect(r, l);
    RemoveKeepsInv(r, l);
    RegisterGroups(RemoveLogger(r, l), 0, LogEntry(l, levels));
  }

  /** The daemon's logger objects implement log() only, and their level arrays have one level per group. */
  predicate Loggers(levels: map<Logger, seq<int>>, n: nat) {
    forall l :: l in levels ==> LogOnly(l) && |levels[l]| == n
  }

  /** A plain scan over all loggers sees a logger of the daemon at its current level. */
  lemma OwnReaches(st: State, r: Registry, l: Logger, group: nat, level: int)
    requires DaemonLoggers.Inv(st) && st.all == r.all && l in st.levels && LogOnly(l) && group < |st.levels[l]|
    ensures Reaches(r, LOG, group, level, l) <==>
      st.levels[l][group] > LEVEL_SILENT && st.levels[l][group] >= level
  {
    OwnRegistration(st, LogEntry(l, st.levels[l]));
    forall x | x in r.all && x.logger == l ensures x == LogEntry(l, st.levels[l]) {
      OwnRegistration(st, x);
    }
  }

  class Daemon {
    const bus: Bus.LogBus
    const haveSyslog: bool
    var loggers: seq<Entry>
    /** The level arrays of the logger objects. */
    var levels: map<Logger, seq<int>>
    var next: nat

    ghost function Model(): State
      requires bus.Shaped()
      reads this, bus.loggers, bus.maxLevel, bus.maxVlevel
    {
      State(loggers, levels, next, bus.Model().all)
    }

    ghost predicate Valid()
      reads this, bus.loggers, bus.maxLevel, bus.maxVlevel
    {
      && bus.Valid() && DaemonLoggers.Inv(Model()) && Loggers(levels, bus.dbgMax)
      && LoggersByKind(loggers, haveSyslog)
    }

    constructor (bus: Bus.LogBus, haveSyslog: bool, next: nat)
      requires bus.Valid() && forall x :: x in bus.Model().all ==> x.logger.id < next
      ensures Valid() && this.bus == bus && this.haveSyslog == haveSyslog && loggers == []
    {
      this.bus, this.haveSyslog, this.next := bus, haveSyslog, next;
      loggers, levels := [], map[];
      new;
      OnlyNone(bus.Model().all, {});
      assert Owned([]) == {};
    }

    /** An existing entry, taken out of the list, or a new one. */
    method GetLoggerEntry(w: Wanted, existing: seq<Entry>) returns (entry: Entry, rest: seq<Entry>)
      requires bus.Valid()
      modifies this
      ensures (entry, rest, Model()) == Obtain(old(Model()), existing, w, haveSyslog, bus.dbgMax)
    {
      var i := 0;
      while i < |existing| && !Matches(existing[i], w)
        invariant i <= |existing| && forall k :: 0 <= k < i ==> !Matches(existing[k], w)
      {
        i := i + 1;
      }
      assert i == Find(existing, w);
      if i == |existing| {
        rest := existing;
        if w.file || haveSyslog {
          var logger := Logger(next, true, false);
          levels := levels[logger := Silent(bus.dbgMax)];
          next := next + 1;
          entry := Entry(w.target, w.file, Some(logger));
        } else {
          entry := Entry(w.target, w.file, None);
        }
      } else {
        entry, rest := existing[i], existing[..i] + existing[i + 1..];
      }
    }

    /** Create or reuse the entry and put it in the daemon's list. */
    method AddEntry(w: Wanted, existing: seq<Entry>) returns (logger: Option<Logger>, rest: seq<Entry>)
      requires bus.Valid()
      modifies this
      ensures
        var (e, left, st) := Obtain(old(Model()), existing, w, haveSyslog, bus.dbgMax);
        logger == e.logger && rest == left && Model() == st.(loggers := st.loggers + [e])
    {
      var entry;
      entry, rest := GetLoggerEntry(w, existing);
      loggers := loggers + [entry];
      logger := entry.logger;
    }

    /** Set the levels of the logger, group by group. */
    method SetGroupLevels(logger: Logger, wanted: seq<int>)
      requires bus.Valid() && logger in levels && |levels[logger]| == |wanted|
      modifies this`levels
      ensures levels == old(levels)[logger := wanted]
    {
      for group := 0 to |wanted|
        invariant logger in levels && |levels[logger]| == |wanted|
        invariant levels == old(levels)[logger := levels[logger]] && levels[logger][..group] == wanted[..group]
      {
        levels := levels[logger := levels[logger][group := wanted[group]]];
      }
      assert levels[logger] == wanted;
    }

    /** Add the logger to the bus, which asks it for its levels. */
    method Register(logger: Logger)
      requires bus.Valid() && logger in levels && LogOnly(logger)
      modifies bus.loggers, bus.maxLevel, bus.maxVlevel
      ensures bus.Valid()
      ensures bus.Model().all == Keep(old(bus.Model()).all, {logger}) + [LogEntry(logger, levels[logger])]
      ensures old(Trusted(bus.Model())) ==> Trusted(bus.Model())
    {
      BusEffect(bus.Model(), logger, levels[logger]);
      if Trusted(bus.Model()) {
        TrustKept(bus.Model(), logger, levels[logger]);
      }
      bus.AddLogger(logger, levels[logger]);
    }

    /** Load one logger: its entry, its levels, and its registration on the bus. */
    method LoadLogger(w: Wanted, existing: seq<Entry>) returns (rest: seq<Entry>)
      requires bus.Valid() && Consistent(Model(), existing)
      requires Loggers(levels, bus.dbgMax) && (w.levels.Some? ==> |w.levels.value| == bus.dbgMax)
      modifies this, bus.loggers, bus.maxLevel, bus.maxVlevel
      ensures bus.Valid() && Loggers(levels, bus.dbgMax)
      ensures old(Trusted(bus.Model())) ==> Trusted(bus.Model())
      ensures (rest, Model()) == LoadOne(old(Model()), existing, w, haveSyslog, bus.dbgMax)
    {
      var logger;
      logger, rest := AddEntry(w, existing);
      if logger.Some? {
        if w.levels.Some? {
          SetGroupLevels(logger.value, w.levels.value);
        }
        Register(logger.value);
      }
    }

    /** Unregister and destroy the logger of an entry; it must still exist. */
    method DestroyEntry(entry: Entry)
      requires bus.Valid() && (entry.logger.Some? ==> entry.logger.value in levels)
      modifies this`levels, bus.loggers, bus.maxLevel, bus.maxVlevel
      ensures bus.Valid() && Model() == old(Model()).(levels := levels, all := bus.Model().all)
      ensures old(Trusted(bus.Model())) ==> Trusted(bus.Model())
      ensures entry.logger.None? ==> levels == old(levels) && bus.Model() == old(bus.Model())
      ensures entry.logger.Some? ==> levels == old(levels) - {entry.logger.value}
      ensures entry.logger.Some? ==> bus.Model().all == Keep(old(bus.Model()).all, {entry.logger.value})
    {
      if entry.logger.Some? {
        BusEffect(bus.Model(), entry.logger.value, []);
        if Trusted(bus.Model()) {
          TrustKept(bus.Model(), entry.logger.value, []);
        }
        bus.RemoveLogger(entry.logger.value);
        levels := levels - {entry.logger.value};
      }
    }

    /** Unregister and destroy the loggers of the entries, each once. */
    method DestroyEntries(existing: seq<Entry>)
      requires bus.Valid() && Apart(existing) && Owned(existing) <= levels.Keys && Loggers(levels, bus.dbgMax)
      modifies this`levels, bus.loggers, bus.maxLevel, bus.maxVlevel
      ensures bus.Valid() && Loggers(levels, bus.dbgMax) && Model() == Discard(old(Model()), existing)
      ensures old(Trusted(bus.Model())) ==> Trusted(bus.Model())
    {
      for i := 0 to |existing|
        invariant bus.Valid() && Loggers(levels, bus.dbgMax) && Owned(existing[i..]) <= levels.Keys
        invariant old(Trusted(bus.Model())) ==> Trusted(bus.Model())
        invariant Discard(Model(), existing[i..]) == Discard(old(Model()), existing)
      {
        assert existing[i] in existing[i..] && existing[i..][1..] == existing[i + 1..];
        assert forall e :: e in existing[i + 1..] && e.logger.Some? ==> e.logger.value in Owned(existing[i..]);
        DestroyEntry(existing[i]);
      }
    }

    method LoadSysLogger(s: Section, existing: seq<Entry>) returns (rest: seq<Entry>)
      requires bus.Valid() && Consistent(Model(), existing) && Loggers(levels, bus.dbgMax)
      modifies this, bus.loggers, bus.maxLevel, bus.maxVlevel
      ensures bus.Valid() && Loggers(levels, bus.dbgMax)
      ensures old(Trusted(bus.Model())) ==> Trusted(bus.Model())
      ensures (rest, Model()) ==
        if SupportedFacility(s.target, haveSyslog) then
          LoadOne(old(Model()), existing, WantedSection(s, false, bus.dbgMax), haveSyslog, bus.dbgMax)
        else (existing, old(Model()))
    {
      if !SupportedFacility(s.target, haveSyslog) {
        return existing;
      }
      rest := LoadLogger(WantedSection(s, false, bus.dbgMax), existing);
    }

    method LoadFileLogger(s: Section, existing: seq<Entry>) returns (rest: seq<Entry>)
      requires bus.Valid() && Consistent(Model(), existing) && Loggers(levels, bus.dbgMax)
      modifies this, bus.loggers, bus.maxLevel, bus.maxVlevel
      ensures bus.Valid() && Loggers(levels, bus.dbgMax)
      ensures old(Trusted(bus.Model())) ==> Trusted(bus.Model())
      ensures (rest, Model()) ==
        LoadOne(old(Model()), existing, WantedSection(s, true, bus.dbgMax), haveSyslog, bus.dbgMax)
    {
      rest := LoadLogger(WantedSection(s, true, bus.dbgMax), existing);
    }

    method LoadSysLoggers(sections: seq<Section>, existing: seq<Entry>) returns (rest: seq<Entry>)
      requires bus.Valid() && Consistent(Model(), existing) && Loggers(levels, bus.dbgMax)
      modifies this, bus.loggers, bus.maxLevel, bus.maxVlevel
      ensures bus.Valid() && Loggers(levels, bus.dbgMax)
      ensures old(Trusted(bus.Model())) ==> Trusted(bus.Model())
      ensures (rest, Model()) ==
        LoadAll(old(Model()), existing, WantedSyslog(sections, haveSyslog, bus.dbgMax), haveSyslog, bus.dbgMax)
    {
      rest := existing;
      ghost var st, n := Model(), bus.dbgMax;
      for i := 0 to |sections|
        invariant bus.Valid() && Consistent(Model(), rest) && Loggers(levels, n)
        invariant old(Trusted(bus.Model())) ==> Trusted(bus.Model())
        invariant (rest, Model()) == LoadAll(st, existing, WantedSyslog(sections[..i], haveSyslog, n), haveSyslog, n)
      {
        var s := sections[i];
        assert sections[..i + 1][..i] == sections[..i];
        LoadAllAppend(st, existing, WantedSyslog(sections[..i], haveSyslog, n), WantedSection(s, false, n),
                      haveSyslog, n);
        rest := LoadSysLogger(s, rest);
      }
      assert sections[..|sections|] == sections;
    }

    method LoadFileLoggers(sections: seq<Section>, existing: seq<Entry>) returns (rest: seq<Entry>)
      requires bus.Valid() && Consistent(Model(), existing) && Loggers(levels, bus.dbgMax)
      modifies this, bus.loggers, bus.maxLevel, bus.maxVlevel
      ensures bus.Valid() && Loggers(levels, bus.dbgMax)
      ensures old(Trusted(bus.Model())) ==> Trusted(bus.Model())
      ensures (rest, Model()) ==
        LoadAll(old(Model()), existing, WantedFiles(sections, bus.dbgMax), haveSyslog, bus.dbgMax)
    {
      rest := existing;
      ghost var st, files := Model(), WantedFiles(sections, bus.dbgMax);
      for i := 0 to |sections|
        invariant bus.Valid() && Consistent(Model(), rest) && Loggers(levels, bus.dbgMax)
        invariant old(Trusted(bus.Model())) ==> Trusted(bus.Model())
        invariant (rest, Model()) == LoadAll(st, existing, files[..i], haveSyslog, bus.dbgMax)
      {
        assert files[..i] + [files[i]] == files[..i + 1];
        LoadAllAppend(st, existing, files[..i], files[i], haveSyslog, bus.dbgMax);
        rest := LoadFileLogger(sections[i], rest);
      }
      assert files[..|files|] == files;
    }

    /** Load the default loggers for levels given on the command line. */
    method LoadLegacy(given: seq<int>, toStderr: bool, existing: seq<Entry>) returns (rest: seq<Entry>)
      requires bus.Valid() && Consistent(Model(), existing) && Loggers(levels, bus.dbgMax) && |given| == bus.dbgMax
      modifies this, bus.loggers, bus.maxLevel, bus.maxVlevel
      ensures bus.Valid() && Loggers(levels, bus.dbgMax)
      ensures old(Trusted(bus.Model())) ==> Trusted(bus.Model())
      ensures (rest, Model()) ==
        LoadAll(old(Model()), existing, Legacy(given, toStderr, bus.dbgMax), haveSyslog, bus.dbgMax)
    {
      ghost var st, w := Model(), Legacy(given, toStderr, bus.dbgMax);
      LoadAllAppend(st, existing, [], w[0], haveSyslog, bus.dbgMax);
      LoadAllAppend(st, existing, [w[0]], w[1], haveSyslog, bus.dbgMax);
      LoadAllAppend(st, existing, [w[0], w[1]], w[2], haveSyslog, bus.dbgMax);
      assert [] + [w[0]] == [w[0]] && [w[0]] + [w[1]] == [w[0], w[1]] && [w[0], w[1]] + [w[2]] == w;
      rest := LoadLogger(Wanted("daemon", false, Some(given)), existing);
      rest := LoadLogger(Wanted("stdout", true, if toStderr then Some(given) else None), rest);
      rest := LoadLogger(Wanted("auth", false, Some(seq(bus.dbgMax, _ => LEVEL_AUDIT))), rest);
    }

    method LoadConfigured(settings: Settings, given: Option<seq<int>>, toStderr: bool, existing: seq<Entry>)
      returns (rest: seq<Entry>)
      requires bus.Valid() && Consistent(Model(), existing) && Loggers(levels, bus.dbgMax) && loggers == []
      requires given.Some? ==> |given.value| == bus.dbgMax
      modifies this, bus.loggers, bus.maxLevel, bus.maxVlevel
      ensures bus.Valid() && Loggers(levels, bus.dbgMax)
      ensures old(Trusted(bus.Model())) ==> Trusted(bus.Model())
      ensures (rest, Model()) == LoadAll(old(Model()), existing,
        AllWanted(settings, given, toStderr, haveSyslog, bus.dbgMax), haveSyslog, bus.dbgMax)
    {
      ghost var st := Model();
      ghost var syslogs := WantedSyslog(settings.syslog, haveSyslog, bus.dbgMax);
      ghost var files := WantedFiles(settings.filelog, bus.dbgMax);
      LoadAllConcat(st, existing, syslogs, files, haveSyslog, bus.dbgMax);
      LoadAllLength(st, existing, syslogs + files, haveSyslog, bus.dbgMax);
      rest := LoadSysLoggers(settings.syslog, existing);
      rest := LoadFileLoggers(settings.filelog, rest);
      if loggers == [] && given.Some? {
        assert syslogs + files == [] && rest == existing && Model() == st;
        rest := LoadLegacy(given.value, toStderr, rest);
      }
    }

    /**
      Load the loggers of the settings, or else the default ones, reusing the
      entries there are, and destroy the entries left.
     */
    method LoadLoggers(settings: Settings, given: Option<seq<int>>, toStderr: bool)
      requires Valid() && DistinctSections(settings.syslog) && DistinctSections(settings.filelog)
      requires given.Some? ==> |given.value| == bus.dbgMax
      modifies this, bus.loggers, bus.maxLevel, bus.maxVlevel
      ensures Valid() && Consistent(old(Model()), old(loggers))
      ensures old(Trusted(bus.Model())) ==> Trusted(bus.Model())
      ensures Model() ==
        Load(old(Model()), AllWanted(settings, given, toStderr, haveSyslog, bus.dbgMax), haveSyslog, bus.dbgMax)
      ensures Configured(old(Model()), settings, given, toStderr, haveSyslog, bus.dbgMax, Model())
    {
      ghost var st, wanted := Model(), AllWanted(settings, given, toStderr, haveSyslog, bus.dbgMax);
      AllWantedDistinct(settings, given, toStderr, haveSyslog, bus.dbgMax);
      LeftoversExist(st, wanted, haveSyslog, bus.dbgMax);
      LoadKeepsInv(st, wanted, haveSyslog, bus.dbgMax);
      EquippedIff(st, wanted, haveSyslog, bus.dbgMax);
      LoadConfigures(st, settings, given, toStderr, haveSyslog, bus.dbgMax);
      var existing := loggers;
      loggers := [];
      existing := LoadConfigured(settings, given, toStderr, existing);
      DestroyEntries(existing);
    }

    /** Set the level of a group, or of all, in one logger, and register it again. */
    method Relevel(logger: Logger, group: nat, level: int)
      requires bus.Valid() && Loggers(levels, bus.dbgMax) && logger in levels
      modifies this`levels, bus.loggers, bus.maxLevel, bus.maxVlevel
      ensures bus.Valid() && Loggers(levels, bus.dbgMax)
      ensures old(Trusted(bus.Model())) ==> Trusted(bus.Model())
      ensures Model() == Enroll(old(Model()), logger, Some(Updated(old(levels)[logger], group, level)))
    {
      levels := levels[logger := Updated(levels[logger], group, level)];
      Register(logger);
    }

    /** Relevel the i-th logger. */
    method RelevelAt(i: nat, group: nat, level: int)
      requires bus.Valid() && Loggers(levels, bus.dbgMax) && Equipped(loggers) && Owned(loggers) <= levels.Keys
      requires i < |loggers|
      modifies this`levels, bus.loggers, bus.maxLevel, bus.maxVlevel
      ensures bus.Valid() && Loggers(levels, bus.dbgMax) && Owned(loggers) <= levels.Keys
      ensures old(Trusted(bus.Model())) ==> Trusted(bus.Model())
      ensures Levelled(old(Model()), i, group, level, Model(), i + 1)
    {
      SetLevelsStep(Model(), i, group, level);
      Relevel(loggers[i].logger.value, group, level);
    }

    method RelevelAll(group: nat, level: int)
      requires bus.Valid() && Loggers(levels, bus.dbgMax) && Equipped(loggers) && Owned(loggers) <= levels.Keys
      modifies this`levels, bus.loggers, bus.maxLevel, bus.maxVlevel
      ensures bus.Valid() && Loggers(levels, bus.dbgMax)
      ensures old(Trusted(bus.Model())) ==> Trusted(bus.Model())
      ensures Model() == SetLevels(old(Model()), 0, group, level)
    {
      ghost var st := Model();
      for i := 0 to |loggers|
        invariant bus.Valid() && Loggers(levels, bus.dbgMax) && Owned(loggers) <= levels.Keys
        invariant old(Trusted(bus.Model())) ==> Trusted(bus.Model())
        invariant Levelled(st, 0, group, level, Model(), i)
      {
        RelevelAt(i, group, level);
      }
    }

    /** Set the level of a group, or of all, in every logger. */
    method SetLevel(group: nat, level: int)
      requires Valid() && Equipped(loggers)
      modifies this`levels, bus.loggers, bus.maxLevel, bus.maxVlevel
      ensures Valid() && Owned(loggers) <= old(levels).Keys
      ensures old(Trusted(bus.Model())) ==> Trusted(bus.Model())
      ensures Model() == SetLevels(old(Model()), 0, group, level)
    {
      SetLevelKeepsInv(Model(), group, level);
      RelevelAll(group, level);
    }

    /**
      The hook for debug messages, which passes them to the bus. While only loggers
      like the daemon's own are registered, a message reaches exactly those of the
      daemon's loggers whose current level admits it, each once.
     */
    method Debug(group: nat, level: int, length: int, early: bool) returns (logs: seq<Logger>, vlogs: seq<Logger>)
      requires Valid() && Trusted(bus.Model()) && group < bus.dbgMax
      ensures Once(logs) && vlogs == []
      ensures forall l :: l in levels ==>
        (l in logs <==> length > 0 && levels[l][group] >= 0 && levels[l][group] >= level)
      ensures forall l :: l in logs && l !in levels ==> Reaches(bus.Model(), LOG, group, level, l)
    {
      logs, vlogs := bus.Vlog(group, level, length, early);
      TrustedDelivers(bus.Model(), group, level, length, early);
      forall l | l in levels
        ensures Reaches(bus.Model(), LOG, group, level, l) <==>
          levels[l][group] > LEVEL_SILENT && levels[l][group] >= level
      {
        OwnReaches(Model(), bus.Model(), l, group, level);
      }
    }
  }
}
