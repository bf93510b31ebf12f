/** The logger side of the event bus object (bus.c), proved against LoggerRegistry. */
module Bus {
  import opened LoggerRegistry
  import opened LoggerFastPath

  lemma {:induction false} InsertAt(list: seq<LogEntry>, g: nat, e: LogEntry, i: nat)
    requires i <= |list| && forall k :: 0 <= k < i ==> list[k].Level(g) > e.Level(g)
    requires i < |list| ==> list[i].Level(g) <= e.Level(g)
    ensures Insert(list, g, e) == list[..i] + [e] + list[i..]
  {
    if i > 0 {
      InsertAt(list[1..], g, e, i - 1);
      assert list[1..][..i - 1] == list[1..i] && list[1..][i - 1..] == list[i..];
      assert [list[0]] + list[1..i] == list[..i];
    } else if list == [] {
      assert list[..0] + [e] + list[0..] == [e] + list;
    }
  }

  lemma {:induction false} AdmittingPrefix(list: seq<LogEntry>, cb: Callback, g: nat, level: int, i: nat)
    requires i < |list|
    ensures Admitting(list[..i + 1], cb, g, level) ==
      Admitting(list[..i], cb, g, level)
      + if Implements(list[i].logger, cb) && list[i].Level(g) >= level then [list[i].logger] else []
  {
    if i > 0 {
      AdmittingPrefix(list[1..], cb, g, level, i - 1);
      assert list[1..][..i] == list[..i + 1][1..] && list[1..][..i - 1] == list[..i][1..];
    } else {
      assert list[..1] == [list[0]] && list[..1][1..] == [] && list[..0] == [];
    }
  }

  class LogBus {
    /** DBG_MAX, the number of debug groups. */
    const dbgMax: nat
    /** The list of each group; the extra list at dbgMax holds all loggers. */
    const loggers: array<seq<LogEntry>>
    const maxLevel: array<int>
    const maxVlevel: array<int>

    ghost predicate Shaped()
    {
      && loggers.Length == dbgMax + 1 == maxLevel.Length == maxVlevel.Length
      && maxLevel != maxVlevel
    }

    ghost function Model(): Registry
      requires Shaped()
      reads loggers, maxLevel, maxVlevel
    {
      Registry(loggers[dbgMax], loggers[..dbgMax], maxLevel[..dbgMax], maxVlevel[..dbgMax])
    }

    ghost predicate Valid()
      reads loggers, maxLevel, maxVlevel
    {
      Shaped() && Inv(Model())
    }

    constructor (dbgMax: nat)
      ensures Valid() && this.dbgMax == dbgMax && Model() == Empty(dbgMax)
      ensures fresh(loggers) && fresh(maxLevel) && fresh(maxVlevel)
    {
      this.dbgMax := dbgMax;
      loggers := new seq<LogEntry>[dbgMax + 1](_ => []);
      maxLevel := new int[dbgMax + 1](_ => LEVEL_SILENT);
      maxVlevel := new int[dbgMax + 1](_ => LEVEL_SILENT);
      new;
      EmptyInv(dbgMax);
    }

    method RegisterLogger(group: nat, entry: LogEntry)
      requires Shaped() && group < dbgMax
      modifies loggers, maxLevel, maxVlevel
      ensures Model() == Register(old(Model()), group, entry)
    {
      var list, level, i := loggers[group], entry.Level(group), 0;
      while i < |list| && list[i].Level(group) > level
        invariant i <= |list| && forall k :: 0 <= k < i ==> list[k].Level(group) > level
      {
        i := i + 1;
      }
      InsertAt(list, group, entry, i);
      loggers[group] := list[..i] + [entry] + list[i..];
      if entry.logger.log {
        maxLevel[group] := MaxOf(maxLevel[group], level);
      }
      if entry.logger.vlog {
        maxVlevel[group] := MaxOf(maxVlevel[group], level);
      }
    }

    /** Takes the entry out of one list. */
    method RemoveEntry(group: nat, entry: LogEntry)
      requires Shaped() && group < dbgMax
      modifies loggers
      ensures loggers[..] == old(loggers[..])[group := Drop(old(loggers[group]), entry)]
    {
      var list, rest := loggers[group], [];
      for i := 0 to |list|
        invariant loggers[..] == old(loggers[..]) && Drop(list, entry) == rest + Drop(list[i..], entry)
      {
        assert list[i..][1..] == list[i + 1..];
        if list[i] != entry {
          assert rest + ([list[i]] + Drop(list[i + 1..], entry)) == rest + [list[i]] + Drop(list[i + 1..], entry);
          rest := rest + [list[i]];
        }
      }
      assert list[|list|..] == [] && rest + [] == rest;
      loggers[group] := rest;
    }

    /**
      Take the entry out of the list of the group and set the maxima from the head
      of the list, each to the level carried along if the head lacks the callback.
     */
    method Refresh(group: nat, entry: LogEntry, carried: int, vcarried: int) returns (level: int, vlevel: int)
      requires Shaped() && group < dbgMax
      modifies loggers, maxLevel, maxVlevel
      ensures Model() == LoggerRegistry.Refresh(old(Model()), group, entry, carried, vcarried)
      ensures level == Model().maxLevel[group] && vlevel == Model().maxVlevel[group]
    {
      level, vlevel := carried, vcarried;
      RemoveEntry(group, entry);
      var list := loggers[group];
      if list != [] {
        if list[0].logger.log {
          level := list[0].Level(group);
        }
        if list[0].logger.vlog {
          vlevel := list[0].Level(group);
        }
      }
      maxLevel[group] := level;
      maxVlevel[group] := vlevel;
    }

    method UnregisterLogger(logger: Logger)
      requires Valid()
      modifies loggers, maxLevel, maxVlevel
      ensures Valid() && Model() == LoggerRegistry.RemoveLogger(old(Model()), logger)
    {
      RemoveKeepsInv(Model(), logger);
      var all, i := loggers[dbgMax], 0;
      while i < |all| && all[i].logger != logger
        invariant i <= |all| && forall k :: 0 <= k < i ==> all[k].logger != logger
      {
        i := i + 1;
      }
      assert i == IndexOf(all, logger);
      if i < |all| {
        var found := all[i];
        loggers[dbgMax] := all[..i] + all[i + 1..];
        ghost var mid := Model();
        assert mid == old(Model()).(all := all[..i] + all[i + 1..]);
        var level, vlevel := LEVEL_SILENT, LEVEL_SILENT;
        for group := 0 to dbgMax
          invariant UnregisterFrom(Model(), group, found, level, vlevel)
                 == UnregisterFrom(mid, 0, found, LEVEL_SILENT, LEVEL_SILENT)
        {
          if found.Level(group) > LEVEL_SILENT {
            level, vlevel := Refresh(group, found, level, vlevel);
          }
        }
      }
    }

    /** `levels` are the levels the logger reports for the groups. */
    method AddLogger(logger: Logger, levels: seq<int>)
      requires Valid()
      modifies loggers, maxLevel, maxVlevel
      ensures Valid() && Model() == LoggerRegistry.AddLogger(old(Model()), logger, levels)
    {
      AddKeepsInv(Model(), logger, levels);
      UnregisterLogger(logger);
      var entry := LogEntry(logger, levels);
      ghost var mid := Model();
      for group := 0 to dbgMax
        invariant RegisterFrom(Model(), group, entry) == RegisterFrom(mid, 0, entry)
      {
        if entry.Level(group) > LEVEL_SILENT {
          RegisterLogger(group, entry);
        }
      }
      ghost var registered := Model();
      loggers[dbgMax] := loggers[dbgMax] + [entry];
      assert Model() == registered.(all := registered.all + [entry]);
    }

    method RemoveLogger(logger: Logger)
      requires Valid()
      modifies loggers, maxLevel, maxVlevel
      ensures Valid() && Model() == LoggerRegistry.RemoveLogger(old(Model()), logger)
    {
      UnregisterLogger(logger);
    }

    /** Invoke the callback for every logger of the group that implements it and admits the level. */
    method Invoke(cb: Callback, group: nat, level: int) returns (calls: seq<Logger>)
      requires Shaped() && group < dbgMax
      ensures calls == Admitting(loggers[group], cb, group, level)
    {
      calls := [];
      var list := loggers[group];
      for i := 0 to |list|
        invariant calls == Admitting(list[..i], cb, group, level)
      {
        AdmittingPrefix(list, cb, group, level, i);
        if Implements(list[i].logger, cb) && list[i].Level(group) >= level {
          calls := calls + [list[i].logger];
        }
      }
      assert list[..|list|] == list;
    }

    /** `length` is what formatting the message returns; `early` as in LoggerFastPath.Deliver. */
    method Vlog(group: nat, level: int, length: int, early: bool) returns (logs: seq<Logger>, vlogs: seq<Logger>)
      requires Shaped() && group < dbgMax
      ensures (logs, vlogs) == Deliver(Model(), group, level, length, early)
    {
      logs, vlogs := [], [];
      if early && maxLevel[group] < level && maxVlevel[group] < level {
        return;
      }
      if maxLevel[group] >= level && length > 0 {
        logs := Invoke(LOG, group, level);
      }
      if maxVlevel[group] >= level {
        vlogs := Invoke(VLOG, group, level);
      }
    }
  }
}
