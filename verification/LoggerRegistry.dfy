/**
  The logger registry of the event bus (bus.c): one list of loggers per debug
  group, ordered by descending level, and cached maximum levels that let vlog
  skip the lists. Adding and removing a logger are functions on registries, and
  the invariant they keep says what the lists hold.
 */
module LoggerRegistry {
  /** A logger object with the callbacks it implements. */
  datatype Logger = Logger(id: nat, log: bool, vlog: bool)

  datatype Callback = LOG | VLOG

  predicate Implements(l: Logger, cb: Callback) {
    if cb == LOG then l.log else l.vlog
  }

  const LEVEL_SILENT: int := -1

  /** A registered logger with the level it asked for in each group. */
  datatype LogEntry = LogEntry(logger: Logger, levels: seq<int>) {
    function Level(g: nat): int {
      if g < |levels| then levels[g] else LEVEL_SILENT
    }
  }

  /** All registered loggers, the lists per group, and the cached maxima per group. */
  datatype Registry =
    Registry(all: seq<LogEntry>, groups: seq<seq<LogEntry>>, maxLevel: seq<int>, maxVlevel: seq<int>)
  {
    function Max(cb: Callback): seq<int> {
      if cb == LOG then maxLevel else maxVlevel
    }

    /** The number of debug groups. */
    function N(): nat {
      |groups|
    }

    predicate Sized() {
      |maxLevel| == |groups| == |maxVlevel|
    }
  }

  function Empty(n: nat): Registry {
    Registry([], seq(n, _ => []), seq(n, _ => LEVEL_SILENT), seq(n, _ => LEVEL_SILENT))
  }

  function MaxOf(a: int, b: int): int {
    if a > b then a else b
  }

  // ---------- adding and removing ----------

  /** The list with the entry before the first one whose level does not exceed its own. */
  function Insert(list: seq<LogEntry>, g: nat, e: LogEntry): seq<LogEntry>
  {
    if list == [] || list[0].Level(g) <= e.Level(g) then [e] + list
    else [list[0]] + Insert(list[1..], g, e)
  }

  /** The list without the entry. */
  function Drop(list: seq<LogEntry>, e: LogEntry): seq<LogEntry> {
    if list == [] then []
    else if list[0] == e then Drop(list[1..], e)
    else [list[0]] + Drop(list[1..], e)
  }

  /** Enter the logger in the list of group g and raise the maxima of its callbacks. */
  function Register(r: Registry, g: nat, e: LogEntry): Registry
    requires r.Sized() && g < r.N()
  {
    r.(groups := r.groups[g := Insert(r.groups[g], g, e)],
       maxLevel := if e.logger.log then r.maxLevel[g := MaxOf(r.maxLevel[g], e.Level(g))] else r.maxLevel,
       maxVlevel := if e.logger.vlog then r.maxVlevel[g := MaxOf(r.maxVlevel[g], e.Level(g))] else r.maxVlevel)
  }

  /** Enter the logger in the lists of the groups from g on in which it is not silent. */
  function RegisterFrom(r: Registry, g: nat, e: LogEntry): Registry
    requires r.Sized() && g <= r.N()
    decreases r.N() - g
  {
    if g == r.N() then r
    else if e.Level(g) <= LEVEL_SILENT then RegisterFrom(r, g + 1, e)
    else
      RegisterFrom(Register(r, g, e), g + 1, e)
  }

  lemma {:induction false} InsertMembers(list: seq<LogEntry>, g: nat, e: LogEntry)
    ensures forall x :: x in Insert(list, g, e) <==> x == e || x in list
  {
    if list != [] && list[0].Level(g) > e.Level(g) {
      InsertMembers(list[1..], g, e);
    }
  }

  lemma {:induction false} DropMembers(list: seq<LogEntry>, e: LogEntry)
    ensures forall x :: x in Drop(list, e) <==> x != e && x in list
  {
    if list != [] {
      DropMembers(list[1..], e);
    }
  }

  /** The level of the list's head if it implements the callback, else the level carried over. */
  function HeadLevel(list: seq<LogEntry>, g: nat, cb: Callback, carried: int): int
  {
    if list != [] && Implements(list[0].logger, cb) then list[0].Level(g) else carried
  }

  /** Remove the entry from the list of group g and set the maxima from the new head of the list. */
  function Refresh(r: Registry, g: nat, e: LogEntry, level: int, vlevel: int): Registry
    requires r.Sized() && g < r.N()
  {
    var list := Drop(r.groups[g], e);
    r.(groups := r.groups[g := list],
       maxLevel := r.maxLevel[g := HeadLevel(list, g, LOG, level)],
       maxVlevel := r.maxVlevel[g := HeadLevel(list, g, VLOG, vlevel)])
  }

  /** Refresh the groups from g on, carrying the two levels from group to group. */
  function UnregisterFrom(r: Registry, g: nat, e: LogEntry, level: int, vlevel: int): Registry
    requires r.Sized() && g <= r.N()
    decreases r.N() - g
  {
    if g == r.N() then r
    else if e.Level(g) <= LEVEL_SILENT then UnregisterFrom(r, g + 1, e, level, vlevel)
    else
      var r' := Refresh(r, g, e, level, vlevel);
      UnregisterFrom(r', g + 1, e, r'.maxLevel[g], r'.maxVlevel[g])
  }

  /** The index of the logger's entry, or the length of the list. */
  function IndexOf(all: seq<LogEntry>, l: Logger): (i: nat)
    ensures i <= |all|
    ensures i < |all| ==> all[i].logger == l
    ensures forall k :: 0 <= k < i ==> all[k].logger != l
  {
    if all == [] || all[0].logger == l then 0 else 1 + IndexOf(all[1..], l)
  }

  function RemoveLogger(r: Registry, l: Logger): Registry
    requires r.Sized()
  {
    var i := IndexOf(r.all, l);
    if i == |r.all| then r
    else UnregisterFrom(r.(all := r.all[..i] + r.all[i + 1..]), 0, r.all[i], LEVEL_SILENT, LEVEL_SILENT)
  }

  lemma {:induction false} UnregisterSized(r: Registry, g: nat, e: LogEntry, level: int, vlevel: int)
    requires r.Sized() && g <= r.N()
    ensures var r' := UnregisterFrom(r, g, e, level, vlevel);
      r'.Sized() && r'.N() == r.N() && r'.all == r.all
    decreases r.N() - g
  {
    if g < r.N() {
      if e.Level(g) <= LEVEL_SILENT {
        UnregisterSized(r, g + 1, e, level, vlevel);
      } else {
        var next := Refresh(r, g, e, level, vlevel);
        UnregisterSized(next, g + 1, e, next.maxLevel[g], next.maxVlevel[g]);
      }
    }
  }

  lemma {:induction false} UnregisterGroup(r: Registry, g: nat, e: LogEntry, level: int, vlevel: int, k: nat)
    requires r.Sized() && g <= r.N() && k < r.N()
    ensures var r' := UnregisterFrom(r, g, e, level, vlevel);
      && r'.N() == r.N()
      && r'.groups[k] == if g <= k && e.Level(k) > LEVEL_SILENT then Drop(r.groups[k], e) else r.groups[k]
    decreases r.N() - g
  {
    UnregisterSized(r, g, e, level, vlevel);
    if g < r.N() {
      if e.Level(g) <= LEVEL_SILENT {
        UnregisterGroup(r, g + 1, e, level, vlevel, k);
      } else {
        var next := Refresh(r, g, e, level, vlevel);
        UnregisterGroup(next, g + 1, e, next.maxLevel[g], next.maxVlevel[g], k);
      }
    }
  }

  lemma UnregisterGroups(r: Registry, g: nat, e: LogEntry, level: int, vlevel: int)
    requires r.Sized() && g <= r.N()
    ensures var r' := UnregisterFrom(r, g, e, level, vlevel);
      && r'.Sized() && r'.N() == r.N() && r'.all == r.all
      && (forall k :: 0 <= k < r.N() ==>
            r'.groups[k] == if g <= k && e.Level(k) > LEVEL_SILENT then Drop(r.groups[k], e) else r.groups[k])
  {
    UnregisterSized(r, g, e, level, vlevel);
    forall k: nat | k < r.N() {
      UnregisterGroup(r, g, e, level, vlevel, k);
    }
  }

  lemma {:induction false} UnregisterLeavesEarlierMaxima(r: Registry, g: nat, e: LogEntry, level: int, vlevel: int)
    requires r.Sized() && g <= r.N()
    ensures var r' := UnregisterFrom(r, g, e, level, vlevel);
      && r'.Sized() && r'.N() == r.N()
      && (forall k :: 0 <= k < g ==> r'.maxLevel[k] == r.maxLevel[k] && r'.maxVlevel[k] == r.maxVlevel[k])
    decreases r.N() - g
  {
    if g < r.N() {
      if e.Level(g) <= LEVEL_SILENT {
        UnregisterLeavesEarlierMaxima(r, g + 1, e, level, vlevel);
      } else {
        var next := Refresh(r, g, e, level, vlevel);
        UnregisterLeavesEarlierMaxima(next, g + 1, e, next.maxLevel[g], next.maxVlevel[g]);
      }
    }
  }

  function Raised(max: int, applies: bool, level: int): int {
    if applies && level > LEVEL_SILENT then MaxOf(max, level) else max
  }

  lemma {:induction false} RegisterSized(r: Registry, g: nat, e: LogEntry)
    requires r.Sized() && g <= r.N()
    ensures var r' := RegisterFrom(r, g, e);
      r'.Sized() && r'.N() == r.N() && r'.all == r.all
    decreases r.N() - g
  {
    if g < r.N() {
      RegisterSized(if e.Level(g) > LEVEL_SILENT then Register(r, g, e) else r, g + 1, e);
    }
  }

  lemma {:induction false} RegisterGroup(r: Registry, g: nat, e: LogEntry, k: nat)
    requires r.Sized() && g <= r.N() && k < r.N()
    ensures var r' := RegisterFrom(r, g, e);
      && k < r'.N()
      && r'.groups[k] == if g <= k && e.Level(k) > LEVEL_SILENT then Insert(r.groups[k], k, e) else r.groups[k]
    decreases r.N() - g
  {
    if g < r.N() {
      RegisterGroup(if e.Level(g) > LEVEL_SILENT then Register(r, g, e) else r, g + 1, e, k);
    }
  }

  lemma RegisterGroups(r: Registry, g: nat, e: LogEntry)
    requires r.Sized() && g <= r.N()
    ensures var r' := RegisterFrom(r, g, e);
      && r'.Sized() && r'.N() == r.N() && r'.all == r.all
      && (forall k :: 0 <= k < r.N() ==>
            r'.groups[k] == if g <= k && e.Level(k) > LEVEL_SILENT then Insert(r.groups[k], k, e) else r.groups[k])
  {
    RegisterSized(r, g, e);
    forall k: nat | k < r.N() {
      RegisterGroup(r, g, e, k);
    }
  }

  /** The last group before k that the removal of the entry refreshes, or -1. */
  function Previous(e: LogEntry, k: nat): (p: int)
    ensures -1 <= p < k
  {
    if k == 0 then -1 else if e.Level(k - 1) >= 0 then k - 1 else Previous(e, k - 1)
  }

  /** The maximum found in the last group refreshed before k, which is carried along. */
  function CarriedAt(r: Registry, e: LogEntry, k: nat, cb: Callback): int
    requires r.Sized() && k <= r.N()
  {
    if Previous(e, k) < 0 then -1 else r.Max(cb)[Previous(e, k)]
  }

  lemma {:induction false} UnregisterMaximum(r: Registry, g: nat, e: LogEntry, level: int, vlevel: int, cb: Callback,
                                             k: nat)
    requires r.Sized() && g <= k < r.N() && e.Level(k) >= 0
    requires (if cb == LOG then level else vlevel) == CarriedAt(r, e, g, cb)
    ensures var r', list := UnregisterFrom(r, g, e, level, vlevel), Drop(r.groups[k], e);
      && r'.Sized() && r'.N() == r.N()
      && r'.Max(cb)[k] ==
         if list != [] && Implements(list[0].logger, cb) then list[0].Level(k) else CarriedAt(r', e, k, cb)
    decreases r.N() - g
  {
    UnregisterLeavesEarlierMaxima(r, g, e, level, vlevel);
    if e.Level(g) <= LEVEL_SILENT {
      UnregisterMaximum(r, g + 1, e, level, vlevel, cb, k);
    } else {
      var next := Refresh(r, g, e, level, vlevel);
      if g < k {
        UnregisterMaximum(next, g + 1, e, next.maxLevel[g], next.maxVlevel[g], cb, k);
      } else {
        UnregisterLeavesEarlierMaxima(next, g + 1, e, next.maxLevel[g], next.maxVlevel[g]);
      }
    }
  }

  /**
    Removing a logger sets the maximum of each group it was listed in to the level
    of the head of the remaining list, or, if the head lacks the callback, to that
    of the last such group before; further maxima are left alone.
   */
  lemma RemovedMaximum(r: Registry, l: Logger, cb: Callback, i: nat, k: nat)
    requires Inv(r) && i < |r.all| && r.all[i].logger == l && k < r.N()
    ensures var r', e := RemoveLogger(r, l), r.all[i];
      && r'.Sized() && r'.N() == r.N()
      && r'.Max(cb)[k] ==
         if e.Level(k) < 0 then r.Max(cb)[k]
         else if r'.groups[k] != [] && Implements(r'.groups[k][0].logger, cb) then r'.groups[k][0].Level(k)
         else CarriedAt(r', e, k, cb)
  {
    var e, mid := r.all[i], r.(all := r.all[..i] + r.all[i + 1..]);
    assert IndexOf(r.all, l) == i;
    UnregisterGroups(mid, 0, e, LEVEL_SILENT, LEVEL_SILENT);
    if e.Level(k) >= 0 {
      UnregisterMaximum(mid, 0, e, LEVEL_SILENT, LEVEL_SILENT, cb, k);
    } else {
      UnregisterKeepsMaximum(mid, 0, e, LEVEL_SILENT, LEVEL_SILENT, k);
    }
  }

  lemma {:induction false} UnregisterKeepsMaximum(r: Registry, g: nat, e: LogEntry, level: int, vlevel: int, k: nat)
    requires r.Sized() && g <= r.N() && k < r.N() && e.Level(k) < 0
    ensures var r' := UnregisterFrom(r, g, e, level, vlevel);
      r'.Sized() && r'.N() == r.N() && r'.maxLevel[k] == r.maxLevel[k] && r'.maxVlevel[k] == r.maxVlevel[k]
    decreases r.N() - g
  {
    if g < r.N() {
      if e.Level(g) <= LEVEL_SILENT {
        UnregisterKeepsMaximum(r, g + 1, e, level, vlevel, k);
      } else {
        var next := Refresh(r, g, e, level, vlevel);
        UnregisterKeepsMaximum(next, g + 1, e, next.maxLevel[g], next.maxVlevel[g], k);
      }
    }
  }

  /** Adding a logger raises the maximum of a group to its level exactly if it has the callback and a higher level. */
  lemma AddedMaximum(r: Registry, l: Logger, levels: seq<int>, cb: Callback, k: nat)
    requires Inv(r) && k < r.N()
    ensures var before, after := RemoveLogger(r, l), AddLogger(r, l, levels);
      && before.Sized() && after.Sized() && before.N() == r.N() == after.N()
      && after.Max(cb)[k] ==
         if k < |levels| && levels[k] >= 0 && Implements(l, cb) && levels[k] > before.Max(cb)[k] then levels[k]
         else before.Max(cb)[k]
  {
    RemoveKeepsInv(r, l);
    RegisterRaises(RemoveLogger(r, l), 0, LogEntry(l, levels));
  }

  lemma {:induction false} RegisterRaisesAt(r: Registry, g: nat, e: LogEntry, k: nat)
    requires r.Sized() && g <= r.N() && k < r.N()
    ensures var r' := RegisterFrom(r, g, e);
      && r'.Sized() && r'.N() == r.N()
      && r'.maxLevel[k] == Raised(r.maxLevel[k], g <= k && e.logger.log, e.Level(k))
      && r'.maxVlevel[k] == Raised(r.maxVlevel[k], g <= k && e.logger.vlog, e.Level(k))
    decreases r.N() - g
  {
    if g < r.N() {
      RegisterRaisesAt(if e.Level(g) > LEVEL_SILENT then Register(r, g, e) else r, g + 1, e, k);
    }
  }

  lemma RegisterRaises(r: Registry, g: nat, e: LogEntry)
    requires r.Sized() && g <= r.N()
    ensures var r' := RegisterFrom(r, g, e);
      && r'.Sized() && r'.N() == r.N()
      && (forall k :: 0 <= k < r.N() ==>
            && r'.maxLevel[k] == Raised(r.maxLevel[k], g <= k && e.logger.log, e.Level(k))
            && r'.maxVlevel[k] == Raised(r.maxVlevel[k], g <= k && e.logger.vlog, e.Level(k)))
  {
    RegisterGroups(r, g, e);
    forall k: nat | k < r.N() {
      RegisterRaisesAt(r, g, e, k);
    }
  }

  lemma RemoveSized(r: Registry, l: Logger)
    requires r.Sized()
    ensures RemoveLogger(r, l).Sized() && RemoveLogger(r, l).N() == r.N()
  {
    var i := IndexOf(r.all, l);
    if i < |r.all| {
      UnregisterGroups(r.(all := r.all[..i] + r.all[i + 1..]), 0, r.all[i], LEVEL_SILENT, LEVEL_SILENT);
    }
  }

  /** Register the logger with its current levels, in place of an earlier registration. */
  function AddLogger(r: Registry, l: Logger, levels: seq<int>): Registry
    requires r.Sized()
  {
    RemoveSized(r, l);
    var r' := RegisterFrom(RemoveLogger(r, l), 0, LogEntry(l, levels));
    r'.(all := r'.all + [LogEntry(l, levels)])
  }

  // ---------- the invariant ----------

  ghost predicate Descending(list: seq<LogEntry>, g: nat)
  {
    forall i, j :: 0 <= i < j < |list| ==> list[i].Level(g) >= list[j].Level(g)
  }

  ghost predicate Distinct(list: seq<LogEntry>) {
    forall i, j :: 0 <= i < j < |list| ==> list[i].logger != list[j].logger
  }

  /** The list of a group holds exactly the registered loggers above SILENT, by descending level. */
  ghost predicate GroupOk(r: Registry, g: nat)
    requires r.Sized() && g < r.N()
  {
    && (forall x :: x in r.groups[g] <==> x in r.all && x.Level(g) > LEVEL_SILENT)
    && Descending(r.groups[g], g)
    && Distinct(r.groups[g])
  }

  ghost predicate Inv(r: Registry) {
    && r.Sized()
    && Distinct(r.all)
    && (forall g :: 0 <= g < r.N() ==> GroupOk(r, g))
    && (forall g :: 0 <= g < r.N() ==> r.maxLevel[g] >= LEVEL_SILENT && r.maxVlevel[g] >= LEVEL_SILENT)
  }

  lemma {:induction false} InsertOk(list: seq<LogEntry>, g: nat, e: LogEntry)
    requires Descending(list, g) && Distinct(list) && forall x :: x in list ==> x.logger != e.logger
    ensures var list' := Insert(list, g, e);
      && (forall x :: x in list' <==> x == e || x in list)
      && Descending(list', g) && Distinct(list')
  {
    InsertMembers(list, g, e);
    if list != [] && list[0].Level(g) > e.Level(g) {
      InsertOk(list[1..], g, e);
      InsertMembers(list[1..], g, e);
      var rest := Insert(list[1..], g, e);
      forall j | 0 <= j < |rest|
        ensures list[0].Level(g) >= rest[j].Level(g) && list[0].logger != rest[j].logger
      {
        assert rest[j] in rest;
        if rest[j] != e {
          var k :| 0 <= k < |list[1..]| && list[1..][k] == rest[j];
          assert list[k + 1] == rest[j];
        }
      }
    }
  }

  lemma {:induction false} DropOk(list: seq<LogEntry>, g: nat, e: LogEntry)
    requires Descending(list, g) && Distinct(list)
    ensures var list' := Drop(list, e);
      && (forall x :: x in list' <==> x in list && x != e)
      && Descending(list', g) && Distinct(list')
  {
    DropMembers(list, e);
    if list != [] {
      DropOk(list[1..], g, e);
      DropMembers(list[1..], e);
      var rest := Drop(list[1..], e);
      forall j | 0 <= j < |rest|
        ensures list[0].Level(g) >= rest[j].Level(g) && list[0].logger != rest[j].logger
      {
        assert rest[j] in rest;
        var k :| 0 <= k < |list[1..]| && list[1..][k] == rest[j];
        assert list[k + 1] == rest[j];
      }
    }
  }

  lemma EmptyInv(n: nat)
    ensures Inv(Empty(n))
  {
  }

  lemma {:induction false} CarriedAboveSilent(r: Registry, g: nat, e: LogEntry, level: int, vlevel: int)
    requires r.Sized() && g <= r.N()
    requires level >= LEVEL_SILENT && vlevel >= LEVEL_SILENT
    requires forall k, x :: 0 <= k < r.N() && x in r.groups[k] ==> x.Level(k) > LEVEL_SILENT
    requires forall k :: 0 <= k < r.N() ==> r.maxLevel[k] >= LEVEL_SILENT && r.maxVlevel[k] >= LEVEL_SILENT
    ensures var r' := UnregisterFrom(r, g, e, level, vlevel);
      && r'.Sized()
      && forall k :: 0 <= k < r'.N() ==> r'.maxLevel[k] >= LEVEL_SILENT && r'.maxVlevel[k] >= LEVEL_SILENT
    decreases r.N() - g
  {
    UnregisterGroups(r, g, e, level, vlevel);
    if g < r.N() {
      if e.Level(g) <= LEVEL_SILENT {
        CarriedAboveSilent(r, g + 1, e, level, vlevel);
      } else {
        DropMembers(r.groups[g], e);
        var next := Refresh(r, g, e, level, vlevel);
        assert next.groups[g] != [] ==> next.groups[g][0] in next.groups[g];
        CarriedAboveSilent(next, g + 1, e, next.maxLevel[g], next.maxVlevel[g]);
      }
    }
  }

  lemma AllButOne(all: seq<LogEntry>, i: nat)
    requires i < |all| && Distinct(all)
    ensures var rest := all[..i] + all[i + 1..];
      Distinct(rest) && forall x :: x in rest <==> x in all && x.logger != all[i].logger
  {
    var rest := all[..i] + all[i + 1..];
    forall x | x in all && x.logger != all[i].logger
      ensures x in rest
    {
      var k :| 0 <= k < |all| && all[k] == x;
      assert if k < i then rest[k] == x else rest[k - 1] == x;
    }
  }

  lemma DropGroupOk(r: Registry, g: nat, e: LogEntry)
    requires r.Sized() && g < r.N() && GroupOk(r, g) && e in r.all && Distinct(r.all)
    ensures forall x :: x in Drop(r.groups[g], e) <==> x in r.all && x.logger != e.logger && x.Level(g) > LEVEL_SILENT
    ensures Descending(Drop(r.groups[g], e), g) && Distinct(Drop(r.groups[g], e))
    ensures e.Level(g) <= LEVEL_SILENT ==> Drop(r.groups[g], e) == r.groups[g]
  {
    DropOk(r.groups[g], g, e);
    assert forall x :: x in r.all && x.logger == e.logger ==> x == e;
    if e.Level(g) <= LEVEL_SILENT {
      DropNothing(r.groups[g], e);
    }
  }

  lemma {:induction false} DropNothing(list: seq<LogEntry>, e: LogEntry)
    requires e !in list
    ensures Drop(list, e) == list
  {
    if list != [] {
      DropNothing(list[1..], e);
    }
  }

  lemma RemoveGroups(r: Registry, i: nat)
    requires Inv(r) && i < |r.all| && i == IndexOf(r.all, r.all[i].logger)
    ensures var r' := RemoveLogger(r, r.all[i].logger);
      && r'.Sized() && r'.N() == r.N() && r'.all == r.all[..i] + r.all[i + 1..]
      && forall g :: 0 <= g < r.N() ==> r'.groups[g] == Drop(r.groups[g], r.all[i])
  {
    UnregisterGroups(r.(all := r.all[..i] + r.all[i + 1..]), 0, r.all[i], LEVEL_SILENT, LEVEL_SILENT);
    forall g | 0 <= g < r.N() && r.all[i].Level(g) <= LEVEL_SILENT
      ensures Drop(r.groups[g], r.all[i]) == r.groups[g]
    {
      assert GroupOk(r, g);
      DropGroupOk(r, g, r.all[i]);
    }
  }

  lemma RemoveMaxima(r: Registry, i: nat)
    requires Inv(r) && i < |r.all| && i == IndexOf(r.all, r.all[i].logger)
    ensures var r' := RemoveLogger(r, r.all[i].logger);
      && r'.Sized()
      && forall g :: 0 <= g < r'.N() ==> r'.maxLevel[g] >= LEVEL_SILENT && r'.maxVlevel[g] >= LEVEL_SILENT
  {
    var mid := r.(all := r.all[..i] + r.all[i + 1..]);
    forall k, x | 0 <= k < r.N() && x in mid.groups[k] ensures x.Level(k) > LEVEL_SILENT {
      assert GroupOk(r, k);
    }
    CarriedAboveSilent(mid, 0, r.all[i], LEVEL_SILENT, LEVEL_SILENT);
  }

  /** Removing a logger leaves a consistent registry of exactly the other loggers. */
  lemma RemoveKeepsInv(r: Registry, l: Logger)
    requires Inv(r)
    ensures var r' := RemoveLogger(r, l);
      && Inv(r') && r'.N() == r.N()
      && (forall x :: x in r'.all <==> x in r.all && x.logger != l)
      && (IndexOf(r.all, l) < |r.all| ==>
            forall g :: 0 <= g < r.N() ==> r'.groups[g] == Drop(r.groups[g], r.all[IndexOf(r.all, l)]))
  {
    var i, r' := IndexOf(r.all, l), RemoveLogger(r, l);
    if i < |r.all| {
      AllButOne(r.all, i);
      RemoveGroups(r, i);
      RemoveMaxima(r, i);
      forall g | 0 <= g < r'.N() ensures GroupOk(r', g) {
        assert GroupOk(r, g);
        DropGroupOk(r, g, r.all[i]);
      }
    } else {
      assert forall x :: x in r.all ==> x.logger != l;
    }
  }

  /** Adding a logger leaves a consistent registry in which it has exactly the new levels. */
  lemma AddKeepsInv(r: Registry, l: Logger, levels: seq<int>)
    requires Inv(r)
    ensures var r' := AddLogger(r, l, levels);
      && Inv(r') && r'.N() == r.N()
      && (forall x :: x in r'.all <==> (x in r.all && x.logger != l) || x == LogEntry(l, levels))
  {
    RemoveKeepsInv(r, l);
    var mid, e := RemoveLogger(r, l), LogEntry(l, levels);
    RegisterGroups(mid, 0, e);
    RegisterRaises(mid, 0, e);
    var r' := AddLogger(r, l, levels);
    forall g | 0 <= g < r.N() ensures GroupOk(r', g) {
      assert GroupOk(mid, g);
      InsertOk(mid.groups[g], g, e);
    }
  }
}
