/**
  The fast path of vlog: which loggers a message reaches, and exactly when the
  cached maxima may be trusted.
 */
module LoggerFastPath {
  import opened Sequences
  import opened LoggerRegistry

  // ---------- delivering a message ----------

  /** The loggers of the list that implement the callback and admit the level, in list order. */
  function Admitting(list: seq<LogEntry>, cb: Callback, g: nat, level: int): seq<Logger> {
    if list == [] then []
    else
      (if Implements(list[0].logger, cb) && list[0].Level(g) >= level then [list[0].logger] else [])
      + Admitting(list[1..], cb, g, level)
  }

  /**
    The log() and vlog() calls made for a message. `early` says whether the
    levels can be checked before the lock is taken, `length` is the length of the
    formatted message.
   */
  function Deliver(r: Registry, g: nat, level: int, length: int, early: bool): (seq<Logger>, seq<Logger>)
    requires r.Sized() && g < r.N()
  {
    if early && r.maxLevel[g] < level && r.maxVlevel[g] < level then ([], [])
    else
      (if r.maxLevel[g] >= level && length > 0 then Admitting(r.groups[g], LOG, g, level) else [],
       if r.maxVlevel[g] >= level then Admitting(r.groups[g], VLOG, g, level) else [])
  }

  /** The cached maximum of the callback bounds every listed logger that implements it. */
  ghost predicate Bounded(r: Registry, cb: Callback)
    requires r.Sized()
  {
    forall g, x :: 0 <= g < r.N() && x in r.groups[g] && Implements(x.logger, cb) ==> x.Level(g) <= r.Max(cb)[g]
  }

  /** A plain scan over all registered loggers, without lists per group or maxima. */
  ghost predicate Reaches(r: Registry, cb: Callback, g: nat, level: int, l: Logger) {
    Implements(l, cb) && exists x :: x in r.all && x.logger == l && x.Level(g) > LEVEL_SILENT && x.Level(g) >= level
  }

  ghost predicate Once(calls: seq<Logger>) {
    forall i, j :: 0 <= i < j < |calls| ==> calls[i] != calls[j]
  }

  lemma {:induction false} AdmittingMembers(list: seq<LogEntry>, cb: Callback, g: nat, level: int)
    requires Distinct(list)
    ensures var calls := Admitting(list, cb, g, level);
      && Once(calls)
      && (forall l :: l in calls <==>
            Implements(l, cb) && exists x :: x in list && x.logger == l && x.Level(g) >= level)
  {
    if list != [] {
      AdmittingMembers(list[1..], cb, g, level);
      assert forall x :: x in list <==> x == list[0] || x in list[1..];
      assert forall x :: x in list[1..] ==> x.logger != list[0].logger;
      var rest := Admitting(list[1..], cb, g, level);
      assert list[0].logger !in rest;
    }
  }

  lemma ScanOfGroup(r: Registry, cb: Callback, g: nat, level: int)
    requires Inv(r) && g < r.N()
    ensures var calls := Admitting(r.groups[g], cb, g, level);
      Once(calls) && forall l :: l in calls <==> Reaches(r, cb, g, level, l)
  {
    assert GroupOk(r, g);
    AdmittingMembers(r.groups[g], cb, g, level);
  }

  lemma NothingAboveMax(r: Registry, cb: Callback, g: nat, level: int, l: Logger)
    requires Inv(r) && g < r.N() && Bounded(r, cb) && r.Max(cb)[g] < level
    ensures !Reaches(r, cb, g, level, l)
  {
    assert GroupOk(r, g);
  }

  /**
    With trustworthy maxima a message reaches, through each callback, exactly the
    loggers whose own level admits it, each once; an empty text is not passed to
    log().
   */
  lemma DeliveryEqualsScan(r: Registry, g: nat, level: int, length: int, early: bool)
    requires Inv(r) && g < r.N() && Bounded(r, LOG) && Bounded(r, VLOG)
    ensures var (logs, vlogs) := Deliver(r, g, level, length, early);
      && Once(logs) && Once(vlogs)
      && (forall l :: l in logs <==> length > 0 && Reaches(r, LOG, g, level, l))
      && (forall l :: l in vlogs <==> Reaches(r, VLOG, g, level, l))
  {
    ScanOfGroup(r, LOG, g, level);
    ScanOfGroup(r, VLOG, g, level);
    forall l | r.maxLevel[g] < level ensures !Reaches(r, LOG, g, level, l) {
      NothingAboveMax(r, LOG, g, level, l);
    }
    forall l | r.maxVlevel[g] < level ensures !Reaches(r, VLOG, g, level, l) {
      NothingAboveMax(r, VLOG, g, level, l);
    }
  }

  /** Loggers are called in the order of the list. */
  lemma {:induction false} AdmittingInOrder(list: seq<LogEntry>, cb: Callback, g: nat, level: int, i: nat, j: nat)
    returns (k: nat, l: nat)
    requires i < j < |Admitting(list, cb, g, level)|
    ensures k < l < |list|
    ensures list[k].logger == Admitting(list, cb, g, level)[i] && list[l].logger == Admitting(list, cb, g, level)[j]
  {
    var rest := Admitting(list[1..], cb, g, level);
    if Implements(list[0].logger, cb) && list[0].Level(g) >= level {
      if i == 0 {
        l := AdmittingAt(list[1..], cb, g, level, j - 1);
        k, l := 0, l + 1;
      } else {
        k, l := AdmittingInOrder(list[1..], cb, g, level, i - 1, j - 1);
        k, l := k + 1, l + 1;
      }
    } else {
      k, l := AdmittingInOrder(list[1..], cb, g, level, i, j);
      k, l := k + 1, l + 1;
    }
  }

  lemma {:induction false} AdmittingAt(list: seq<LogEntry>, cb: Callback, g: nat, level: int, i: nat) returns (k: nat)
    requires i < |Admitting(list, cb, g, level)|
    ensures k < |list| && list[k].logger == Admitting(list, cb, g, level)[i]
  {
    if Implements(list[0].logger, cb) && list[0].Level(g) >= level {
      if i == 0 {
        k := 0;
      } else {
        k := AdmittingAt(list[1..], cb, g, level, i - 1);
        k := k + 1;
      }
    } else {
      k := AdmittingAt(list[1..], cb, g, level, i);
      k := k + 1;
    }
  }

  /** Of two loggers called for a message, the one called first has the higher level, or the same. */
  lemma DeliveredByLevel(r: Registry, g: nat, level: int, length: int, early: bool, i: nat, j: nat)
    returns (x: LogEntry, y: LogEntry)
    requires Inv(r) && g < r.N() && i < j < |Deliver(r, g, level, length, early).0|
    ensures x in r.all && x.logger == Deliver(r, g, level, length, early).0[i]
    ensures y in r.all && y.logger == Deliver(r, g, level, length, early).0[j]
    ensures x.Level(g) >= y.Level(g)
  {
    assert GroupOk(r, g);
    var k, l := AdmittingInOrder(r.groups[g], LOG, g, level, i, j);
    x, y := r.groups[g][k], r.groups[g][l];
    assert x in r.groups[g] && y in r.groups[g];
  }

  /** A logger that is added goes behind those of a higher level, and ahead of the others that were there. */
  lemma AddedAheadOfEquals(r: Registry, l: Logger, levels: seq<int>, g: nat) returns (i: nat)
    requires Inv(r) && g < r.N() && g < |levels| && levels[g] >= 0
    ensures var r', rest := AddLogger(r, l, levels), RemoveLogger(r, l).groups;
      && |rest| == |r'.groups| == r.N() && i <= |rest[g]|
      && r'.groups[g] == rest[g][..i] + [LogEntry(l, levels)] + rest[g][i..]
      && (forall k :: 0 <= k < i ==> rest[g][k].Level(g) > levels[g])
      && (forall k :: i <= k < |rest[g]| ==> rest[g][k].Level(g) <= levels[g])
  {
    var e, mid := LogEntry(l, levels), RemoveLogger(r, l);
    RemoveKeepsInv(r, l);
    RegisterGroups(mid, 0, e);
    i := InsertPlace(mid.groups[g], g, e);
    assert GroupOk(mid, g);
  }

  lemma {:induction false} InsertPlace(list: seq<LogEntry>, g: nat, e: LogEntry) returns (i: nat)
    ensures i <= |list| && Insert(list, g, e) == list[..i] + [e] + list[i..]
    ensures forall k :: 0 <= k < i ==> list[k].Level(g) > e.Level(g)
    ensures i < |list| ==> list[i].Level(g) <= e.Level(g)
  {
    if list == [] || list[0].Level(g) <= e.Level(g) {
      i := 0;
    } else {
      i := InsertPlace(list[1..], g, e);
      assert [list[0]] + list[1..][..i] == list[..i + 1] && list[1..][i..] == list[i + 1..];
      i := i + 1;
    }
  }

  // ---------- what keeps the maxima trustworthy ----------

  /** The head of the list decides: it implements the callback, or no logger in the list does. */
  ghost predicate HeadDecides(list: seq<LogEntry>, cb: Callback) {
    list != [] && !Implements(list[0].logger, cb) ==> forall x :: x in list ==> !Implements(x.logger, cb)
  }

  ghost predicate Decided(list: seq<LogEntry>, g: nat, cb: Callback) {
    Descending(list, g) && HeadDecides(list, cb)
  }

  /** Refreshing a group from a head that decides keeps its maximum an upper bound. */
  lemma RefreshBounds(r: Registry, g: nat, e: LogEntry, level: int, vlevel: int, cb: Callback)
    requires r.Sized() && g < r.N() && Bounded(r, cb)
    requires Decided(Drop(r.groups[g], e), g, cb)
    ensures Bounded(Refresh(r, g, e, level, vlevel), cb)
  {
    var next := Refresh(r, g, e, level, vlevel);
    var list := next.groups[g];
    forall x | x in list && Implements(x.logger, cb)
      ensures x.Level(g) <= next.Max(cb)[g]
    {
      var i :| 0 <= i < |list| && list[i] == x;
      assert i == 0 || list[0].Level(g) >= list[i].Level(g);
    }
    forall k, x | 0 <= k < r.N() && k != g && x in next.groups[k] && Implements(x.logger, cb)
      ensures x.Level(k) <= next.Max(cb)[k]
    {
      assert x in r.groups[k];
    }
  }

  lemma {:induction false} UnregisterBounds(r: Registry, g: nat, e: LogEntry, level: int, vlevel: int, cb: Callback)
    requires r.Sized() && g <= r.N()
    requires forall k :: 0 <= k < r.N() ==> Decided(Drop(r.groups[k], e), k, cb)
    requires Bounded(r, cb)
    ensures var r' := UnregisterFrom(r, g, e, level, vlevel);
      r'.Sized() && Bounded(r', cb)
    decreases r.N() - g
  {
    if g < r.N() {
      if e.Level(g) <= LEVEL_SILENT {
        UnregisterBounds(r, g + 1, e, level, vlevel, cb);
      } else {
        var next := Refresh(r, g, e, level, vlevel);
        RefreshBounds(r, g, e, level, vlevel, cb);
        forall k | 0 <= k < r.N()
          ensures Drop(next.groups[k], e) == Drop(r.groups[k], e)
        {
          DropTwice(r.groups[k], e);
        }
        UnregisterBounds(next, g + 1, e, next.maxLevel[g], next.maxVlevel[g], cb);
      }
    }
  }

  lemma {:induction false} DropTwice(list: seq<LogEntry>, e: LogEntry)
    ensures Drop(Drop(list, e), e) == Drop(list, e)
  {
    DropMembers(list, e);
    DropNothing(Drop(list, e), e);
  }

  /** Removing a logger keeps the maxima trustworthy if the heads of the remaining lists decide. */
  lemma RemoveKeepsBounds(r: Registry, l: Logger, cb: Callback)
    requires Inv(r) && Bounded(r, cb)
    requires var r' := RemoveLogger(r, l);
      forall g :: 0 <= g < r'.N() ==> HeadDecides(r'.groups[g], cb)
    ensures RemoveLogger(r, l).Sized() && Bounded(RemoveLogger(r, l), cb)
  {
    var i := IndexOf(r.all, l);
    if i < |r.all| {
      var e, mid := r.all[i], r.(all := r.all[..i] + r.all[i + 1..]);
      RemoveKeepsInv(r, l);
      forall k | 0 <= k < r.N()
        ensures Decided(Drop(r.groups[k], e), k, cb)
      {
        assert GroupOk(r, k);
        DropOk(r.groups[k], k, e);
        assert RemoveLogger(r, l).groups[k] == Drop(r.groups[k], e);
      }
      UnregisterBounds(mid, 0, e, LEVEL_SILENT, LEVEL_SILENT, cb);
    }
  }

  /** Registering a logger never loses a bound. */
  lemma RegisterKeepsBounds(r: Registry, e: LogEntry, cb: Callback)
    requires r.Sized() && Bounded(r, cb)
    ensures RegisterFrom(r, 0, e).Sized() && Bounded(RegisterFrom(r, 0, e), cb)
  {
    RegisterGroups(r, 0, e);
    RegisterRaises(r, 0, e);
    var r' := RegisterFrom(r, 0, e);
    forall g, x | 0 <= g < r.N() && x in r'.groups[g] && Implements(x.logger, cb)
      ensures x.Level(g) <= r'.Max(cb)[g]
    {
      InsertMembers(r.groups[g], g, e);
    }
  }

  // ---------- runs ----------

  datatype Call = Add(logger: Logger, levels: seq<int>) | Remove(logger: Logger)

  function Step(r: Registry, c: Call): Registry
    requires r.Sized()
  {
    match c
    case Add(l, levels) => AddLogger(r, l, levels)
    case Remove(l) => RemoveLogger(r, l)
  }

  lemma StepKeepsInv(r: Registry, c: Call)
    requires Inv(r)
    ensures Inv(Step(r, c)) && Step(r, c).N() == r.N()
    ensures forall x :: x in Step(r, c).all ==> x in r.all || x.logger == c.logger
  {
    match c
    case Add(l, levels) => AddKeepsInv(r, l, levels);
    case Remove(l) => RemoveKeepsInv(r, l);
  }

  function Run(r: Registry, calls: seq<Call>): Registry
    requires Inv(r)
    decreases |calls|
  {
    if calls == [] then r
    else
      StepKeepsInv(r, calls[0]);
      Run(Step(r, calls[0]), calls[1..])
  }

  ghost predicate Over(calls: seq<Call>, loggers: set<Logger>) {
    forall i :: 0 <= i < |calls| ==> calls[i].logger in loggers
  }

  ghost predicate RegisteredFrom(r: Registry, loggers: set<Logger>) {
    forall x :: x in r.all ==> x.logger in loggers
  }

  /** After every run of additions, re-additions and removals the registry is consistent. */
  lemma {:induction false} RunKeepsInv(r: Registry, calls: seq<Call>)
    requires Inv(r)
    ensures Inv(Run(r, calls)) && Run(r, calls).N() == r.N()
    decreases |calls|
  {
    if calls != [] {
      StepKeepsInv(r, calls[0]);
      RunKeepsInv(Step(r, calls[0]), calls[1..]);
    }
  }

  /** All loggers implement the callback, or none does. */
  ghost predicate Uniform(loggers: set<Logger>, cb: Callback) {
    (forall l :: l in loggers ==> Implements(l, cb)) || (forall l :: l in loggers ==> !Implements(l, cb))
  }

  lemma HeadsDecideIfUniform(r: Registry, loggers: set<Logger>, cb: Callback, g: nat)
    requires Inv(r) && g < r.N() && RegisteredFrom(r, loggers) && Uniform(loggers, cb)
    ensures HeadDecides(r.groups[g], cb)
  {
    assert GroupOk(r, g);
    assert r.groups[g] != [] ==> r.groups[g][0] in r.groups[g];
  }

  lemma HeadsDecideIfFew(r: Registry, loggers: set<Logger>, l: Logger, cb: Callback, g: nat)
    requires Inv(r) && g < r.N() && RegisteredFrom(r, loggers) && |loggers| <= 2 && l in loggers
    ensures var r' := RemoveLogger(r, l);
      r'.Sized() && g < r'.N() && HeadDecides(r'.groups[g], cb)
  {
    RemoveKeepsInv(r, l);
    var list := RemoveLogger(r, l).groups[g];
    assert GroupOk(RemoveLogger(r, l), g);
    forall x | x in list && list != []
      ensures x.logger == list[0].logger
    {
      assert list[0] in list;
      if x.logger != list[0].logger {
        var three := {l, x.logger, list[0].logger};
        SubsetSize(three, loggers);
      }
    }
  }

  lemma StepKeepsBounds(r: Registry, c: Call, loggers: set<Logger>, cb: Callback)
    requires Inv(r) && Bounded(r, cb) && RegisteredFrom(r, loggers) && c.logger in loggers
    requires Uniform(loggers, cb) || |loggers| <= 2
    ensures Step(r, c).Sized() && Bounded(Step(r, c), cb)
  {
    var mid := RemoveLogger(r, c.logger);
    RemoveKeepsInv(r, c.logger);
    forall g | 0 <= g < r.N()
      ensures HeadDecides(mid.groups[g], cb)
    {
      if Uniform(loggers, cb) {
        HeadsDecideIfUniform(mid, loggers, cb, g);
      } else {
        HeadsDecideIfFew(r, loggers, c.logger, cb, g);
      }
    }
    RemoveKeepsBounds(r, c.logger, cb);
    if c.Add? {
      RegisterKeepsBounds(mid, LogEntry(c.logger, c.levels), cb);
    }
  }

  lemma {:induction false} RunKeepsBounds(r: Registry, calls: seq<Call>, loggers: set<Logger>, cb: Callback)
    requires Inv(r) && Bounded(r, cb) && RegisteredFrom(r, loggers) && Over(calls, loggers)
    requires Uniform(loggers, cb) || |loggers| <= 2
    ensures Run(r, calls).Sized() && Bounded(Run(r, calls), cb)
    decreases |calls|
  {
    if calls != [] {
      StepKeepsInv(r, calls[0]);
      StepKeepsBounds(r, calls[0], loggers, cb);
      RunKeepsBounds(Step(r, calls[0]), calls[1..], loggers, cb);
    }
  }

  // ---------- loggers of one kind ----------

  /** File and syslog loggers implement log() and nothing else. */
  predicate LogOnly(l: Logger) {
    l.log && !l.vlog
  }

  /** Only such loggers are registered, and the maxima may be trusted. */
  ghost predicate Trusted(r: Registry) {
    && Inv(r) && Bounded(r, LOG) && Bounded(r, VLOG)
    && forall x :: x in r.all ==> LogOnly(x.logger)
  }

  function Registered(r: Registry): set<Logger> {
    set x | x in r.all :: x.logger
  }

  lemma EmptyTrusted(n: nat)
    ensures Trusted(Empty(n))
  {
    EmptyInv(n);
  }

  lemma StepKeepsTrust(r: Registry, c: Call)
    requires Trusted(r) && LogOnly(c.logger)
    ensures Trusted(Step(r, c))
  {
    var loggers := Registered(r) + {c.logger};
    StepKeepsInv(r, c);
    StepKeepsBounds(r, c, loggers, LOG);
    StepKeepsBounds(r, c, loggers, VLOG);
  }

  /** Adding a logger of this kind, or removing any logger, keeps the maxima trustworthy. */
  lemma TrustKept(r: Registry, l: Logger, levels: seq<int>)
    requires Trusted(r)
    ensures LogOnly(l) ==> Trusted(AddLogger(r, l, levels))
    ensures Trusted(RemoveLogger(r, l))
  {
    if LogOnly(l) {
      StepKeepsTrust(r, Add(l, levels));
      StepKeepsTrust(r, Remove(l));
    } else {
      assert forall i :: 0 <= i < |r.all| ==> r.all[i] in r.all;
      assert IndexOf(r.all, l) == |r.all|;
    }
  }

  /** With trust, a message goes to log() of each logger whose level admits it, once, and to nobody's vlog(). */
  lemma TrustedDelivers(r: Registry, g: nat, level: int, length: int, early: bool)
    requires Trusted(r) && g < r.N()
    ensures var (logs, vlogs) := Deliver(r, g, level, length, early);
      && Once(logs) && vlogs == []
      && forall l :: l in logs <==> length > 0 && Reaches(r, LOG, g, level, l)
  {
    DeliveryEqualsScan(r, g, level, length, early);
    var vlogs := Deliver(r, g, level, length, early).1;
    assert vlogs != [] ==> Reaches(r, VLOG, g, level, vlogs[0]);
  }

  /** A logger that was not registered goes to its place in the list, and to the end of all loggers. */
  lemma AddNew(r: Registry, e: LogEntry)
    requires Inv(r) && r.N() > 0 && e.Level(0) > LEVEL_SILENT && forall x :: x in r.all ==> x.logger != e.logger
    ensures var r' := AddLogger(r, e.logger, e.levels);
      && Inv(r') && r'.N() == r.N()
      && r'.all == r.all + [e]
      && r'.groups[0] == Insert(r.groups[0], 0, e)
  {
    assert IndexOf(r.all, e.logger) == |r.all|;
    AddKeepsInv(r, e.logger, e.levels);
    RegisterGroups(r, 0, e);
  }

  /** Four calls after which the cache hides a registered logger. */
  function HidingRun(n: nat, a: Logger, b: Logger, c: Logger): seq<Call> {
    [Add(a, seq(n, _ => 1)), Add(b, seq(n, _ => 2)), Add(c, seq(n, _ => 0)), Remove(c)]
  }

  lemma {:induction false} DropAppended(list: seq<LogEntry>, e: LogEntry)
    requires e !in list
    ensures Drop(list + [e], e) == list
  {
    if list == [] {
      assert (list + [e])[1..] == [];
    } else {
      assert (list + [e])[1..] == list[1..] + [e];
      DropAppended(list[1..], e);
    }
  }

  /** Removing the last of three loggers takes the maximum from the head's absent callback. */
  lemma RemoveLast(r: Registry, ea: LogEntry, eb: LogEntry, ec: LogEntry, cb: Callback)
    requires r.Sized() && r.N() > 0 && r.all == [ea, eb, ec] && r.groups[0] == [eb, ea, ec]
    requires ea.logger != ec.logger && eb.logger != ec.logger
    requires ec.Level(0) > LEVEL_SILENT && !Implements(eb.logger, cb)
    ensures var r' := RemoveLogger(r, ec.logger);
      && r'.Sized() && r'.N() == r.N()
      && r'.all == [ea, eb] && r'.groups[0] == [eb, ea]
      && r'.Max(cb)[0] == LEVEL_SILENT
  {
    assert r.all[1..] == [eb, ec] && r.all[1..][1..] == [ec];
    assert r.all[0] == ea && r.all[1] == eb && r.all[2] == ec;
    assert IndexOf(r.all, ec.logger) == 2;
    var mid := r.(all := r.all[..2] + r.all[3..]);
    assert [eb, ea] + [ec] == [eb, ea, ec];
    DropAppended([eb, ea], ec);
    var next := Refresh(mid, 0, ec, LEVEL_SILENT, LEVEL_SILENT);
    UnregisterGroups(mid, 0, ec, LEVEL_SILENT, LEVEL_SILENT);
    UnregisterLeavesEarlierMaxima(next, 1, ec, next.maxLevel[0], next.maxVlevel[0]);
  }

  /**
    If b does not implement the callback, it hides a: once c is removed, the
    maximum is taken from b's position at the head, and a, which does implement
    the callback and admits level 1, is no longer bounded.
   */
  lemma HidingRunHides(n: nat, a: Logger, b: Logger, c: Logger, cb: Callback)
    requires n > 0 && a != b && b != c && a != c && Implements(a, cb) && !Implements(b, cb)
    ensures Inv(Empty(n))
    ensures var r := Run(Empty(n), HidingRun(n, a, b, c));
      && r.Sized() && r.N() == n
      && r.Max(cb)[0] == LEVEL_SILENT
      && Reaches(r, cb, 0, 1, a)
      && !Bounded(r, cb)
  {
    EmptyInv(n);
    var ea, eb, ec := LogEntry(a, seq(n, _ => 1)), LogEntry(b, seq(n, _ => 2)), LogEntry(c, seq(n, _ => 0));
    var calls := HidingRun(n, a, b, c);
    AddThree(Empty(n), ea, eb, ec);
    RunSplits(Empty(n), calls[..3], [calls[3]]);
    assert calls == calls[..3] + [calls[3]] && calls[..3] == [Add(a, ea.levels), Add(b, eb.levels), Add(c, ec.levels)];
    var r3 := Run(Empty(n), calls[..3]);
    RemoveLast(r3, ea, eb, ec, cb);
    StepKeepsInv(r3, calls[3]);
    var r := RemoveLogger(r3, c);
    assert Run(r3, [calls[3]]) == Run(r, []) == r;
    assert ea in r.groups[0] && ea in r.all;
  }

  lemma {:induction false} RunSplits(r: Registry, calls: seq<Call>, more: seq<Call>)
    requires Inv(r)
    ensures Inv(Run(r, calls)) && Run(r, calls + more) == Run(Run(r, calls), more)
    decreases |calls|
  {
    RunKeepsInv(r, calls);
    if calls == [] {
      assert calls + more == more;
    } else {
      StepKeepsInv(r, calls[0]);
      assert (calls + more)[1..] == calls[1..] + more;
      RunSplits(Step(r, calls[0]), calls[1..], more);
    }
  }

  /** Three loggers added in turn, the second at the highest level and the third at the lowest. */
  lemma AddThree(r: Registry, ea: LogEntry, eb: LogEntry, ec: LogEntry)
    requires Inv(r) && r.N() > 0 && r.all == [] && r.groups[0] == []
    requires ea.logger != eb.logger && eb.logger != ec.logger && ea.logger != ec.logger
    requires eb.Level(0) > ea.Level(0) > ec.Level(0) > LEVEL_SILENT
    ensures var calls := [Add(ea.logger, ea.levels), Add(eb.logger, eb.levels), Add(ec.logger, ec.levels)];
      var r' := Run(r, calls);
      && Inv(r') && r'.N() == r.N()
      && r'.all == [ea, eb, ec] && r'.groups[0] == [eb, ea, ec]
  {
    var calls := [Add(ea.logger, ea.levels), Add(eb.logger, eb.levels), Add(ec.logger, ec.levels)];
    AddNew(r, ea);
    var r1 := Step(r, calls[0]);
    AddNew(r1, eb);
    var r2 := Step(r1, calls[1]);
    assert r1.groups[0] == [ea] && Insert([ea], 0, eb) == [eb, ea] == r2.groups[0];
    AddNew(r2, ec);
    var r3 := Step(r2, calls[2]);
    assert Insert([ea], 0, ec) == [ea, ec] && [eb, ea][1..] == [ea];
    assert Insert([eb, ea], 0, ec) == [eb, ea, ec] == r3.groups[0];
    assert calls[2..] == [calls[2]] && calls[1..] == [calls[1]] + calls[2..];
    assert Run(r3, []) == r3 && calls[2..][1..] == [];
    assert Run(r2, calls[2..]) == r3 && calls[1..][1..] == calls[2..];
    assert Run(r1, calls[1..]) == r3;
  }

  // ---------- the exact condition ----------

  /** The calls made to a callback for a message with a non-empty text. */
  function Called(r: Registry, cb: Callback, g: nat, level: int, early: bool): seq<Logger>
    requires r.Sized() && g < r.N()
  {
    if cb == LOG then Deliver(r, g, level, 1, early).0 else Deliver(r, g, level, 1, early).1
  }

  /** Every message reaches exactly the loggers a plain scan finds. */
  ghost predicate Exact(r: Registry, cb: Callback)
    requires r.Sized()
  {
    forall g, level, early, l :: 0 <= g < r.N() ==>
      (l in Called(r, cb, g, level, early) <==> Reaches(r, cb, g, level, l))
  }

  /** The fast path is exact precisely when the cached maxima bound the lists. */
  lemma ExactIffBounded(r: Registry, cb: Callback)
    requires Inv(r)
    ensures Exact(r, cb) <==> Bounded(r, cb)
  {
    forall g, level | 0 <= g < r.N() {
      ScanOfGroup(r, cb, g, level);
    }
    if Bounded(r, cb) {
      forall g, level, l | 0 <= g < r.N() && r.Max(cb)[g] < level {
        NothingAboveMax(r, cb, g, level, l);
      }
    }
    if Exact(r, cb) {
      forall g, x | 0 <= g < r.N() && x in r.groups[g] && Implements(x.logger, cb)
        ensures x.Level(g) <= r.Max(cb)[g]
      {
        assert GroupOk(r, g);
        assert Reaches(r, cb, g, x.Level(g), x.logger);
        assert x.logger in Called(r, cb, g, x.Level(g), false);
      }
    }
  }

  /**
    For a set of loggers that may come and go in any order with any levels, the
    fast path of vlog equals the plain scan after every run exactly if all of
    them implement the callback, or none does, or there are at most two.
   */
  lemma FastPathExactIff(n: nat, loggers: set<Logger>, cb: Callback)
    requires n > 0
    ensures Inv(Empty(n))
    ensures (forall calls :: Over(calls, loggers) ==> Inv(Run(Empty(n), calls)) && Exact(Run(Empty(n), calls), cb))
            <==> Uniform(loggers, cb) || |loggers| <= 2
  {
    EmptyInv(n);
    if Uniform(loggers, cb) || |loggers| <= 2 {
      forall calls | Over(calls, loggers)
        ensures Inv(Run(Empty(n), calls)) && Exact(Run(Empty(n), calls), cb)
      {
        RunKeepsInv(Empty(n), calls);
        RunKeepsBounds(Empty(n), calls, loggers, cb);
        ExactIffBounded(Run(Empty(n), calls), cb);
      }
    } else {
      var a :| a in loggers && Implements(a, cb);
      var b :| b in loggers && !Implements(b, cb);
      if loggers <= {a, b} {
        SubsetSize(loggers, {a, b});
      }
      var c :| c in loggers && c != a && c != b;
      var calls := HidingRun(n, a, b, c);
      assert Over(calls, loggers);
      HidingRunHides(n, a, b, c, cb);
      RunKeepsInv(Empty(n), calls);
      ExactIffBounded(Run(Empty(n), calls), cb);
    }
  }
}
