/**
  What a dispatch of the event bus does (bus.c), stated over the listener list
  as it is when the dispatch starts: the reference for the loop over a list
  that callbacks change.
 */
module EventCalls {
  import opened Sequences
  import opened Wrappers
  import opened EventTrace

  /** ALERT_AUTHORIZATION_FAILED */
  const AUTHORIZATION_FAILED: nat := 23

  /**
    What listeners do. Everything may depend on all that has happened so far: how
    many events a callback raises, each of these events, whether the listener
    wants to be kept, and whether it agrees to an authorization.
   */
  datatype Behaviour = Behaviour(
    implements: (nat, Event) -> bool,
    count: (nat, Event, seq<Step>) -> nat,
    event: (nat, Event, nat, seq<Step>) -> Event,
    keep: (nat, Event, seq<Step>) -> bool,
    agree: (nat, Event, seq<Step>) -> bool)

  /** An entry of the listener list; `id` tells entries apart, as their addresses do. */
  datatype Entry = Entry(id: nat, listener: nat)

  function Ids(entries: seq<Entry>): set<nat> {
    set e | e in entries :: e.id
  }

  /** The entries whose ids are in the given set. */
  function Keep(entries: seq<Entry>, ids: set<nat>): seq<Entry> {
    if entries == [] then []
    else (if entries[0].id in ids then [entries[0]] else []) + Keep(entries[1..], ids)
  }

  lemma {:induction false} KeepMembers(entries: seq<Entry>, ids: set<nat>)
    ensures forall e :: e in Keep(entries, ids) <==> e in entries && e.id in ids
    ensures |Keep(entries, ids)| <= |entries|
  {
    if entries != [] {
      KeepMembers(entries[1..], ids);
    }
  }

  lemma {:induction false} KeepConcat(a: seq<Entry>, b: seq<Entry>, ids: set<nat>)
    ensures Keep(a + b, ids) == Keep(a, ids) + Keep(b, ids)
  {
    if a == [] {
      assert a + b == b;
    } else {
      assert (a + b)[1..] == a[1..] + b;
      KeepConcat(a[1..], b, ids);
    }
  }

  lemma {:induction false} KeepTwice(entries: seq<Entry>, ids: set<nat>, ids': set<nat>)
    requires ids' <= ids
    ensures Keep(Keep(entries, ids), ids') == Keep(entries, ids')
  {
    if entries != [] {
      KeepTwice(entries[1..], ids, ids');
      KeepConcat(if entries[0].id in ids then [entries[0]] else [], Keep(entries[1..], ids), ids');
    }
  }

  lemma {:induction false} KeepAll(entries: seq<Entry>, ids: set<nat>)
    requires forall e :: e in entries ==> e.id in ids
    ensures Keep(entries, ids) == entries
  {
    if entries != [] {
      KeepAll(entries[1..], ids);
    }
  }

  predicate Apart(entries: seq<Entry>, i: nat, j: nat)
    requires i < j < |entries|
  {
    entries[i].id != entries[j].id
  }

  ghost predicate DistinctIds(entries: seq<Entry>) {
    forall i: nat, j: nat {:trigger Apart(entries, i, j)} :: i < j < |entries| ==> Apart(entries, i, j)
  }

  /**
    From one moment to a later one at the same nesting level: entries may be gone
    but keep their order, and the callbacks made in between respect the guard.
   */
  ghost predicate Follows(start: seq<Entry>, s: PlayState, end: seq<Entry>, s': PlayState, steps: seq<Step>) {
    && s'.stack == s.stack
    && Ids(end) <= Ids(start)
    && end == Keep(start, Ids(end))
    && Play(s, steps) == Some(s')
  }

  lemma FollowsItself(start: seq<Entry>, s: PlayState)
    ensures Follows(start, s, start, s, [])
  {
    KeepAll(start, Ids(start));
  }

  lemma FollowsOn(a: seq<Entry>, s: PlayState, b: seq<Entry>, t: PlayState, c: seq<Entry>, u: PlayState,
                  x: seq<Step>, y: seq<Step>)
    requires Follows(a, s, b, t, x) && Follows(b, t, c, u, y)
    ensures Follows(a, s, c, u, x + y)
  {
    KeepTwice(a, Ids(b), Ids(c));
    PlaySplits(s, x, y);
  }

  /** A callback with everything that happens within it. */
  lemma CallPlays(s: PlayState, ev: Event, c: Call, live: set<nat>)
    requires c.entry.id in s.live && c.entry.id !in s.stack
    requires Play(Within(s, c.entry), InnerSteps(c.raises)) == Some(PlayState(s.stack + [c.entry.id], live))
    ensures Play(s, CallSteps(ev, c)) == Some(PlayState(s.stack, if c.keep then live else live - {c.entry.id}))
  {
    var id, inner, exit := c.entry.id, InnerSteps(c.raises), [Exit(c.entry.id, c.keep, c.agree)];
    assert CallSteps(ev, c) == [Enter(id, ev)] + (inner + exit);
    assert ([Enter(id, ev)] + (inner + exit))[1..] == inner + exit;
    PlaySplits(Within(s, c.entry), inner, exit);
    assert (s.stack + [id])[..|s.stack|] == s.stack && exit[1..] == [];
  }

  lemma CallFollows(pre: seq<Entry>, post: seq<Entry>, s: PlayState, ev: Event, c: Call, live: set<nat>)
    requires DistinctIds(pre + [c.entry] + post) && s.live == Ids(pre + [c.entry] + post)
    requires c.entry.id in live && live <= s.live && c.entry.id !in s.stack
    requires Play(Within(s, c.entry), InnerSteps(c.raises)) == Some(PlayState(s.stack + [c.entry.id], live))
    ensures var live' := if c.keep then live else live - {c.entry.id};
      Follows(pre + [c.entry] + post, s, Keep(pre + [c.entry], live') + Keep(post, live'), PlayState(s.stack, live'),
              CallSteps(ev, c))
  {
    var live' := if c.keep then live else live - {c.entry.id};
    AfterCall(pre, c.entry, post, live, c.keep);
    KeepIds(pre + [c.entry] + post, live');
    CallPlays(s, ev, c, live);
  }

  lemma Around(pre: seq<Entry>, e: Entry, post: seq<Entry>)
    requires DistinctIds(pre + [e] + post)
    ensures e in pre + [e] + post
    ensures forall i :: 0 <= i < |pre + [e] + post| && (pre + [e] + post)[i] == e ==> i == |pre|
    ensures (pre + [e] + post)[..|pre|] == pre && (pre + [e] + post)[|pre| + 1..] == post
  {
    var all := pre + [e] + post;
    assert all[|pre|] == e;
    forall i: nat | i < |pre| ensures all[i] != e {
      assert Apart(all, i, |pre|);
    }
    forall i: nat | |pre| < i < |all| ensures all[i] != e {
      assert Apart(all, |pre|, i);
    }
  }

  lemma GrownByCall(t: seq<Step>, enter: Step, inner: seq<Step>, exit: Step)
    ensures t + [enter] + inner + [exit] == t + ([enter] + inner + [exit])
  {
  }

  lemma FreeShrinks(s: PlayState, s': PlayState)
    requires s'.stack == s.stack && s'.live <= s.live
    ensures var free, free' := s.live - Elems(s.stack), s'.live - Elems(s'.stack);
      free' < free || free' == free
  {
  }

  lemma FreeDrops(s: PlayState, id: nat)
    requires id in s.live && id !in s.stack
    ensures s.live - Elems(s.stack + [id]) < s.live - Elems(s.stack)
  {
    assert id in Elems(s.stack + [id]);
  }

  lemma AppendedApart(entries: seq<Entry>, e: Entry)
    requires DistinctIds(entries) && e.id !in Ids(entries)
    ensures DistinctIds(entries + [e]) && Ids(entries + [e]) == Ids(entries) + {e.id}
  {
    var all := entries + [e];
    assert forall x :: x in all <==> x in entries || x == e;
    forall i: nat, j: nat | i < j < |all|
      ensures Apart(all, i, j)
    {
      assert all[i] in entries && (j < |entries| ==> Apart(entries, i, j));
    }
  }

  lemma IdsWithout(entries: seq<Entry>, i: nat)
    requires i < |entries| && DistinctIds(entries)
    ensures var rest := entries[..i] + entries[i + 1..];
      DistinctIds(rest) && Ids(rest) == Ids(entries) - {entries[i].id}
  {
    var rest := entries[..i] + entries[i + 1..];
    assert forall k :: 0 <= k < |rest| ==> rest[k] == entries[if k < i then k else k + 1];
    forall k: nat, l: nat | k < l < |rest|
      ensures Apart(rest, k, l)
    {
      assert Apart(entries, if k < i then k else k + 1, if l < i then l else l + 1);
    }
    forall k: nat | k < |rest|
      ensures rest[k].id != entries[i].id
    {
      assert if k < i then Apart(entries, k, i) else Apart(entries, i, k + 1);
    }
    forall e | e in entries && e.id != entries[i].id
      ensures e in rest
    {
      var k :| 0 <= k < |entries| && entries[k] == e;
      assert if k < i then rest[k] == e else rest[k - 1] == e;
    }
  }

  /** After a callback the enumerator goes on behind the entry called, which may be dropped. */
  lemma AfterCall(pre: seq<Entry>, e: Entry, post: seq<Entry>, live: set<nat>, keep: bool)
    requires DistinctIds(pre + [e] + post) && e.id in live
    ensures Keep(pre + [e] + post, live) == Keep(pre, live) + [e] + Keep(post, live)
    ensures var live' := if keep then live else live - {e.id};
      && Keep(pre + [e], live') == Keep(pre, live) + (if keep then [e] else [])
      && Keep(post, live') == Keep(post, live)
      && Keep(pre + [e] + post, live') == Keep(pre + [e], live') + Keep(post, live')
  {
    var live', all := if keep then live else live - {e.id}, pre + [e] + post;
    assert all[|pre|] == e;
    forall x | x in pre || x in post ensures x.id != e.id {
      if x in pre {
        var k :| 0 <= k < |pre| && pre[k] == x;
        assert all[k] == x && Apart(all, k, |pre|);
      } else {
        var k :| 0 <= k < |post| && post[k] == x;
        assert all[|pre| + 1 + k] == x && Apart(all, |pre|, |pre| + 1 + k);
      }
    }
    KeepSame(pre, live, live');
    KeepSame(post, live, live');
    KeepConcat(pre, [e], live);
    KeepConcat(pre, [e], live');
    KeepConcat(pre + [e], post, live);
    KeepConcat(pre + [e], post, live');
  }

  lemma {:induction false} KeepIds(entries: seq<Entry>, ids: set<nat>)
    requires ids <= Ids(entries)
    ensures Ids(Keep(entries, ids)) == ids
  {
    KeepMembers(entries, ids);
    var kept := Keep(entries, ids);
    forall id | id in ids
      ensures id in Ids(kept)
    {
      assert id in Ids(entries);
      var e :| e in entries && e.id == id;
      assert e in kept;
    }
    forall id | id in Ids(kept)
      ensures id in ids
    {
      var e :| e in kept && e.id == id;
    }
  }

  /** The next entry to visit, in terms of the list at the start: what is kept splits behind it. */
  lemma {:induction false} NextKept(entries: seq<Entry>, ids: set<nat>) returns (skipped: seq<Entry>, rest: seq<Entry>)
    requires Keep(entries, ids) != []
    ensures entries == skipped + [Keep(entries, ids)[0]] + rest
    ensures Keep(skipped, ids) == [] && Keep(rest, ids) == Keep(entries, ids)[1..]
  {
    if entries[0].id in ids {
      skipped, rest := [], entries[1..];
    } else {
      skipped, rest := NextKept(entries[1..], ids);
      skipped := [entries[0]] + skipped;
      assert skipped[1..] == skipped[1..] && Keep(skipped[1..], ids) == [];
    }
  }

  lemma {:induction false} KeepSame(entries: seq<Entry>, ids: set<nat>, ids': set<nat>)
    requires forall e :: e in entries ==> (e.id in ids <==> e.id in ids')
    ensures Keep(entries, ids) == Keep(entries, ids')
  {
    if entries != [] {
      KeepSame(entries[1..], ids, ids');
    }
  }

  lemma DistinctParts(a: seq<Entry>, b: seq<Entry>)
    requires DistinctIds(a + b)
    ensures DistinctIds(b) && forall x, y :: x in a && y in b ==> x.id != y.id
  {
    assert forall k :: 0 <= k < |b| ==> (a + b)[|a| + k] == b[k];
    forall k: nat, l: nat | k < l < |b|
      ensures Apart(b, k, l)
    {
      assert Apart(a + b, |a| + k, |a| + l);
    }
    forall x, y | x in a && y in b ensures x.id != y.id {
      var k :| 0 <= k < |a| && a[k] == x;
      var l :| 0 <= l < |b| && b[l] == y;
      assert (a + b)[k] == x && (a + b)[|a| + l] == y && Apart(a + b, k, |a| + l);
    }
  }

  lemma {:induction false} KeepNone(entries: seq<Entry>)
    ensures Keep(entries, {}) == []
  {
    if entries != [] {
      KeepNone(entries[1..]);
    }
  }

  /** A callback made by a dispatch: the events raised within it, and how it returns. */
  datatype Call = Call(entry: Entry, raises: seq<Raised>, keep: bool, agree: bool)

  /** A raised event: the callbacks it leads to, and those of the alert if it is refused. */
  datatype Raised = Raised(event: Event, calls: seq<Call>, alerts: seq<Call>)

  function CallSteps(ev: Event, c: Call): seq<Step>
    decreases c
  {
    [Enter(c.entry.id, ev)] + InnerSteps(c.raises) + [Exit(c.entry.id, c.keep, c.agree)]
  }

  function InnerSteps(raises: seq<Raised>): seq<Step>
    decreases raises
  {
    if raises == [] then [] else InnerSteps(raises[..|raises| - 1]) + RaiseSteps(raises[|raises| - 1])
  }

  function RaiseSteps(r: Raised): seq<Step>
    decreases r
  {
    StepsOf(r.event, r.calls) + StepsOf(Alert(AUTHORIZATION_FAILED), r.alerts)
  }

  function StepsOf(ev: Event, calls: seq<Call>): seq<Step>
    decreases calls
  {
    if calls == [] then [] else CallSteps(ev, calls[0]) + StepsOf(ev, calls[1..])
  }

  function Called(calls: seq<Call>): seq<Entry> {
    if calls == [] then [] else [calls[0].entry] + Called(calls[1..])
  }

  /** The entries and returns of the calls alone. */
  function Outline(ev: Event, calls: seq<Call>): seq<Step> {
    if calls == [] then []
    else
      var c := calls[0];
      [Enter(c.entry.id, ev), Exit(c.entry.id, c.keep, c.agree)] + Outline(ev, calls[1..])
  }

  predicate Refuses(ev: Event, c: Call) {
    ev.Authorize? && !c.agree
  }

  /** Whether an authorization is refused by a listener. */
  predicate Refused(ev: Event, calls: seq<Call>) {
    exists c :: c in calls && Refuses(ev, c)
  }

  predicate Eligible(b: Behaviour, ev: Event, e: Entry, s: PlayState) {
    e.id in s.live && e.id !in s.stack && b.implements(e.listener, ev)
  }

  /** The state within the callback of an entry. */
  function Within(s: PlayState, e: Entry): PlayState {
    s.(stack := s.stack + [e.id])
  }

  /**
    A dispatch after `past`, of the entries `rest` of the list: call each one that
    is registered, not being called and implements the event at the moment its
    turn comes, and stop at the first refusal of an authorization.
   */
  ghost predicate Dispatched(b: Behaviour, ev: Event, past: seq<Step>, list: seq<Entry>, rest: seq<Entry>,
                             s: PlayState, calls: seq<Call>)
    decreases calls, |rest|
  {
    if rest == [] then calls == []
    else if !Eligible(b, ev, rest[0], s) then Dispatched(b, ev, past, list, rest[1..], s, calls)
    else
      && calls != [] && calls[0].entry == rest[0] && Answered(b, ev, past, Keep(list, s.live), s, calls[0])
      && var steps := CallSteps(ev, calls[0]);
         && Play(s, steps).Some?
         && if Refuses(ev, calls[0]) then |calls| == 1
            else Dispatched(b, ev, past + steps, list, rest[1..], Play(s, steps).value, calls[1..])
  }

  /** A complete callback: it raises its events and returns what its listener wants after all that has happened. */
  ghost predicate Answered(b: Behaviour, ev: Event, past: seq<Step>, list: seq<Entry>, s: PlayState, c: Call)
    decreases c
  {
    var listener, entered := c.entry.listener, past + [Enter(c.entry.id, ev)];
    && |c.raises| == b.count(listener, ev, entered)
    && Raises(b, ev, listener, entered, list, Within(s, c.entry), c.raises)
    && c.keep == b.keep(listener, ev, entered + InnerSteps(c.raises))
    && c.agree == b.agree(listener, ev, entered + InnerSteps(c.raises))
  }

  /** A callback of the listener raises these events, each with all its consequences. */
  ghost predicate Raises(b: Behaviour, ev: Event, listener: nat, past: seq<Step>, list: seq<Entry>, s: PlayState,
                         raises: seq<Raised>)
    decreases raises
  {
    raises == []
    || var prev, r := raises[..|raises| - 1], raises[|raises| - 1];
       && Raises(b, ev, listener, past, list, s, prev)
       && Play(s, InnerSteps(prev)).Some?
       && var t, now := Play(s, InnerSteps(prev)).value, past + InnerSteps(prev);
          r.event == b.event(listener, ev, |prev|, now) && IsRaised(b, now, Keep(list, t.live), t, r)
  }

  /** An event is dispatched to the list, and the alert to what is left of it exactly if the event is refused. */
  ghost predicate IsRaised(b: Behaviour, past: seq<Step>, list: seq<Entry>, s: PlayState, r: Raised)
    decreases r
  {
    && Dispatched(b, r.event, past, list, list, s, r.calls)
    && Play(s, StepsOf(r.event, r.calls)).Some?
    && if !Refused(r.event, r.calls) then r.alerts == []
       else
         var t, now := Play(s, StepsOf(r.event, r.calls)).value, past + StepsOf(r.event, r.calls);
         Dispatched(b, Alert(AUTHORIZATION_FAILED), now, Keep(list, t.live), Keep(list, t.live), t, r.alerts)
  }

  /** All that follows from raising an event is determined by the listeners. */
  lemma {:induction false} RaiseDetermined(b: Behaviour, past: seq<Step>, list: seq<Entry>, s: PlayState, r: Raised,
                                           r': Raised)
    requires IsRaised(b, past, list, s, r) && IsRaised(b, past, list, s, r') && r.event == r'.event
    ensures r == r'
    decreases r
  {
    DispatchDetermined(b, r.event, past, list, list, s, r.calls, r'.calls);
    if Refused(r.event, r.calls) {
      var t, now := Play(s, StepsOf(r.event, r.calls)).value, past + StepsOf(r.event, r.calls);
      var left := Keep(list, t.live);
      DispatchDetermined(b, Alert(AUTHORIZATION_FAILED), now, left, left, t, r.alerts, r'.alerts);
    }
  }

  lemma {:induction false} DispatchDetermined(b: Behaviour, ev: Event, past: seq<Step>, list: seq<Entry>,
                                              rest: seq<Entry>, s: PlayState, calls: seq<Call>, calls': seq<Call>)
    requires Dispatched(b, ev, past, list, rest, s, calls) && Dispatched(b, ev, past, list, rest, s, calls')
    ensures calls == calls'
    decreases calls, |rest|
  {
    if rest != [] {
      if !Eligible(b, ev, rest[0], s) {
        DispatchDetermined(b, ev, past, list, rest[1..], s, calls, calls');
      } else {
        AnswerDetermined(b, ev, past, Keep(list, s.live), s, calls[0], calls'[0]);
        var steps := CallSteps(ev, calls[0]);
        if !Refuses(ev, calls[0]) {
          DispatchDetermined(b, ev, past + steps, list, rest[1..], Play(s, steps).value, calls[1..], calls'[1..]);
        }
        assert calls == [calls[0]] + calls[1..] && calls' == [calls'[0]] + calls'[1..];
      }
    }
  }

  lemma {:induction false} AnswerDetermined(b: Behaviour, ev: Event, past: seq<Step>, list: seq<Entry>, s: PlayState,
                                            c: Call, c': Call)
    requires Answered(b, ev, past, list, s, c) && Answered(b, ev, past, list, s, c') && c.entry == c'.entry
    ensures c == c'
    decreases c
  {
    RaisesDetermined(b, ev, c.entry.listener, past + [Enter(c.entry.id, ev)], list, Within(s, c.entry),
                     c.raises, c'.raises);
  }

  lemma {:induction false} RaisesDetermined(b: Behaviour, ev: Event, listener: nat, past: seq<Step>, list: seq<Entry>,
                                            s: PlayState, raises: seq<Raised>, raises': seq<Raised>)
    requires Raises(b, ev, listener, past, list, s, raises) && Raises(b, ev, listener, past, list, s, raises')
    requires |raises| == |raises'|
    ensures raises == raises'
    decreases raises
  {
    if raises != [] {
      var prev, r, r' := raises[..|raises| - 1], raises[|raises| - 1], raises'[|raises| - 1];
      RaisesDetermined(b, ev, listener, past, list, s, prev, raises'[..|raises| - 1]);
      var t := Play(s, InnerSteps(prev)).value;
      RaiseDetermined(b, past + InnerSteps(prev), Keep(list, t.live), t, r, r');
      assert raises == prev + [r] && raises' == prev + [r'];
    }
  }

  /** The calls of a dispatch are the callbacks at its nesting level; all else happens within them. */
  lemma {:induction false} CallsAreTopLevel(ev: Event, calls: seq<Call>)
    ensures Depth(StepsOf(ev, calls), 0) == Some(0) && TopLevel(StepsOf(ev, calls), 0) == Outline(ev, calls)
    decreases calls
  {
    if calls != [] {
      CallIsTopLevel(ev, calls[0]);
      LevelsConcat(CallSteps(ev, calls[0]), StepsOf(ev, calls[1..]), 0);
      CallsAreTopLevel(ev, calls[1..]);
    }
  }

  lemma {:induction false} CallIsTopLevel(ev: Event, c: Call)
    ensures Depth(CallSteps(ev, c), 0) == Some(0)
    ensures TopLevel(CallSteps(ev, c), 0) == [Enter(c.entry.id, ev), Exit(c.entry.id, c.keep, c.agree)]
    decreases c
  {
    var enter, inner, exit := [Enter(c.entry.id, ev)], InnerSteps(c.raises), [Exit(c.entry.id, c.keep, c.agree)];
    InnerIsComplete(c.raises);
    Deeper(inner, 0);
    assert enter[1..] == [] && exit[1..] == [];
    LevelsConcat(inner, exit, 1);
    Associative(enter, inner, exit);
    LevelsConcat(enter, inner + exit, 0);
  }

  lemma {:induction false} InnerIsComplete(raises: seq<Raised>)
    ensures Depth(InnerSteps(raises), 0) == Some(0)
    decreases raises
  {
    if raises != [] {
      var prev, r := raises[..|raises| - 1], raises[|raises| - 1];
      InnerIsComplete(prev);
      LevelsConcat(InnerSteps(prev), RaiseSteps(r), 0);
      CallsAreTopLevel(r.event, r.calls);
      CallsAreTopLevel(Alert(AUTHORIZATION_FAILED), r.alerts);
      LevelsConcat(StepsOf(r.event, r.calls), StepsOf(Alert(AUTHORIZATION_FAILED), r.alerts), 0);
    }
  }

  lemma {:induction false} StepsConcat(ev: Event, calls: seq<Call>, more: seq<Call>)
    ensures StepsOf(ev, calls + more) == StepsOf(ev, calls) + StepsOf(ev, more)
  {
    if calls == [] {
      assert calls + more == more;
    } else {
      assert (calls + more)[1..] == calls[1..] + more;
      StepsConcat(ev, calls[1..], more);
      Associative(CallSteps(ev, calls[0]), StepsOf(ev, calls[1..]), StepsOf(ev, more));
    }
  }

  lemma OneCall(ev: Event, c: Call)
    ensures StepsOf(ev, [c]) == CallSteps(ev, c)
  {
    assert [c][1..] == [];
  }

  /** A dispatch that was not refused goes on with later entries. */
  lemma {:induction false} DispatchedOn(b: Behaviour, ev: Event, past: seq<Step>, list: seq<Entry>,
                                        entries: seq<Entry>, s: PlayState, calls: seq<Call>, later: seq<Entry>,
                                        more: seq<Call>)
    requires Dispatched(b, ev, past, list, entries, s, calls) && !Refused(ev, calls)
    requires Play(s, StepsOf(ev, calls)).Some?
    requires Dispatched(b, ev, past + StepsOf(ev, calls), list, later, Play(s, StepsOf(ev, calls)).value, more)
    ensures Dispatched(b, ev, past, list, entries + later, s, calls + more)
    decreases |entries|
  {
    if entries == [] {
      assert entries + later == later && calls + more == more && past + [] == past;
    } else {
      assert (entries + later)[1..] == entries[1..] + later;
      if !Eligible(b, ev, entries[0], s) {
        DispatchedOn(b, ev, past, list, entries[1..], s, calls, later, more);
      } else {
        var steps, rest := CallSteps(ev, calls[0]), StepsOf(ev, calls[1..]);
        PlaySplits(s, steps, rest);
        Associative(past, steps, rest);
        assert calls[0] in calls && !Refuses(ev, calls[0]);
        assert !Refused(ev, calls[1..]);
        DispatchedOn(b, ev, past + steps, list, entries[1..], Play(s, steps).value, calls[1..], later, more);
        assert (calls + more)[1..] == calls[1..] + more;
      }
    }
  }

  /** Entries that are not registered any more are passed over. */
  lemma {:induction false} DispatchedNone(b: Behaviour, ev: Event, past: seq<Step>, list: seq<Entry>,
                                          entries: seq<Entry>, s: PlayState)
    requires Keep(entries, s.live) == []
    ensures Dispatched(b, ev, past, list, entries, s, [])
  {
    if entries != [] {
      DispatchedNone(b, ev, past, list, entries[1..], s);
    }
  }

  /** After a refusal no further entry matters. */
  lemma {:induction false} DispatchedRefused(b: Behaviour, ev: Event, past: seq<Step>, list: seq<Entry>,
                                             entries: seq<Entry>, s: PlayState, calls: seq<Call>, later: seq<Entry>)
    requires Dispatched(b, ev, past, list, entries, s, calls) && Refused(ev, calls)
    ensures Dispatched(b, ev, past, list, entries + later, s, calls)
    decreases |entries|
  {
    assert (entries + later)[1..] == entries[1..] + later;
    if !Eligible(b, ev, entries[0], s) {
      DispatchedRefused(b, ev, past, list, entries[1..], s, calls, later);
    } else if !Refuses(ev, calls[0]) {
      var steps := CallSteps(ev, calls[0]);
      var c :| c in calls && Refuses(ev, c);
      assert c in calls[1..];
      DispatchedRefused(b, ev, past + steps, list, entries[1..], Play(s, steps).value, calls[1..], later);
    }
  }

  lemma {:induction false} OutlineExits(ev: Event, calls: seq<Call>)
    ensures Refused(ev, calls) <==>
      ev.Authorize? && exists step :: step in Outline(ev, calls) && step.Exit? && !step.agree
  {
    if calls != [] {
      OutlineExits(ev, calls[1..]);
      var c := calls[0];
      var first := [Enter(c.entry.id, ev), Exit(c.entry.id, c.keep, c.agree)];
      assert first[1] in first;
      assert forall step :: step in Outline(ev, calls) <==> step in first || step in Outline(ev, calls[1..]);
      assert forall x :: x in calls <==> x == c || x in calls[1..];
      assert Refused(ev, calls) <==> Refuses(ev, c) || Refused(ev, calls[1..]);
      assert (exists step :: step in first && step.Exit? && !step.agree) <==> !c.agree;
    }
  }

  /** An authorization is refused exactly if one of the listeners called returns that it does not agree. */
  lemma RefusedIffAnswer(ev: Event, calls: seq<Call>)
    ensures Refused(ev, calls) <==>
      ev.Authorize? && exists step :: step in TopLevel(StepsOf(ev, calls), 0) && step.Exit? && !step.agree
  {
    CallsAreTopLevel(ev, calls);
    OutlineExits(ev, calls);
  }

  lemma {:induction false} OutlineEnters(ev: Event, calls: seq<Call>, step: Step)
    requires step.Enter?
    ensures step in Outline(ev, calls) <==> step.event == ev && exists e :: e in Called(calls) && e.id == step.id
  {
    if calls != [] {
      OutlineEnters(ev, calls[1..], step);
      var c := calls[0];
      var first := [Enter(c.entry.id, ev), Exit(c.entry.id, c.keep, c.agree)];
      assert first[0] in first;
      assert step in Outline(ev, calls) <==> step in first || step in Outline(ev, calls[1..]);
      assert forall e :: e in Called(calls) <==> e == c.entry || e in Called(calls[1..]);
    }
  }

  lemma RaiseTopLevel(r: Raised)
    ensures TopLevel(RaiseSteps(r), 0) ==
      Outline(r.event, r.calls) + Outline(Alert(AUTHORIZATION_FAILED), r.alerts)
  {
    CallsAreTopLevel(r.event, r.calls);
    CallsAreTopLevel(Alert(AUTHORIZATION_FAILED), r.alerts);
    LevelsConcat(StepsOf(r.event, r.calls), StepsOf(Alert(AUTHORIZATION_FAILED), r.alerts), 0);
  }

  /** After a refusal the alert reaches every entry that implements it, is not being called and is there in the end. */
  lemma RefusalAlerts(b: Behaviour, past: seq<Step>, list: seq<Entry>, s: PlayState, r: Raised, e: Entry)
    requires Sound(s) && IsRaised(b, past, list, s, r) && Play(s, RaiseSteps(r)).Some?
    requires r.event.Authorize? && exists c :: c in r.calls && !c.agree
    requires e in list && e.id in Play(s, RaiseSteps(r)).value.live && e.id !in s.stack
    requires b.implements(e.listener, Alert(23))
    ensures Enter(e.id, Alert(23)) in TopLevel(RaiseSteps(r), 0)
  {
    var alert, first := Alert(AUTHORIZATION_FAILED), StepsOf(r.event, r.calls);
    var c :| c in r.calls && !c.agree;
    assert Refuses(r.event, c);
    PlaySplits(s, first, StepsOf(alert, r.alerts));
    var t := Play(s, first).value;
    PlayKeepsSound(s, first);
    PlayKeepsSound(t, StepsOf(alert, r.alerts));
    CallsAreTopLevel(r.event, r.calls);
    PlayKeepsOuter(s, first, 0);
    CallsAreTopLevel(alert, r.alerts);
    PlayKeepsOuter(t, StepsOf(alert, r.alerts), 0);
    KeepMembers(list, t.live);
    var left := Keep(list, t.live);
    NoneLeftOut(b, alert, past + first, left, left, t, r.alerts, e);
    OutlineEnters(alert, r.alerts, Enter(e.id, alert));
    RaiseTopLevel(r);
  }

  /** Without a refusal only the event itself is dispatched. */
  lemma NoAlertWithoutRefusal(b: Behaviour, past: seq<Step>, list: seq<Entry>, s: PlayState, r: Raised, step: Step)
    requires IsRaised(b, past, list, s, r) && !(r.event.Authorize? && exists c :: c in r.calls && !c.agree)
    requires step in TopLevel(RaiseSteps(r), 0) && step.Enter?
    ensures step.event == r.event
  {
    assert !Refused(r.event, r.calls) by {
      assert forall c :: c in r.calls && Refuses(r.event, c) ==> r.event.Authorize? && !c.agree;
    }
    RaiseTopLevel(r);
    OutlineEnters(r.event, r.calls, step);
  }

  lemma StackRestored(ev: Event, s: PlayState, c: Call)
    requires Play(s, CallSteps(ev, c)).Some?
    ensures Play(s, CallSteps(ev, c)).value.stack == s.stack
  {
    CallIsTopLevel(ev, c);
    PlayKeepsOuter(s, CallSteps(ev, c), 0);
  }

  /** The listeners called are called in list order, each once, and only if they may be. */
  lemma {:induction false} CalledInOrder(b: Behaviour, ev: Event, past: seq<Step>, list: seq<Entry>,
                                         entries: seq<Entry>, s: PlayState, calls: seq<Call>)
    requires Dispatched(b, ev, past, list, entries, s, calls) && DistinctIds(entries)
    ensures Called(calls) == Keep(entries, Ids(Called(calls)))
    ensures forall e :: e in Called(calls) ==> e in entries && e.id !in s.stack && b.implements(e.listener, ev)
    decreases |entries|
  {
    if entries != [] {
      var rest := entries[1..];
      assert entries == [entries[0]] + rest;
      DistinctParts([entries[0]], rest);
      if !Eligible(b, ev, entries[0], s) {
        CalledInOrder(b, ev, past, list, rest, s, calls);
      } else if Refuses(ev, calls[0]) {
        assert calls[1..] == [] && Called(calls) == [entries[0]];
        KeepSame(rest, Ids(Called(calls)), {});
        KeepNone(rest);
      } else {
        var steps, later := CallSteps(ev, calls[0]), Called(calls[1..]);
        StackRestored(ev, s, calls[0]);
        CalledInOrder(b, ev, past + steps, list, rest, Play(s, steps).value, calls[1..]);
        assert forall x :: x in Called(calls) <==> x == entries[0] || x in later;
        KeepSame(rest, Ids(later), Ids(Called(calls)));
      }
    }
  }

  /** Only the last call can refuse. */
  lemma {:induction false} RefusedByLast(b: Behaviour, ev: Event, past: seq<Step>, list: seq<Entry>,
                                         entries: seq<Entry>, s: PlayState, calls: seq<Call>, i: nat)
    requires Dispatched(b, ev, past, list, entries, s, calls) && i < |calls|
    requires ev.Authorize? && !calls[i].agree
    ensures i == |calls| - 1
    decreases |entries|
  {
    if !Eligible(b, ev, entries[0], s) {
      RefusedByLast(b, ev, past, list, entries[1..], s, calls, i);
    } else if !Refuses(ev, calls[0]) {
      var steps := CallSteps(ev, calls[0]);
      RefusedByLast(b, ev, past + steps, list, entries[1..], Play(s, steps).value, calls[1..], i - 1);
    }
  }

  /** Without a refusal, no entry that may be called and is registered in the end is left out. */
  lemma {:induction false} NoneLeftOut(b: Behaviour, ev: Event, past: seq<Step>, list: seq<Entry>,
                                       entries: seq<Entry>, s: PlayState, calls: seq<Call>, e: Entry)
    requires Sound(s) && Dispatched(b, ev, past, list, entries, s, calls) && !Refused(ev, calls) && e in entries
    requires Play(s, StepsOf(ev, calls)).Some? && e.id in Play(s, StepsOf(ev, calls)).value.live
    requires e.id !in s.stack && b.implements(e.listener, ev)
    ensures e in Called(calls)
    decreases |entries|
  {
    if !Eligible(b, ev, entries[0], s) {
      CallsAreTopLevel(ev, calls);
      PlayKeepsOuter(s, StepsOf(ev, calls), 0);
      PlayKeepsSound(s, StepsOf(ev, calls));
      NoneLeftOut(b, ev, past, list, entries[1..], s, calls, e);
    } else if e != entries[0] {
      var steps := CallSteps(ev, calls[0]);
      assert calls[0] in calls && !Refuses(ev, calls[0]);
      assert !Refused(ev, calls[1..]);
      PlaySplits(s, steps, StepsOf(ev, calls[1..]));
      PlayKeepsSound(s, steps);
      StackRestored(ev, s, calls[0]);
      NoneLeftOut(b, ev, past + steps, list, entries[1..], Play(s, steps).value, calls[1..], e);
    }
  }

  /** One call is a dispatch to one entry. */
  lemma DispatchedOne(b: Behaviour, ev: Event, past: seq<Step>, list: seq<Entry>, s: PlayState, c: Call)
    requires Eligible(b, ev, c.entry, s) && Answered(b, ev, past, Keep(list, s.live), s, c)
    requires Play(s, CallSteps(ev, c)).Some?
    ensures Dispatched(b, ev, past, list, [c.entry], s, [c])
    ensures StepsOf(ev, [c]) == CallSteps(ev, c) && Refused(ev, [c]) == Refuses(ev, c)
  {
    var after := Play(s, CallSteps(ev, c)).value;
    assert [c.entry][1..] == [] && [c][1..] == [];
    assert Dispatched(b, ev, past + CallSteps(ev, c), list, [], after, []);
    OneCall(ev, c);
    assert c in [c];
  }

  /** At the turn of an entry, the list at the start may stand for the list as it is then. */
  lemma DispatchedInLonger(b: Behaviour, ev: Event, past: seq<Step>, list: seq<Entry>, e: Entry, s: PlayState,
                           made: seq<Call>)
    requires Dispatched(b, ev, past, Keep(list, s.live), [e], s, made)
    ensures Dispatched(b, ev, past, list, [e], s, made)
  {
    KeepTwice(list, s.live, s.live);
    assert [e][1..] == [];
    if Eligible(b, ev, e, s) {
      var steps := CallSteps(ev, made[0]);
      assert Refuses(ev, made[0]) || Dispatched(b, ev, past + steps, list, [], Play(s, steps).value, made[1..]);
    } else {
      assert Dispatched(b, ev, past, list, [], s, made);
    }
  }

  /** The dispatch goes on with the entry whose turn it is; those before it that are gone do not matter. */
  lemma DispatchedNext(b: Behaviour, ev: Event, past: seq<Step>, list: seq<Entry>, before: seq<Entry>, s: PlayState,
                       calls: seq<Call>, skipped: seq<Entry>, e: Entry, made: seq<Call>)
    requires Dispatched(b, ev, past, list, before, s, calls) && !Refused(ev, calls)
    requires Play(s, StepsOf(ev, calls)).Some?
    requires var t := Play(s, StepsOf(ev, calls)).value;
      Keep(skipped, t.live) == [] && Dispatched(b, ev, past + StepsOf(ev, calls), list, [e], t, made)
    ensures Dispatched(b, ev, past, list, before + skipped + [e], s, calls + made)
    ensures StepsOf(ev, calls + made) == StepsOf(ev, calls) + StepsOf(ev, made)
    ensures Refused(ev, calls + made) == Refused(ev, made)
  {
    DispatchedNone(b, ev, past + StepsOf(ev, calls), list, skipped, Play(s, StepsOf(ev, calls)).value);
    DispatchedOn(b, ev, past, list, before, s, calls, skipped, []);
    assert calls + [] == calls;
    DispatchedOn(b, ev, past, list, before + skipped, s, calls, [e], made);
    StepsConcat(ev, calls, made);
    assert forall x :: x in calls + made <==> x in calls || x in made;
  }

  /** What is left when the enumerator reaches the end is gone, and does not matter after a refusal. */
  lemma DispatchEnds(b: Behaviour, ev: Event, past: seq<Step>, list: seq<Entry>, before: seq<Entry>, s: PlayState,
                     calls: seq<Call>, after: seq<Entry>)
    requires Dispatched(b, ev, past, list, before, s, calls)
    requires Play(s, StepsOf(ev, calls)).Some?
    requires Refused(ev, calls) || Keep(after, Play(s, StepsOf(ev, calls)).value.live) == []
    ensures Dispatched(b, ev, past, list, before + after, s, calls)
  {
    if Refused(ev, calls) {
      DispatchedRefused(b, ev, past, list, before, s, calls, after);
    } else {
      DispatchedNone(b, ev, past + StepsOf(ev, calls), list, after, Play(s, StepsOf(ev, calls)).value);
      DispatchedOn(b, ev, past, list, before, s, calls, after, []);
      assert calls + [] == calls;
    }
  }

  /**
    The entry at the enumerator, in terms of the list at the start: that list splits
    behind it, into entries gone by now and the entries around it.
   */
  lemma NextEntry(before: seq<Entry>, after: seq<Entry>, visited: seq<Entry>, rest: seq<Entry>, ids: set<nat>)
    returns (skipped: seq<Entry>, after': seq<Entry>)
    requires visited == Keep(before, ids) && rest == Keep(after, ids) && rest != []
    ensures var before' := before + skipped + [rest[0]];
      && before + after == before' + after' && Keep(skipped, ids) == []
      && Keep(before', ids) == visited + [rest[0]] && Keep(after', ids) == rest[1..]
    ensures visited + rest == visited + [rest[0]] + rest[1..]
  {
    skipped, after' := NextKept(after, ids);
    KeepMembers(after, ids);
    assert rest[0] in rest;
    Associative(before, skipped + [rest[0]], after');
    Associative(before, skipped, [rest[0]]);
    Associative(visited, [rest[0]], rest[1..]);
    assert rest == [rest[0]] + rest[1..];
    KeepConcat(before + skipped, [rest[0]], ids);
    KeepConcat(before, skipped, ids);
  }

  /** The list around the enumerator after entries have been dropped. */
  lemma Shrunk(before: seq<Entry>, after: seq<Entry>, visited: seq<Entry>, rest: seq<Entry>, ids: set<nat>,
               ids': set<nat>)
    requires visited == Keep(before, ids) && rest == Keep(after, ids) && ids' <= ids
    ensures Keep(visited, ids') == Keep(before, ids') && Keep(rest, ids') == Keep(after, ids')
    ensures |Keep(rest, ids')| <= |rest|
  {
    KeepTwice(before, ids, ids');
    KeepTwice(after, ids, ids');
    KeepMembers(rest, ids');
  }
}
