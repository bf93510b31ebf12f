/**
  Recursive event dispatch to listeners (bus.c): callbacks may raise further
  events, which are dispatched before they return.
 */
module EventDispatch {
  import opened Sequences
  import opened Wrappers
  import opened EventTrace
  import opened EventCalls

  class EventBus {
    const behaviour: Behaviour
    var listeners: seq<Entry>
    /** The `calling` counter of each entry in the list. */
    var calling: map<nat, nat>
    /** All callbacks so far. */
    var trace: seq<Step>
    /** The entries being called, innermost last. */
    ghost var stack: seq<nat>

    ghost predicate Valid()
      reads this
    {
      && DistinctIds(listeners)
      && Sound(State())
      && calling.Keys == Ids(listeners)
      && (forall id :: id in calling ==> calling[id] == if id in stack then 1 else 0)
    }

    /** The entries not being called. */
    ghost function Free(): set<nat>
      reads this
    {
      Ids(listeners) - Elems(stack)
    }

    ghost function State(): PlayState
      reads this
    {
      PlayState(stack, Ids(listeners))
    }

    constructor (behaviour: Behaviour)
      ensures Valid() && listeners == [] && trace == [] && stack == []
    {
      this.behaviour := behaviour;
      listeners, calling, trace, stack := [], map[], [], [];
    }

    method AddListener(id: nat, listener: nat)
      requires Valid() && id !in Ids(listeners)
      modifies this
      ensures Valid() && trace == old(trace) && stack == old(stack)
      ensures listeners == old(listeners) + [Entry(id, listener)] && calling == old(calling)[id := 0]
    {
      AppendedApart(listeners, Entry(id, listener));
      listeners := listeners + [Entry(id, listener)];
      calling := calling[id := 0];
    }

    /** Remove the first entry of the listener, if there is one; no entry of it is being called. */
    method RemoveListener(listener: nat)
      requires Valid() && forall e :: e in listeners && e.listener == listener ==> e.id !in stack
      modifies this
      ensures Valid() && trace == old(trace) && stack == old(stack)
      ensures (forall e :: e in old(listeners) ==> e.listener != listener) ==> listeners == old(listeners)
      ensures (exists e :: e in old(listeners) && e.listener == listener) ==>
        exists i :: 0 <= i < |old(listeners)| && old(listeners)[i].listener == listener
                    && (forall k :: 0 <= k < i ==> old(listeners)[k].listener != listener)
                    && listeners == old(listeners)[..i] + old(listeners)[i + 1..]
    {
      for i := 0 to |listeners|
        invariant listeners == old(listeners) && Valid() && trace == old(trace) && stack == old(stack)
        invariant forall k :: 0 <= k < i ==> listeners[k].listener != listener
      {
        if listeners[i].listener == listener {
          assert listeners[i] in listeners;
          Unregister(i);
          return;
        }
      }
    }

    /** Take the entry out of the list and free it. */
    method Unregister(i: nat)
      requires Valid() && i < |listeners| && listeners[i].id !in stack
      modifies this`listeners, this`calling
      ensures Valid() && listeners == old(listeners)[..i] + old(listeners)[i + 1..]
      ensures Ids(listeners) == old(Ids(listeners)) - {old(listeners)[i].id}
    {
      IdsWithout(listeners, i);
      calling := calling - {listeners[i].id};
      listeners := listeners[..i] + listeners[i + 1..];
    }

    /** The position of the element the enumerator is at. */
    method Find(entry: Entry) returns (i: nat)
      requires DistinctIds(listeners) && entry in listeners
      ensures i < |listeners| && listeners[i] == entry
    {
      i := 0;
      while listeners[i] != entry
        invariant i < |listeners| && entry in listeners[i..]
        decreases |listeners| - i
      {
        assert listeners[i..] == [listeners[i]] + listeners[i + 1..];
        i := i + 1;
      }
    }

    /**
      Raise an event, from outside or from within a callback: it is dispatched, and
      so is the alert if it is an authorization that was refused.
     */
    method Raise(ev: Event) returns (success: bool, ghost raised: Raised)
      requires Valid()
      modifies this
      ensures Valid() && trace == old(trace) + RaiseSteps(raised)
      ensures Follows(old(listeners), old(State()), listeners, State(), RaiseSteps(raised))
      ensures raised.event == ev && IsRaised(behaviour, old(trace), old(listeners), old(State()), raised)
      ensures success == !Refused(ev, raised.calls)
      decreases Free(), 4
    {
      ghost var calls, alerts;
      success, calls := Offer(ev);
      alerts := [];
      assert StepsOf(ev, calls) + [] == StepsOf(ev, calls);
      if !success {
        ghost var between, s := listeners, State();
        FreeShrinks(old(State()), s);
        var result;
        result, alerts := Offer(Alert(AUTHORIZATION_FAILED));
        FollowsOn(old(listeners), old(State()), between, s, listeners, State(), StepsOf(ev, calls),
                  StepsOf(Alert(AUTHORIZATION_FAILED), alerts));
        Associative(old(trace), StepsOf(ev, calls), StepsOf(Alert(AUTHORIZATION_FAILED), alerts));
      }
      raised := Raised(ev, calls, alerts);
    }

    /** The body of a listener's callback. */
    method Callback(entry: Entry, ev: Event) returns (keep: bool, agree: bool, ghost raises: seq<Raised>)
      requires Valid()
      modifies this
      ensures Valid() && trace == old(trace) + InnerSteps(raises)
      ensures Follows(old(listeners), old(State()), listeners, State(), InnerSteps(raises))
      ensures |raises| == behaviour.count(entry.listener, ev, old(trace))
      ensures Raises(behaviour, ev, entry.listener, old(trace), old(listeners), old(State()), raises)
      ensures keep == behaviour.keep(entry.listener, ev, trace)
      ensures agree == behaviour.agree(entry.listener, ev, trace)
      decreases Free(), 5
    {
      FollowsItself(listeners, State());
      raises := [];
      var n := behaviour.count(entry.listener, ev, trace);
      for k := 0 to n
        invariant Valid() && trace == old(trace) + InnerSteps(raises) && |raises| == k
        invariant Follows(old(listeners), old(State()), listeners, State(), InnerSteps(raises))
        invariant Raises(behaviour, ev, entry.listener, old(trace), old(listeners), old(State()), raises)
      {
        ghost var between, s := listeners, State();
        FreeShrinks(old(State()), s);
        var result;
        ghost var raised;
        result, raised := Raise(behaviour.event(entry.listener, ev, k, trace));
        FollowsOn(old(listeners), old(State()), between, s, listeners, State(), InnerSteps(raises), RaiseSteps(raised));
        Associative(old(trace), InnerSteps(raises), RaiseSteps(raised));
        assert (raises + [raised])[..k] == raises;
        raises := raises + [raised];
      }
      keep := behaviour.keep(entry.listener, ev, trace);
      agree := behaviour.agree(entry.listener, ev, trace);
    }

    method Begin(id: nat, ev: Event)
      requires Valid() && id in Ids(listeners) && id !in stack
      modifies this`calling, this`trace, this`stack
      ensures Valid() && trace == old(trace) + [Enter(id, ev)] && stack == old(stack) + [id]
    {
      calling := calling[id := calling[id] + 1];
      trace := trace + [Enter(id, ev)];
      stack := stack + [id];
    }

    method Leave(id: nat, keep: bool, agree: bool)
      requires Valid() && stack != [] && stack[|stack| - 1] == id
      modifies this`calling, this`trace, this`stack
      ensures Valid() && trace == old(trace) + [Exit(id, keep, agree)] && stack == old(stack)[..|old(stack)| - 1]
      ensures id !in stack
    {
      trace := trace + [Exit(id, keep, agree)];
      stack := stack[..|stack| - 1];
      calling := calling[id := calling[id] - 1];
    }

    /** The callback has returned: its entry is no longer being called, and is dropped if it wants so. */
    method End(ghost pre: seq<Entry>, entry: Entry, ghost post: seq<Entry>, keep: bool, agree: bool)
      returns (next: nat)
      requires Valid() && listeners == pre + [entry] + post
      requires stack != [] && stack[|stack| - 1] == entry.id
      modifies this
      ensures Valid() && trace == old(trace) + [Exit(entry.id, keep, agree)]
      ensures listeners == pre + (if keep then [entry] else []) + post
      ensures next == |pre| + if keep then 1 else 0
      ensures stack == old(stack)[..|old(stack)| - 1]
      ensures Ids(listeners) == if keep then old(Ids(listeners)) else old(Ids(listeners)) - {entry.id}
    {
      Leave(entry.id, keep, agree);
      Around(pre, entry, post);
      next := Find(entry);
      if keep {
        next := next + 1;
      } else {
        Unregister(next);
      }
    }

    /** Mark the entry as being called and run its callback. */
    method Run(entry: Entry, ev: Event) returns (keep: bool, agree: bool, ghost raises: seq<Raised>)
      requires Valid() && entry in listeners && entry.id !in stack
      modifies this
      ensures Valid() && trace == old(trace) + [Enter(entry.id, ev)] + InnerSteps(raises)
      ensures stack == old(stack) + [entry.id] && entry.id in Ids(listeners)
      ensures Ids(listeners) <= Ids(old(listeners)) && listeners == Keep(old(listeners), Ids(listeners))
      ensures Play(Within(old(State()), entry), InnerSteps(raises)) == Some(State())
      ensures Answered(behaviour, ev, old(trace), old(listeners), old(State()), Call(entry, raises, keep, agree))
      decreases Free(), 0
    {
      ghost var s := State();
      FreeDrops(s, entry.id);
      Begin(entry.id, ev);
      assert State() == Within(s, entry);
      keep, agree, raises := Callback(entry, ev);
      assert entry.id in Elems(stack) by {
        assert stack[|stack| - 1] == entry.id;
      }
    }

    /**
      Call a listener that is not being called, and drop it if it wants so; `pre`
      and `post` are the entries around it. `next` is where the enumerator goes on.
     */
    method CallListener(ghost pre: seq<Entry>, entry: Entry, ghost post: seq<Entry>, ev: Event)
      returns (agree: bool, next: nat, ghost call: Call)
      requires Valid() && listeners == pre + [entry] + post && entry.id !in stack
      modifies this
      ensures Valid() && trace == old(trace) + CallSteps(ev, call)
      ensures Follows(old(listeners), old(State()), listeners, State(), CallSteps(ev, call))
      ensures listeners == Keep(pre + [entry], Ids(listeners)) + Keep(post, Ids(listeners))
      ensures next == |Keep(pre + [entry], Ids(listeners))|
      ensures call.entry == entry && call.agree == agree
      ensures Answered(behaviour, ev, old(trace), old(listeners), old(State()), call)
      decreases Free(), 1
    {
      ghost var start, s := listeners, State();
      assert start[|pre|] == entry;
      ghost var raises;
      var keep;
      keep, agree, raises := Run(entry, ev);
      call := Call(entry, raises, keep, agree);
      ghost var live := Ids(listeners);
      AfterCall(pre, entry, post, live, keep);
      CallFollows(pre, post, s, ev, call, live);
      GrownByCall(old(trace), Enter(entry.id, ev), InnerSteps(raises), Exit(entry.id, keep, agree));
      next := End(Keep(pre, live), entry, Keep(post, live), keep, agree);
      KeepIds(start, Ids(listeners));
    }

    /**
      The turn of an entry: it is passed over or called. `pre` and `post` are the
      entries around it, and `next` is where the enumerator goes on.
     */
    method Turn(ghost pre: seq<Entry>, entry: Entry, ghost post: seq<Entry>, at: nat, ev: Event)
      returns (success: bool, next: nat, ghost made: seq<Call>)
      requires Valid() && listeners == pre + [entry] + post && at == |pre|
      modifies this
      ensures Valid() && trace == old(trace) + StepsOf(ev, made)
      ensures Follows(old(listeners), old(State()), listeners, State(), StepsOf(ev, made))
      ensures listeners == Keep(pre + [entry], Ids(listeners)) + Keep(post, Ids(listeners))
      ensures next == |Keep(pre + [entry], Ids(listeners))|
      ensures Dispatched(behaviour, ev, old(trace), old(listeners), [entry], old(State()), made)
      ensures success == !Refused(ev, made)
      decreases Free(), 2
    {
      assert listeners[at] == entry;
      if calling[entry.id] != 0 || !behaviour.implements(entry.listener, ev) {
        FollowsItself(listeners, State());
        KeepConcat(pre + [entry], post, Ids(listeners));
        KeepAll(pre + [entry], Ids(listeners));
        assert [entry][1..] == [];
        success, next, made := true, at + 1, [];
      } else {
        ghost var start, s := listeners, State();
        KeepAll(start, s.live);
        var agree;
        ghost var call;
        agree, next, call := CallListener(pre, entry, post, ev);
        DispatchedOne(behaviour, ev, old(trace), start, s, call);
        success, made := !ev.Authorize? || agree, [call];
      }
    }

    /**
      The dispatch loop shared by all events. The enumerator runs over the list as
      it changes; `calls` are the callbacks the loop itself makes.
     */
    method Offer(ev: Event) returns (success: bool, ghost calls: seq<Call>)
      requires Valid()
      modifies this
      ensures Valid() && trace == old(trace) + StepsOf(ev, calls)
      ensures Follows(old(listeners), old(State()), listeners, State(), StepsOf(ev, calls))
      ensures Dispatched(behaviour, ev, old(trace), old(listeners), old(listeners), old(State()), calls)
      ensures success == !Refused(ev, calls)
      decreases Free(), 3
    {
      ghost var start, s := listeners, State();
      FollowsItself(listeners, State());
      success, calls := true, [];
      var i := 0;
      // the list at the start, split at the enumerator, and the same for the list as it is now
      ghost var before, after, visited, rest := [], start, [], start;
      KeepAll(start, Ids(start));
      while i < |listeners|
        invariant Valid() && trace == old(trace) + StepsOf(ev, calls)
        invariant Follows(start, s, listeners, State(), StepsOf(ev, calls))
        invariant start == before + after && listeners == visited + rest && i == |visited|
        invariant visited == Keep(before, Ids(listeners)) && rest == Keep(after, Ids(listeners))
        invariant Dispatched(behaviour, ev, old(trace), start, before, s, calls)
        invariant success && !Refused(ev, calls)
        decreases |rest|
      {
        ghost var ids := Ids(listeners);
        var entry := listeners[i];
        ghost var skipped, after' := NextEntry(before, after, visited, rest, ids);
        ghost var before', rest' := before + skipped + [entry], rest[1..];
        ghost var between, t := listeners, State();
        ghost var made;
        FreeShrinks(s, t);
        success, i, made := Turn(visited, entry, rest', i, ev);
        FollowsOn(start, s, between, t, listeners, State(), StepsOf(ev, calls), StepsOf(ev, made));
        Associative(old(trace), StepsOf(ev, calls), StepsOf(ev, made));
        DispatchedInLonger(behaviour, ev, old(trace) + StepsOf(ev, calls), start, entry, t, made);
        DispatchedNext(behaviour, ev, old(trace), start, before, s, calls, skipped, entry, made);
        Shrunk(before', after', visited + [entry], rest', ids, Ids(listeners));
        calls, visited, rest' := calls + made, Keep(visited + [entry], Ids(listeners)), Keep(rest', Ids(listeners));
        before, after, rest := before', after', rest';
        if !success {
          break;
        }
      }
      DispatchEnds(behaviour, ev, old(trace), start, before, s, calls, after);
    }
  }
}
