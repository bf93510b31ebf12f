/**
  Traces of listener callbacks, and what it means for a trace to respect the
  `calling` guard of the event bus (bus.c).
 */
module EventTrace {
  import opened Wrappers
  import opened Sequences

  datatype Event = Authorize(final: bool) | Alert(alert: nat) | Notify(hook: nat, data: nat)

  /**
    A callback of the list entry `id` is entered for an event, or returns: whether
    to keep the entry, and its answer, which counts for authorizations.
   */
  datatype Step = Enter(id: nat, event: Event) | Exit(id: nat, keep: bool, agree: bool)

  /** The callbacks in progress, innermost last, and the entries still registered. */
  datatype PlayState = PlayState(stack: seq<nat>, live: set<nat>)

  /**
    Replay a trace. It fails if an entry is entered that is not registered or
    is being called already, or if callbacks do not return in nesting order.
   */
  function Play(s: PlayState, steps: seq<Step>): Option<PlayState>
    decreases |steps|
  {
    if steps == [] then Some(s)
    else match steps[0]
      case Enter(id, _) =>
        if id in s.live && id !in s.stack then Play(s.(stack := s.stack + [id]), steps[1..]) else None
      case Exit(id, keep, _) =>
        if s.stack != [] && s.stack[|s.stack| - 1] == id
        then Play(PlayState(s.stack[..|s.stack| - 1], if keep then s.live else s.live - {id}), steps[1..])
        else None
  }

  lemma {:induction false} PlaySplits(s: PlayState, a: seq<Step>, b: seq<Step>)
    ensures Play(s, a + b) == match Play(s, a) case None => None case Some(mid) => Play(mid, b)
    decreases |a|
  {
    if a == [] {
      assert a + b == b;
    } else {
      assert (a + b)[1..] == a[1..] + b;
      match a[0]
      case Enter(id, _) =>
        if id in s.live && id !in s.stack {
          PlaySplits(s.(stack := s.stack + [id]), a[1..], b);
        }
      case Exit(id, keep, _) =>
        if s.stack != [] && s.stack[|s.stack| - 1] == id {
          PlaySplits(PlayState(s.stack[..|s.stack| - 1], if keep then s.live else s.live - {id}), a[1..], b);
        }
    }
  }

  /** The nesting depth after a trace that starts at depth `d` and never leaves the callback it starts in. */
  function Depth(steps: seq<Step>, d: nat): Option<nat>
    decreases |steps|
  {
    if steps == [] then Some(d)
    else if steps[0].Enter? then Depth(steps[1..], d + 1)
    else if d == 0 then None
    else Depth(steps[1..], d - 1)
  }

  /** The steps by which callbacks are entered from depth 0 and return to it. */
  function TopLevel(steps: seq<Step>, d: nat): seq<Step>
    decreases |steps|
  {
    if steps == [] then []
    else if steps[0].Enter? then (if d == 0 then [steps[0]] else []) + TopLevel(steps[1..], d + 1)
    else if d == 0 then []
    else (if d == 1 then [steps[0]] else []) + TopLevel(steps[1..], d - 1)
  }

  lemma {:induction false} LevelsConcat(a: seq<Step>, b: seq<Step>, d: nat)
    requires Depth(a, d).Some?
    ensures Depth(a + b, d) == Depth(b, Depth(a, d).value)
    ensures TopLevel(a + b, d) == TopLevel(a, d) + TopLevel(b, Depth(a, d).value)
    decreases |a|
  {
    if a == [] {
      assert a + b == b;
    } else {
      assert (a + b)[1..] == a[1..] + b && (a + b)[0] == a[0];
      var below: nat := if a[0].Enter? then d + 1 else d - 1;
      LevelsConcat(a[1..], b, below);
      var first := if d == (if a[0].Enter? then 0 else 1) then [a[0]] else [];
      Associative(first, TopLevel(a[1..], below), TopLevel(b, Depth(a, d).value));
    }
  }

  /** What happens within a callback is not at the top level outside of it. */
  lemma {:induction false} Deeper(steps: seq<Step>, d: nat)
    requires Depth(steps, d).Some?
    ensures Depth(steps, d + 1) == Some(Depth(steps, d).value + 1) && TopLevel(steps, d + 1) == []
    decreases |steps|
  {
    if steps != [] {
      Deeper(steps[1..], if steps[0].Enter? then d + 1 else d - 1);
    }
  }

  function Elems(stack: seq<nat>): set<nat> {
    set id | id in stack
  }

  /** The stack is duplicate-free and every callback in progress is of a registered entry. */
  ghost predicate Sound(s: PlayState) {
    NoDuplicates(s.stack) && Elems(s.stack) <= s.live
  }

  lemma {:induction false} PlayKeepsSound(s: PlayState, steps: seq<Step>)
    requires Sound(s) && Play(s, steps).Some?
    ensures Sound(Play(s, steps).value) && Play(s, steps).value.live <= s.live
    decreases |steps|
  {
    if steps != [] {
      match steps[0]
      case Enter(id, _) => PlayKeepsSound(s.(stack := s.stack + [id]), steps[1..]);
      case Exit(id, keep, _) =>
        PlayKeepsSound(PlayState(s.stack[..|s.stack| - 1], if keep then s.live else s.live - {id}), steps[1..]);
    }
  }

  /** The callbacks around a trace stay in progress. */
  lemma {:induction false} PlayKeepsOuter(s: PlayState, steps: seq<Step>, d: nat)
    requires Play(s, steps).Some? && Depth(steps, d).Some? && d <= |s.stack|
    ensures var after, outer := Play(s, steps).value.stack, |s.stack| - d;
      |after| == outer + Depth(steps, d).value && after[..outer] == s.stack[..outer]
    decreases |steps|
  {
    if steps != [] {
      match steps[0]
      case Enter(id, _) =>
        PlayKeepsOuter(s.(stack := s.stack + [id]), steps[1..], d + 1);
      case Exit(id, keep, _) =>
        PlayKeepsOuter(PlayState(s.stack[..|s.stack| - 1], if keep then s.live else s.live - {id}), steps[1..], d - 1);
    }
  }

  lemma {:induction false} DistinctSize(stack: seq<nat>)
    requires NoDuplicates(stack)
    ensures |Elems(stack)| == |stack|
  {
    if stack != [] {
      var rest := stack[..|stack| - 1];
      DistinctSize(rest);
      assert Elems(stack) == Elems(rest) + {stack[|stack| - 1]};
    }
  }

  /** At every moment the nesting depth is bounded by the entries registered at the start. */
  lemma DepthBounded(s: PlayState, steps: seq<Step>, k: nat)
    requires Sound(s) && Play(s, steps).Some? && k <= |steps|
    ensures Play(s, steps[..k]).Some?
    ensures |Play(s, steps[..k]).value.stack| - |s.stack| <= |s.live - Elems(s.stack)|
  {
    assert steps == steps[..k] + steps[k..];
    PlaySplits(s, steps[..k], steps[k..]);
    PlayKeepsSound(s, steps[..k]);
    var mid := Play(s, steps[..k]).value;
    DistinctSize(mid.stack);
    DistinctSize(s.stack);
    SubsetSize(Elems(mid.stack), s.live);
    assert |s.live| == |s.live - Elems(s.stack)| + |Elems(s.stack)| by {
      assert s.live == (s.live - Elems(s.stack)) + Elems(s.stack);
    }
  }

  lemma {:induction false} GoneIsNeverEntered(s: PlayState, steps: seq<Step>, id: nat, j: nat)
    requires id !in s.live && Play(s, steps).Some? && j < |steps|
    ensures !(steps[j].Enter? && steps[j].id == id)
    decreases |steps|
  {
    match steps[0]
    case Enter(i, _) =>
      if j > 0 {
        GoneIsNeverEntered(s.(stack := s.stack + [i]), steps[1..], id, j - 1);
      }
    case Exit(i, keep, _) =>
      if j > 0 {
        GoneIsNeverEntered(PlayState(s.stack[..|s.stack| - 1], if keep then s.live else s.live - {i}),
                           steps[1..], id, j - 1);
      }
  }

  /** An entry whose callback returned FALSE is never called again. */
  lemma NeverCalledAfterFalse(s: PlayState, steps: seq<Step>, i: nat, j: nat)
    requires Play(s, steps).Some? && i < j < |steps| && steps[i].Exit? && !steps[i].keep
    ensures !(steps[j].Enter? && steps[j].id == steps[i].id)
  {
    assert steps == steps[..i + 1] + steps[i + 1..];
    PlaySplits(s, steps[..i + 1], steps[i + 1..]);
    assert steps[..i + 1] == steps[..i] + [steps[i]];
    PlaySplits(s, steps[..i], [steps[i]]);
    var at := Play(s, steps[..i]).value;
    var after := Play(at, [steps[i]]).value;
    assert after.live == at.live - {steps[i].id} by {
      assert [steps[i]][1..] == [];
    }
    GoneIsNeverEntered(after, steps[i + 1..], steps[i].id, j - i - 1);
  }

  lemma {:induction false} ActiveIsNotEntered(s: PlayState, steps: seq<Step>, id: nat, j: nat)
    requires Sound(s) && id in s.stack && Play(s, steps).Some? && j < |steps|
    requires forall k :: 0 <= k < j ==> !(steps[k].Exit? && steps[k].id == id)
    ensures !(steps[j].Enter? && steps[j].id == id)
    decreases |steps|
  {
    if j > 0 {
      match steps[0]
      case Enter(i, _) =>
        var next := s.(stack := s.stack + [i]);
        assert forall k :: 0 <= k < j - 1 ==> steps[1..][k] == steps[k + 1];
        ActiveIsNotEntered(next, steps[1..], id, j - 1);
      case Exit(i, keep, _) =>
        var next := PlayState(s.stack[..|s.stack| - 1], if keep then s.live else s.live - {i});
        assert steps[0].id != id;
        assert id in next.stack by {
          var p :| 0 <= p < |s.stack| && s.stack[p] == id;
          assert next.stack[p] == id;
        }
        assert forall k :: 0 <= k < j - 1 ==> steps[1..][k] == steps[k + 1];
        ActiveIsNotEntered(next, steps[1..], id, j - 1);
    }
  }

  /** Between two calls of the same entry the first one has returned: callbacks are not re-entered. */
  lemma NotReentered(s: PlayState, steps: seq<Step>, i: nat, j: nat)
    requires Sound(s) && Play(s, steps).Some? && i < j < |steps|
    requires steps[i].Enter? && steps[j].Enter? && steps[i].id == steps[j].id
    ensures exists k :: i < k < j && steps[k].Exit? && steps[k].id == steps[i].id
  {
    assert steps == steps[..i + 1] + steps[i + 1..];
    PlaySplits(s, steps[..i + 1], steps[i + 1..]);
    assert steps[..i + 1] == steps[..i] + [steps[i]];
    PlaySplits(s, steps[..i], [steps[i]]);
    PlayKeepsSound(s, steps[..i + 1]);
    var after := Play(s, steps[..i + 1]).value;
    assert after.stack == Play(s, steps[..i]).value.stack + [steps[i].id] by {
      assert [steps[i]][1..] == [];
    }
    assert steps[i].id in after.stack;
    if forall k :: i < k < j ==> !(steps[k].Exit? && steps[k].id == steps[i].id) {
      ActiveIsNotEntered(after, steps[i + 1..], steps[i].id, j - i - 1);
    }
  }
}
