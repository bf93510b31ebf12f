/**
  Tail queues (sys/queue.h): a doubly linked list in which the backward pointer
  of an element is the address of the forward pointer that leads to it.
 */
module TailQueue {
  import opened Sequences

  /** The address of a forward pointer: the head's tqh_first or an element's tqe_next. */
  datatype Address = Nowhere | FirstOf(head: Queue) | NextOf(elem: Elem)

  class Elem {
    var next: Elem?
    var prev: Address

    constructor ()
    {
      next, prev := null, Nowhere;
    }
  }

  /** The objects an address may be dereferenced in. */
  function Target(a: Address): set<object> {
    match a
    case Nowhere => {}
    case FirstOf(head) => {head}
    case NextOf(elem) => {elem}
  }

  /** The forward pointer at the address. */
  function Load(a: Address): Elem?
    requires a != Nowhere
    reads Target(a)
  {
    if a.FirstOf? then a.head.first else a.elem.next
  }

  /**
    The address that follows the forward pointer in memory, whether it lies in a
    head or in an element; the reverse macros cast an element's entry to a head
    to read it.
   */
  function Follower(a: Address): Address
    requires a != Nowhere
    reads Target(a)
  {
    if a.FirstOf? then a.head.last else a.elem.prev
  }

  ghost function Successor(s: seq<Elem>, i: nat): Elem?
    requires i < |s|
  {
    if i + 1 < |s| then s[i + 1] else null
  }

  /** The address of the forward pointer that leads to position i. */
  ghost function Predecessor(head: Queue, s: seq<Elem>, i: nat): Address
    requires i < |s|
  {
    if i == 0 then FirstOf(head) else NextOf(s[i - 1])
  }

  /** The head's pointers and those of the elements link up the given elements in order. */
  ghost predicate Links(head: Queue, s: seq<Elem>)
    reads head, s
  {
    && (forall i, j :: 0 <= i < j < |s| ==> s[i] != s[j])
    && head.first == (if s == [] then null else s[0])
    && head.last == (if s == [] then FirstOf(head) else NextOf(s[|s| - 1]))
    && (forall i {:trigger s[i].next} {:trigger s[i].prev} :: 0 <= i < |s| ==>
          s[i].next == Successor(s, i) && s[i].prev == Predecessor(head, s, i))
  }

  /** The pointers determine the elements: a queue links up at most one sequence. */
  lemma LinksDetermineElements(head: Queue, s: seq<Elem>, t: seq<Elem>)
    requires Links(head, s) && Links(head, t)
    ensures s == t
  {
    var k := if |s| < |t| then |s| else |t|;
    SamePrefix(head, s, t, k);
    assert s[..k] == t[..k];
    if k > 0 {
      assert s[..k][k - 1] == s[k - 1] && t[..k][k - 1] == t[k - 1];
      assert s[k - 1].next == t[k - 1].next;
    }
  }

  lemma {:induction false} SamePrefix(head: Queue, s: seq<Elem>, t: seq<Elem>, k: nat)
    requires Links(head, s) && Links(head, t) && k <= |s| && k <= |t|
    ensures s[..k] == t[..k]
  {
    if k > 0 {
      SamePrefix(head, s, t, k - 1);
      if k > 1 {
        assert s[k - 2] == s[..k - 1][k - 2] == t[..k - 1][k - 2] == t[k - 2];
        assert s[k - 2].next == s[k - 1] && t[k - 2].next == t[k - 1];
      }
      assert s[..k] == s[..k - 1] + [s[k - 1]] && t[..k] == t[..k - 1] + [t[k - 1]];
    }
  }

  class Queue {
    var first: Elem?
    var last: Address
    ghost var elems: seq<Elem>

    ghost predicate Valid()
      reads this, elems
    {
      Links(this, elems)
    }

    constructor Init()
      ensures Valid() && elems == []
    {
      first := null;
      last := FirstOf(this);
      elems := [];
    }

    method InsertHead(elm: Elem)
      requires Valid() && elm !in elems
      modifies this, elm, elems
      ensures Valid() && elems == [elm] + old(elems)
    {
      elm.next := first;
      if first != null {
        first.prev := NextOf(elm);
      } else {
        last := NextOf(elm);
      }
      first := elm;
      elm.prev := FirstOf(this);
      elems := [elm] + elems;
    }

    method InsertTail(elm: Elem)
      requires Valid() && elm !in elems
      modifies this, elm, elems
      ensures Valid() && elems == old(elems) + [elm]
    {
      elm.next := null;
      elm.prev := last;
      if last.FirstOf? {
        last.head.first := elm;
      } else {
        last.elem.next := elm;
      }
      last := NextOf(elm);
      elems := elems + [elm];
    }

    /** Insert behind an element; p is the position the new element gets. */
    method InsertAfter(listelm: Elem, elm: Elem, ghost p: nat)
      requires Valid() && elm !in elems && 0 < p <= |elems| && elems[p - 1] == listelm
      modifies this, elm, elems
      ensures Valid() && elems == InsertAt(old(elems), p, elm)
    {
      elm.next := listelm.next;
      if elm.next != null {
        elm.next.prev := NextOf(elm);
      } else {
        last := NextOf(elm);
      }
      listelm.next := elm;
      elm.prev := NextOf(listelm);
      ghost var was := elems;
      elems := InsertAt(elems, p, elm);
      assert p < |was| ==> elems[p + 1] == was[p];
      assert elems[p - 1] == listelm;
    }

    /** Insert before the element at position i; the macro does not need the head. */
    method InsertBefore(listelm: Elem, elm: Elem, ghost i: nat)
      requires Valid() && elm !in elems && i < |elems| && elems[i] == listelm
      modifies this, elm, elems
      ensures Valid() && elems == InsertAt(old(elems), i, elm)
    {
      assert if i == 0 then listelm.prev == FirstOf(this) else listelm.prev == NextOf(elems[i - 1]) by {
        assert listelm.prev == Predecessor(this, elems, i);
      }
      elm.prev := listelm.prev;
      elm.next := listelm;
      if listelm.prev.FirstOf? {
        listelm.prev.head.first := elm;
      } else {
        listelm.prev.elem.next := elm;
      }
      listelm.prev := NextOf(elm);
      ghost var was := elems;
      elems := InsertAt(elems, i, elm);
      assert i > 0 ==> elems[i - 1] == was[i - 1];
      assert elems[i + 1] == listelm;
    }

    /** Remove the element at position i; its own pointers are left as they are. */
    method Remove(elm: Elem, ghost i: nat)
      requires Valid() && i < |elems| && elems[i] == elm
      modifies this, elems
      ensures Valid() && elems == RemoveAt(old(elems), i)
      ensures elm.next == old(elm.next) && elm.prev == old(elm.prev)
    {
      assert elm.next == Successor(elems, i) && elm.prev == Predecessor(this, elems, i);
      if elm.next != null {
        elm.next.prev := elm.prev;
      } else {
        last := elm.prev;
      }
      if elm.prev.FirstOf? {
        elm.prev.head.first := elm.next;
      } else {
        elm.prev.elem.next := elm.next;
      }
      elems := RemoveAt(elems, i);
    }

    /** TAILQ_LAST */
    method Last() returns (e: Elem?)
      requires Valid()
      ensures e == if elems == [] then null else elems[|elems| - 1]
    {
      e := Load(Follower(last));
    }

    /** TAILQ_PREV of the element at position i */
    method Prev(elm: Elem, ghost i: nat) returns (e: Elem?)
      requires Valid() && i < |elems| && elems[i] == elm
      ensures e == if i == 0 then null else elems[i - 1]
    {
      e := Load(Follower(elm.prev));
    }

    /** TAILQ_FOREACH visits the elements in order. */
    method Forward() returns (visited: seq<Elem>)
      requires Valid()
      ensures visited == elems
    {
      visited := [];
      var e := first;
      while e != null
        invariant |visited| <= |elems| && visited == elems[..|visited|]
        invariant e == if |visited| < |elems| then elems[|visited|] else null
        decreases |elems| - |visited|
      {
        visited := visited + [e];
        e := e.next;
      }
    }

    /** TAILQ_FOREACH_REVERSE visits them in exactly the reverse order. */
    method Backward() returns (visited: seq<Elem>)
      requires Valid()
      ensures |visited| == |elems|
      ensures forall i :: 0 <= i < |elems| ==> visited[i] == elems[|elems| - 1 - i]
    {
      visited := [];
      var e := Last();
      ghost var k := |elems|;
      while e != null
        invariant 0 <= k <= |elems| && |visited| == |elems| - k
        invariant forall i :: 0 <= i < |visited| ==> visited[i] == elems[|elems| - 1 - i]
        invariant e == if k > 0 then elems[k - 1] else null
        decreases k
      {
        visited := visited + [e];
        e := Prev(e, k - 1);
        k := k - 1;
      }
    }
  }
}
