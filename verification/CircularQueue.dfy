/**
  Circular queues (sys/queue.h): a doubly linked ring that is closed by the
  head itself, cast to an element.
 */
module CircularQueue {
  import opened Sequences

  /** A pointer in the ring: to the head, or to an element. */
  datatype Ref = HeadRef(head: Ring) | ElemRef(elem: Elem) | NoRef

  class Elem {
    var next: Ref
    var prev: Ref

    constructor ()
    {
      next, prev := NoRef, NoRef;
    }
  }

  /** What position i of the ring refers to; position -1 and position |s| are the head. */
  ghost function At(head: Ring, s: seq<Elem>, i: int): Ref
    requires -1 <= i <= |s|
  {
    if 0 <= i < |s| then ElemRef(s[i]) else HeadRef(head)
  }

  class Ring {
    var first: Ref
    var last: Ref
    ghost var elems: seq<Elem>

    /** Forward and backward pointers mirror each other all around the ring. */
    ghost predicate Valid()
      reads this, elems
    {
      && (forall i, j :: 0 <= i < j < |elems| ==> elems[i] != elems[j])
      && first == At(this, elems, 0)
      && last == At(this, elems, |elems| - 1)
      && (forall i {:trigger elems[i].next} {:trigger elems[i].prev} :: 0 <= i < |elems| ==>
            elems[i].next == At(this, elems, i + 1) && elems[i].prev == At(this, elems, i - 1))
    }

    constructor Init()
      ensures Valid() && elems == []
    {
      first := HeadRef(this);
      last := HeadRef(this);
      elems := [];
    }

    /** Insert behind an element; p is the position the new element gets. */
    method InsertAfter(listelm: Elem, elm: Elem, ghost p: nat)
      requires Valid() && elm !in elems && 0 < p <= |elems| && elems[p - 1] == listelm
      modifies this, elm, elems
      ensures Valid() && elems == InsertAt(old(elems), p, elm)
    {
      elm.next := listelm.next;
      elm.prev := ElemRef(listelm);
      if listelm.next == HeadRef(this) {
        last := ElemRef(elm);
      } else {
        listelm.next.elem.prev := ElemRef(elm);
      }
      listelm.next := ElemRef(elm);
      ghost var was := elems;
      elems := InsertAt(elems, p, elm);
      assert p < |was| ==> elems[p + 1] == was[p];
      assert elems[p - 1] == listelm;
    }

    /** Insert before the element at position i. */
    method InsertBefore(listelm: Elem, elm: Elem, ghost i: nat)
      requires Valid() && elm !in elems && i < |elems| && elems[i] == listelm
      modifies this, elm, elems
      ensures Valid() && elems == InsertAt(old(elems), i, elm)
    {
      elm.next := ElemRef(listelm);
      elm.prev := listelm.prev;
      if listelm.prev == HeadRef(this) {
        first := ElemRef(elm);
      } else {
        listelm.prev.elem.next := ElemRef(elm);
      }
      listelm.prev := ElemRef(elm);
      ghost var was := elems;
      elems := InsertAt(elems, i, elm);
      assert forall k :: i < k < |elems| ==> elems[k] == was[k - 1];
      assert i > 0 ==> elems[i - 1] == was[i - 1];
      assert elems[i + 1] == listelm;
    }

    method InsertHead(elm: Elem)
      requires Valid() && elm !in elems
      modifies this, elm, elems
      ensures Valid() && elems == [elm] + old(elems)
    {
      elm.next := first;
      elm.prev := HeadRef(this);
      if last == HeadRef(this) {
        last := ElemRef(elm);
      } else {
        first.elem.prev := ElemRef(elm);
      }
      first := ElemRef(elm);
      elems := [elm] + elems;
    }

    method InsertTail(elm: Elem)
      requires Valid() && elm !in elems
      modifies this, elm, elems
      ensures Valid() && elems == old(elems) + [elm]
    {
      elm.next := HeadRef(this);
      elm.prev := last;
      if first == HeadRef(this) {
        first := ElemRef(elm);
      } else {
        last.elem.next := ElemRef(elm);
      }
      last := ElemRef(elm);
      elems := elems + [elm];
    }

    /** Remove the element at position i; its own pointers are left as they are. */
    method Remove(elm: Elem, ghost i: nat)
      requires Valid() && i < |elems| && elems[i] == elm
      modifies this, elems
      ensures Valid() && elems == RemoveAt(old(elems), i)
      ensures elm.next == old(elm.next) && elm.prev == old(elm.prev)
    {
      assert elm.next == At(this, elems, i + 1) && elm.prev == At(this, elems, i - 1);
      if elm.next == HeadRef(this) {
        last := elm.prev;
      } else {
        elm.next.elem.prev := elm.prev;
      }
      if elm.prev == HeadRef(this) {
        first := elm.next;
      } else {
        elm.prev.elem.next := elm.next;
      }
      elems := RemoveAt(elems, i);
    }

    /** CIRCLEQ_FOREACH visits the elements in order. */
    method Forward() returns (visited: seq<Elem>)
      requires Valid()
      ensures visited == elems
    {
      visited := [];
      var r := first;
      while r != HeadRef(this)
        invariant |visited| <= |elems| && visited == elems[..|visited|]
        invariant r == At(this, elems, |visited|)
        decreases |elems| - |visited|
      {
        visited := visited + [r.elem];
        r := r.elem.next;
      }
    }

    /** CIRCLEQ_FOREACH_REVERSE visits them in exactly the reverse order. */
    method Backward() returns (visited: seq<Elem>)
      requires Valid()
      ensures |visited| == |elems|
      ensures forall i :: 0 <= i < |elems| ==> visited[i] == elems[|elems| - 1 - i]
    {
      visited := [];
      var r := last;
      ghost var k := |elems|;
      while r != HeadRef(this)
        invariant 0 <= k <= |elems| && |visited| == |elems| - k
        invariant forall i :: 0 <= i < |visited| ==> visited[i] == elems[|elems| - 1 - i]
        invariant r == At(this, elems, k - 1)
        decreases k
      {
        visited := visited + [r.elem];
        r := r.elem.prev;
        k := k - 1;
      }
    }

    /** CIRCLEQ_LOOP_NEXT of the element at position i, around the ring */
    method LoopNext(elm: Elem, ghost i: nat) returns (r: Ref)
      requires Valid() && i < |elems| && elems[i] == elm
      ensures r == ElemRef(elems[if i + 1 == |elems| then 0 else i + 1])
    {
      r := if elm.next == HeadRef(this) then first else elm.next;
    }

    /** CIRCLEQ_LOOP_PREV of the element at position i, around the ring */
    method LoopPrev(elm: Elem, ghost i: nat) returns (r: Ref)
      requires Valid() && i < |elems| && elems[i] == elm
      ensures r == ElemRef(elems[if i == 0 then |elems| - 1 else i - 1])
    {
      r := if elm.prev == HeadRef(this) then last else elm.prev;
    }
  }
}
