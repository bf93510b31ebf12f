/** Handing attributes to handlers and collecting the attributes handlers request (attribute_manager.c). */
module AttributeManager {
  import opened Wrappers
  import opened Sequences

  type Handler = nat

  datatype Attribute = Attribute(kind: int, value: seq<bv8>)

  // ---------- the attributes requested ----------

  /** A registered handler with what its inner enumerator yields; a handler may not create one. */
  datatype Offer = Offer(handler: Handler, attributes: Option<seq<Attribute>>) {
    function Attributes(): seq<Attribute> {
      if attributes.Some? then attributes.value else []
    }
  }

  /** An attribute tagged with the handler that requests it. */
  datatype Request = Request(handler: Handler, attribute: Attribute)

  function Tagged(handler: Handler, attributes: seq<Attribute>): (r: seq<Request>)
    ensures |r| == |attributes|
    ensures forall j :: 0 <= j < |r| ==> r[j] == Request(handler, attributes[j])
  {
    if attributes == [] then [] else [Request(handler, attributes[0])] + Tagged(handler, attributes[1..])
  }

  /** All attributes of all handlers, in order. */
  function Requests(offers: seq<Offer>): seq<Request> {
    if offers == [] then []
    else Tagged(offers[0].handler, offers[0].Attributes()) + Requests(offers[1..])
  }

  /** The number of attributes ahead of the i-th handler's. */
  function Ahead(offers: seq<Offer>, i: nat): nat
    requires i <= |offers|
  {
    if i == 0 then 0
    else if offers[i - 1].attributes.None? then Ahead(offers, i - 1)
    else Ahead(offers, i - 1) + |offers[i - 1].attributes.value|
  }

  lemma {:induction false} AheadStep(offers: seq<Offer>, i: nat)
    requires 0 < i <= |offers|
    ensures Ahead(offers, i) == |offers[0].Attributes()| + Ahead(offers[1..], i - 1)
  {
    if i > 1 {
      AheadStep(offers, i - 1);
    }
  }

  lemma {:induction false} RequestCount(offers: seq<Offer>)
    ensures |Requests(offers)| == Ahead(offers, |offers|)
  {
    if offers != [] {
      RequestCount(offers[1..]);
      AheadStep(offers, |offers|);
    }
  }

  /** Behind the attributes ahead of the i-th handler's come those of the handlers from the i-th on. */
  lemma {:induction false} RequestsFrom(offers: seq<Offer>, i: nat)
    requires i <= |offers|
    ensures Ahead(offers, i) <= |Requests(offers)|
    ensures Requests(offers)[Ahead(offers, i)..] == Requests(offers[i..])
  {
    if i == 0 {
      assert offers[0..] == offers;
    } else {
      var head, rest := Tagged(offers[0].handler, offers[0].Attributes()), offers[1..];
      var tail, n := Requests(rest), Ahead(rest, i - 1);
      RequestsFrom(rest, i - 1);
      AheadStep(offers, i);
      calc {
        Requests(offers)[Ahead(offers, i)..];
        (head + tail)[|head| + n..];
        { DropPast(head, tail, n); }
        tail[n..];
        Requests(rest[i - 1..]);
        { assert rest[i - 1..] == offers[i..]; }
        Requests(offers[i..]);
      }
    }
  }

  /** Every attribute of every handler is requested once, tagged with its handler, in order. */
  lemma RequestAt(offers: seq<Offer>, i: nat, j: nat)
    requires i < |offers| && offers[i].attributes.Some? && j < |offers[i].attributes.value|
    ensures Ahead(offers, i) + j < Ahead(offers, i + 1) <= |Requests(offers)|
    ensures Requests(offers)[Ahead(offers, i) + j] == Request(offers[i].handler, offers[i].attributes.value[j])
  {
    RequestsFrom(offers, i);
    RequestsFrom(offers, i + 1);
    var all, here := Requests(offers), Tagged(offers[i].handler, offers[i].Attributes());
    assert all[Ahead(offers, i) + j] == all[Ahead(offers, i)..][j];
    assert Requests(offers[i..]) == here + Requests(offers[i..][1..]);
  }

  class InitiatorEnumerator {
    var outer: seq<Offer>
    var handler: Handler
    var inner: Option<seq<Attribute>>

    /** What is still to come. */
    ghost function Remaining(): seq<Request>
      reads this
    {
      Tagged(handler, if inner.Some? then inner.value else []) + Requests(outer)
    }

    constructor (offers: seq<Offer>)
      ensures Remaining() == Requests(offers)
    {
      outer, handler, inner := offers, 0, None;
    }

    /** Yields the next request; once it returns FALSE it keeps doing so. */
    method Enumerate() returns (found: bool, request: Request)
      modifies this
      ensures found <==> old(Remaining()) != []
      ensures found ==> request == old(Remaining())[0] && Remaining() == old(Remaining())[1..]
      ensures !found ==> Remaining() == []
    {
      while inner == None || inner.value == []
        invariant Remaining() == old(Remaining())
        decreases |outer|
      {
        if outer == [] {
          return false, Request(0, Attribute(0, []));
        }
        assert Remaining() == Requests(outer);
        handler, inner, outer := outer[0].handler, outer[0].attributes, outer[1..];
      }
      found, request := true, Request(handler, inner.value[0]);
      assert Tagged(handler, inner.value) == [request] + Tagged(handler, inner.value[1..]);
      Associative([request], Tagged(handler, inner.value[1..]), Requests(outer));
      inner := Some(inner.value[1..]);
    }
  }

  /** Calling the enumerator until it returns FALSE collects every request. */
  method CollectRequests(offers: seq<Offer>) returns (requests: seq<Request>)
    ensures requests == Requests(offers)
  {
    requests := [];
    var enumerator := new InitiatorEnumerator(offers);
    var found := true;
    while found
      invariant requests + enumerator.Remaining() == Requests(offers)
      invariant found || enumerator.Remaining() == []
      decreases if found then 1 + |enumerator.Remaining()| else 0
    {
      ghost var remaining := enumerator.Remaining();
      var request;
      found, request := enumerator.Enumerate();
      if found {
        Associative(requests, [request], enumerator.Remaining());
        assert remaining == [request] + enumerator.Remaining();
        requests := requests + [request];
      }
    }
  }

  // ---------- handing out an attribute ----------

  /** Whether a handler accepts the attribute may depend on the handlers asked before. */
  type Answer = (seq<Handler>, Handler) -> bool

  function Occurrences(list: seq<Handler>, handler: Handler): seq<Handler> {
    if list == [] then []
    else if list[0] == handler then [handler] + Occurrences(list[1..], handler)
    else Occurrences(list[1..], handler)
  }

  /** The order in which handlers are asked: the one that requested the attribute, and then all. */
  function Queue(handlers: seq<Handler>, handler: Handler): seq<Handler> {
    Occurrences(handlers, handler) + handlers
  }

  ghost predicate AllRefused(asked: seq<Handler>, accepts: Answer) {
    forall k :: 0 <= k < |asked| ==> !accepts(asked[..k], asked[k])
  }

  /** The last of the handlers asked accepted and the others refused. */
  ghost predicate Accepted(asked: seq<Handler>, accepts: Answer) {
    && asked != []
    && AllRefused(asked[..|asked| - 1], accepts)
    && accepts(asked[..|asked| - 1], asked[|asked| - 1])
  }

  /** The queue was asked in order up to the first handler that accepts, or to its end. */
  ghost predicate Outcome(queue: seq<Handler>, accepts: Answer, handled: Option<Handler>, asked: seq<Handler>) {
    && asked <= queue
    && (handled.Some? ==> Accepted(asked, accepts) && handled.value == asked[|asked| - 1])
    && (handled.None? ==> AllRefused(asked, accepts) && asked == queue)
  }

  /** Of the handlers asked, only the last may have accepted. */
  lemma OutcomeAt(queue: seq<Handler>, accepts: Answer, handled: Option<Handler>, asked: seq<Handler>, k: nat)
    requires Outcome(queue, accepts, handled, asked) && k < |asked|
    ensures accepts(queue[..k], queue[k]) <==> handled.Some? && k == |asked| - 1
  {
    assert asked[..k] == queue[..k] && asked[k] == queue[k];
    assert k < |asked| - 1 ==> asked[..|asked| - 1][..k] == queue[..k] && asked[..|asked| - 1][k] == queue[k];
  }

  /** The outcome is determined by the queue and the answers. */
  lemma OutcomeUnique(queue: seq<Handler>, accepts: Answer, h: Option<Handler>, a: seq<Handler>, h': Option<Handler>,
                      a': seq<Handler>)
    requires Outcome(queue, accepts, h, a) && Outcome(queue, accepts, h', a')
    ensures h == h' && a == a'
  {
    var n := if |a| < |a'| then |a| else |a'|;
    if n > 0 {
      OutcomeAt(queue, accepts, h, a, n - 1);
      OutcomeAt(queue, accepts, h', a', n - 1);
    }
    assert a == queue[..|a|] && a' == queue[..|a'|];
  }

  lemma {:induction false} OccurrencesFirst(list: seq<Handler>, handler: Handler)
    ensures if handler in list then Occurrences(list, handler) != [] && Occurrences(list, handler)[0] == handler
            else Occurrences(list, handler) == []
  {
    if list != [] {
      OccurrencesFirst(list[1..], handler);
    }
  }

  /** A registered handler that requested the attribute and accepts it gets it, and no other is asked. */
  lemma RequesterFirst(handlers: seq<Handler>, handler: Handler, accepts: Answer, handled: Option<Handler>,
                       asked: seq<Handler>)
    requires Outcome(Queue(handlers, handler), accepts, handled, asked)
    requires handler in handlers && accepts([], handler)
    ensures handled == Some(handler) && asked == [handler]
  {
    OccurrencesFirst(handlers, handler);
    assert [handler][..0] == [];
    assert [handler] <= Queue(handlers, handler);
    OutcomeUnique(Queue(handlers, handler), accepts, handled, asked, Some(handler), [handler]);
  }

  /** The queue is the requesting handler, as often as it is registered, and then every handler. */
  lemma {:induction false} OccurrencesAre(list: seq<Handler>, handler: Handler)
    ensures Occurrences(list, handler) == seq(multiset(list)[handler], _ => handler)
  {
    if list != [] {
      OccurrencesAre(list[1..], handler);
      assert list == [list[0]] + list[1..];
    }
  }

  /**
    If no handler is returned, every registered handler has been asked, in order
    and last of all, and before them only the one that requested the attribute;
    each of them refused.
   */
  lemma AllAskedIfUnhandled(handlers: seq<Handler>, handler: Handler, accepts: Answer, asked: seq<Handler>)
    requires Outcome(Queue(handlers, handler), accepts, None, asked)
    ensures var n := multiset(handlers)[handler];
      && |asked| == n + |handlers|
      && asked[n..] == handlers
      && (forall k :: 0 <= k < n ==> asked[k] == handler)
      && (forall k :: 0 <= k < |asked| ==> !accepts(asked[..k], asked[k]))
  {
    OccurrencesAre(handlers, handler);
  }

  lemma FirstOfQueue(queue: seq<Handler>, accepts: Answer, handled: Option<Handler>, asked: seq<Handler>, i: nat)
    requires Outcome(queue, accepts, handled, asked) && i < |queue| && accepts(queue[..i], queue[i])
    requires forall j :: 0 <= j < i ==> !accepts(queue[..j], queue[j])
    ensures handled == Some(queue[i]) && asked == queue[..i + 1]
  {
    OutcomeAt(queue, accepts, handled, asked, if i < |asked| then i else |asked| - 1);
  }

  /** If the handler that requested the attribute is not registered, the first of the list that accepts is returned. */
  lemma FirstAcceptingGetsIt(handlers: seq<Handler>, handler: Handler, accepts: Answer, handled: Option<Handler>,
                             asked: seq<Handler>, i: nat)
    requires Outcome(Queue(handlers, handler), accepts, handled, asked) && handler !in handlers
    requires i < |handlers| && accepts(handlers[..i], handlers[i])
    requires forall j :: 0 <= j < i ==> !accepts(handlers[..j], handlers[j])
    ensures handled == Some(handlers[i]) && asked == handlers[..i + 1]
  {
    OccurrencesFirst(handlers, handler);
    assert [] + handlers == handlers;
    FirstOfQueue(handlers, accepts, handled, asked, i);
  }

  /** An attribute goes unhandled exactly if all refuse that are asked then. */
  lemma UnhandledIffAllRefuse(handlers: seq<Handler>, handler: Handler, accepts: Answer, handled: Option<Handler>,
                              asked: seq<Handler>)
    requires Outcome(Queue(handlers, handler), accepts, handled, asked)
    ensures handled.None? <==> AllRefused(seq(multiset(handlers)[handler], _ => handler) + handlers, accepts)
  {
    OccurrencesAre(handlers, handler);
    var queue := Queue(handlers, handler);
    if AllRefused(queue, accepts) {
      OutcomeUnique(queue, accepts, handled, asked, None, queue);
    }
  }

  /** If answers depend on the handler alone, no handler is returned exactly if every registered handler refuses. */
  lemma UnhandledIffEachRefuses(handlers: seq<Handler>, handler: Handler, accepts: Answer, handled: Option<Handler>,
                                asked: seq<Handler>)
    requires Outcome(Queue(handlers, handler), accepts, handled, asked)
    requires forall before, h :: accepts(before, h) == accepts([], h)
    ensures handled.None? <==> forall h :: h in handlers ==> !accepts([], h)
  {
    OccurrencesAre(handlers, handler);
    var queue, n := Queue(handlers, handler), multiset(handlers)[handler];
    assert forall h :: h in queue <==> h in handlers;
    if handled.None? {
      forall h | h in handlers ensures !accepts([], h) {
        var k :| 0 <= k < |queue| && queue[k] == h;
        assert !accepts(asked[..k], asked[k]);
      }
    } else {
      assert asked[|asked| - 1] == queue[|asked| - 1] && queue[|asked| - 1] in queue;
    }
  }

  /** Where asking handlers has got to. */
  ghost predicate Progress(handled: Option<Handler>, asked: seq<Handler>, accepts: Answer) {
    if handled.None? then AllRefused(asked, accepts)
    else Accepted(asked, accepts) && handled.value == asked[|asked| - 1]
  }

  /** Offer the attribute to one more handler. */
  method Ask(handler: Handler, before: seq<Handler>, accepts: Answer)
    returns (handled: Option<Handler>, asked: seq<Handler>)
    requires AllRefused(before, accepts)
    ensures asked == before + [handler] && Progress(handled, asked, accepts)
  {
    asked := before + [handler];
    assert forall k :: 0 <= k <= |before| ==> asked[..k] == before[..k];
    assert before[..|before|] == before;
    handled := if accepts(before, handler) then Some(handler) else None;
  }

  class Manager {
    var handlers: seq<Handler>

    constructor ()
      ensures handlers == []
    {
      handlers := [];
    }

    /** Ask the handlers in the queue until one accepts; `asked` is who was asked. */
    method Handle(handler: Handler, accepts: Answer) returns (handled: Option<Handler>, asked: seq<Handler>)
      ensures Outcome(Queue(handlers, handler), accepts, handled, asked)
      ensures Outcome(seq(multiset(handlers)[handler], _ => handler) + handlers, accepts, handled, asked)
    {
      OccurrencesAre(handlers, handler);
      asked, handled := [], None;
      var i := 0;
      while i < |handlers| && handled.None?
        invariant i <= |handlers| && Progress(handled, asked, accepts)
        invariant asked + Occurrences(handlers[i..], handler) == Occurrences(handlers, handler)
        decreases |handlers| - i, handled.None?
      {
        assert handlers[i..][1..] == handlers[i + 1..];
        if handlers[i] == handler {
          Associative(asked, [handler], Occurrences(handlers[i + 1..], handler));
          handled, asked := Ask(handlers[i], asked, accepts);
        }
        i := i + 1;
      }
      if handled.None? {
        assert handlers[|handlers|..] == [] && asked == Occurrences(handlers, handler);
        i := 0;
        while i < |handlers| && handled.None?
          invariant i <= |handlers| && Progress(handled, asked, accepts)
          invariant asked == Occurrences(handlers, handler) + handlers[..i]
          decreases |handlers| - i, handled.None?
        {
          Associative(Occurrences(handlers, handler), handlers[..i], [handlers[i]]);
          assert handlers[..i] + [handlers[i]] == handlers[..i + 1];
          handled, asked := Ask(handlers[i], asked, accepts);
          i := i + 1;
        }
      }
    }
  }
}
