/** The conftest hook that reorders the payloads of a message (unsort_message.c), with the message it works on. */
module UnsortMessage {
  import opened Wrappers
  import opened Sequences

  const PL_NONE := 0

  class Payload {
    const kind: int
    /** The kind of the payload that follows in the message. */
    var nextType: int

    constructor (kind: int)
      ensures this.kind == kind && nextType == PL_NONE
    {
      this.kind := kind;
      nextType := PL_NONE;
    }
  }

  /** What enum_from_name makes of a name: a payload type, or nothing for an unknown name. */
  type Naming = string -> Option<int>

  // ---------- the order asked for ----------

  function OfKind(list: seq<Payload>, kind: int): seq<Payload> {
    if list == [] then []
    else if list[0].kind == kind then [list[0]] + OfKind(list[1..], kind)
    else OfKind(list[1..], kind)
  }

  function WithoutKind(list: seq<Payload>, kind: int): seq<Payload> {
    if list == [] then []
    else if list[0].kind == kind then WithoutKind(list[1..], kind)
    else [list[0]] + WithoutKind(list[1..], kind)
  }

  /** The payloads of the kinds named, name by name, and then the others. */
  function Reordered(list: seq<Payload>, order: seq<string>, naming: Naming): seq<Payload>
    decreases |order|
  {
    if order == [] then list
    else match naming(order[0])
      case None => Reordered(list, order[1..], naming)
      case Some(kind) => OfKind(list, kind) + Reordered(WithoutKind(list, kind), order[1..], naming)
  }

  /** The position of the first name for the kind, or the number of names if there is none. */
  function Rank(kind: int, order: seq<string>, naming: Naming): (r: nat)
    ensures r <= |order|
    ensures r < |order| ==> naming(order[r]) == Some(kind)
    ensures forall i :: 0 <= i < r ==> naming(order[i]) != Some(kind)
  {
    if order == [] || naming(order[0]) == Some(kind) then 0 else 1 + Rank(kind, order[1..], naming)
  }

  /** The payloads of one rank, in order; the rank |order| is that of the payloads no name mentions. */
  function OfRank(list: seq<Payload>, rank: int, order: seq<string>, naming: Naming): seq<Payload> {
    if list == [] then []
    else if Rank(list[0].kind, order, naming) == rank then [list[0]] + OfRank(list[1..], rank, order, naming)
    else OfRank(list[1..], rank, order, naming)
  }

  predicate SortedByRank(list: seq<Payload>, order: seq<string>, naming: Naming) {
    forall i, j :: 0 <= i < j < |list| ==>
      Rank(list[i].kind, order, naming) <= Rank(list[j].kind, order, naming)
  }

  lemma {:induction false} OfRankConcat(a: seq<Payload>, b: seq<Payload>, rank: int, order: seq<string>, naming: Naming)
    ensures OfRank(a + b, rank, order, naming) == OfRank(a, rank, order, naming) + OfRank(b, rank, order, naming)
  {
    if a == [] {
      assert a + b == b;
    } else {
      OfRankConcat(a[1..], b, rank, order, naming);
      assert (a + b)[1..] == a[1..] + b;
      Associative([a[0]], OfRank(a[1..], rank, order, naming), OfRank(b, rank, order, naming));
    }
  }

  lemma {:induction false} Partition(list: seq<Payload>, kind: int)
    ensures multiset(list) == multiset(OfKind(list, kind)) + multiset(WithoutKind(list, kind))
  {
    if list != [] {
      Partition(list[1..], kind);
      assert list == [list[0]] + list[1..];
    }
  }

  lemma {:induction false} PartitionKinds(list: seq<Payload>, kind: int)
    ensures forall i :: 0 <= i < |OfKind(list, kind)| ==> OfKind(list, kind)[i].kind == kind
    ensures forall i :: 0 <= i < |WithoutKind(list, kind)| ==> WithoutKind(list, kind)[i].kind != kind
  {
    if list != [] {
      PartitionKinds(list[1..], kind);
    }
  }

  /** What the first name does to the payloads of one rank. */
  lemma {:induction false} FirstName(list: seq<Payload>, rank: int, order: seq<string>, naming: Naming, kind: int)
    requires order != [] && naming(order[0]) == Some(kind)
    ensures OfRank(OfKind(list, kind), rank, order, naming) == if rank == 0 then OfKind(list, kind) else []
    ensures OfRank(list, rank, order, naming) ==
      if rank == 0 then OfKind(list, kind) else OfRank(WithoutKind(list, kind), rank - 1, order[1..], naming)
  {
    if list != [] {
      FirstName(list[1..], rank, order, naming, kind);
    }
  }

  /** Without payloads of the first name's kind, or with an unknown first name, the first name only shifts the ranks. */
  lemma {:induction false} ShiftRanks(list: seq<Payload>, rank: int, order: seq<string>, naming: Naming)
    requires order != [] && forall i :: 0 <= i < |list| ==> naming(order[0]) != Some(list[i].kind)
    ensures OfRank(list, rank, order, naming) == OfRank(list, rank - 1, order[1..], naming)
  {
    if list != [] {
      ShiftRanks(list[1..], rank, order, naming);
    }
  }

  lemma {:induction false} ReorderedPermutes(list: seq<Payload>, order: seq<string>, naming: Naming)
    ensures multiset(Reordered(list, order, naming)) == multiset(list)
    decreases |order|
  {
    if order != [] {
      match naming(order[0])
      case None => ReorderedPermutes(list, order[1..], naming);
      case Some(kind) =>
        ReorderedPermutes(WithoutKind(list, kind), order[1..], naming);
        Partition(list, kind);
    }
  }

  lemma ReorderedMembers(list: seq<Payload>, order: seq<string>, naming: Naming, kind: int, r: seq<Payload>)
    requires forall i :: 0 <= i < |list| ==> list[i].kind != kind
    requires r == Reordered(list, order, naming)
    ensures forall i :: 0 <= i < |r| ==> r[i].kind != kind
  {
    ReorderedPermutes(list, order, naming);
    forall i | 0 <= i < |r| ensures r[i].kind != kind {
      assert r[i] in multiset(list);
    }
  }

  lemma {:induction false} ReorderedSorted(list: seq<Payload>, order: seq<string>, naming: Naming)
    ensures SortedByRank(Reordered(list, order, naming), order, naming)
    decreases |order|
  {
    if order != [] {
      match naming(order[0])
      case None => ReorderedSorted(list, order[1..], naming);
      case Some(kind) =>
        var rest := WithoutKind(list, kind);
        PartitionKinds(list, kind);
        ReorderedSorted(rest, order[1..], naming);
        var tail := Reordered(rest, order[1..], naming);
        ReorderedMembers(rest, order[1..], naming, kind, tail);
        forall i | 0 <= i < |tail|
          ensures Rank(tail[i].kind, order, naming) == 1 + Rank(tail[i].kind, order[1..], naming)
        {
        }
    }
  }

  lemma {:induction false} ReorderedKeepsRank(list: seq<Payload>, rank: int, order: seq<string>, naming: Naming)
    ensures OfRank(Reordered(list, order, naming), rank, order, naming) == OfRank(list, rank, order, naming)
    decreases |order|
  {
    if order != [] {
      match naming(order[0])
      case None =>
        ReorderedKeepsRank(list, rank - 1, order[1..], naming);
        ShiftRanks(list, rank, order, naming);
        ShiftRanks(Reordered(list, order[1..], naming), rank, order, naming);
      case Some(kind) =>
        var rest := WithoutKind(list, kind);
        var r := Reordered(rest, order[1..], naming);
        PartitionKinds(list, kind);
        ReorderedMembers(rest, order[1..], naming, kind, r);
        OfRankConcat(OfKind(list, kind), r, rank, order, naming);
        FirstName(list, rank, order, naming, kind);
        ShiftRanks(r, rank, order, naming);
        ReorderedKeepsRank(rest, rank - 1, order[1..], naming);
        if rank == 0 {
          NoNegativeRank(r, order[1..], naming);
        }
    }
  }

  lemma {:induction false} NoNegativeRank(list: seq<Payload>, order: seq<string>, naming: Naming)
    ensures OfRank(list, -1, order, naming) == []
  {
    if list != [] {
      NoNegativeRank(list[1..], order, naming);
    }
  }

  ghost predicate SameByRank(a: seq<Payload>, b: seq<Payload>, order: seq<string>, naming: Naming) {
    forall rank {:trigger OfRank(a, rank, order, naming)} {:trigger OfRank(b, rank, order, naming)} ::
      OfRank(a, rank, order, naming) == OfRank(b, rank, order, naming)
  }

  lemma {:induction false} OfRankMember(list: seq<Payload>, rank: int, order: seq<string>, naming: Naming)
    ensures forall i :: 0 <= i < |OfRank(list, rank, order, naming)| ==>
      var p := OfRank(list, rank, order, naming)[i]; p in list && Rank(p.kind, order, naming) == rank
  {
    if list != [] {
      OfRankMember(list[1..], rank, order, naming);
    }
  }

  /** No payload of a sorted list has a lower rank than the first. */
  lemma FirstIsLowest(list: seq<Payload>, rank: int, order: seq<string>, naming: Naming)
    requires SortedByRank(list, order, naming) && OfRank(list, rank, order, naming) != []
    ensures list != [] && Rank(list[0].kind, order, naming) <= rank
  {
    OfRankMember(list, rank, order, naming);
    var p := OfRank(list, rank, order, naming)[0];
    var i :| 0 <= i < |list| && list[i] == p;
  }

  lemma {:induction false} StableSortIsUnique(a: seq<Payload>, b: seq<Payload>, order: seq<string>, naming: Naming)
    requires SortedByRank(a, order, naming) && SortedByRank(b, order, naming) && SameByRank(a, b, order, naming)
    ensures a == b
  {
    assert b != [] ==> OfRank(b, Rank(b[0].kind, order, naming), order, naming) != [];
    if a != [] {
      var rank := Rank(a[0].kind, order, naming);
      FirstIsLowest(b, rank, order, naming);
      FirstIsLowest(a, Rank(b[0].kind, order, naming), order, naming);
      assert OfRank(a, rank, order, naming)[0] == a[0] && OfRank(b, rank, order, naming)[0] == b[0];
      forall k ensures OfRank(a[1..], k, order, naming) == OfRank(b[1..], k, order, naming) {
        assert OfRank(a, k, order, naming) == OfRank(b, k, order, naming);
        if k == rank {
          assert OfRank(a, k, order, naming)[1..] == OfRank(a[1..], k, order, naming);
          assert OfRank(b, k, order, naming)[1..] == OfRank(b[1..], k, order, naming);
        }
      }
      StableSortIsUnique(a[1..], b[1..], order, naming);
      assert a == [a[0]] + a[1..] && b == [b[0]] + b[1..];
    }
  }

  /** The reordered list is the stable sort by first mention, and the only one. */
  lemma ReorderedIffStableSort(list: seq<Payload>, order: seq<string>, naming: Naming, r: seq<Payload>)
    ensures r == Reordered(list, order, naming) <==>
      SortedByRank(r, order, naming) && SameByRank(r, list, order, naming)
  {
    var sorted := Reordered(list, order, naming);
    ReorderedSorted(list, order, naming);
    forall rank ensures OfRank(sorted, rank, order, naming) == OfRank(list, rank, order, naming) {
      ReorderedKeepsRank(list, rank, order, naming);
    }
    if SortedByRank(r, order, naming) && SameByRank(r, list, order, naming) {
      forall rank ensures OfRank(r, rank, order, naming) == OfRank(sorted, rank, order, naming) {
        assert OfRank(r, rank, order, naming) == OfRank(list, rank, order, naming);
      }
      StableSortIsUnique(r, sorted, order, naming);
    }
  }

  // ---------- the message and the hook ----------

  class Message {
    const request: bool
    const id: nat
    var payloads: seq<Payload>
    /** The kind of the first payload. */
    var firstPayload: int
    var sortDisabled: bool

    constructor (request: bool, id: nat)
      ensures this.request == request && this.id == id && payloads == [] && !sortDisabled
    {
      this.request := request;
      this.id := id;
      payloads := [];
      firstPayload := PL_NONE;
      sortDisabled := false;
    }

    /** Every payload is in the message once and names the kind of the one that follows. */
    ghost predicate Chained()
      reads this, payloads
    {
      && NoDuplicates(payloads)
      && (payloads != [] ==> firstPayload == payloads[0].kind)
      && (forall i {:trigger payloads[i].nextType} :: 0 <= i < |payloads| - 1 ==>
        payloads[i].nextType == payloads[i + 1].kind)
      && (payloads != [] ==> payloads[|payloads| - 1].nextType == PL_NONE)
    }

    method AddPayload(payload: Payload)
      requires Chained() && payload !in payloads
      modifies this, payload, set p | p in payloads
      ensures Chained() && payloads == old(payloads) + [payload]
    {
      if |payloads| > 0 {
        payloads[|payloads| - 1].nextType := payload.kind;
      } else {
        firstPayload := payload.kind;
      }
      payload.nextType := PL_NONE;
      payloads := payloads + [payload];
    }

    method DisableSort()
      requires Chained()
      modifies this`sortDisabled
      ensures Chained() && sortDisabled
    {
      sortDisabled := true;
    }
  }

  class UnsortHook {
    const req: bool
    const id: int
    /** The tokens of the configured order. */
    const order: seq<string>

    constructor (req: bool, id: int, order: seq<string>)
      ensures this.req == req && this.id == id && this.order == order
    {
      this.req := req;
      this.id := id;
      this.order := order;
    }

    /** The hook is for this message; the message id is compared as an unsigned 32-bit number. */
    predicate Applies(message: Message, incoming: bool, plain: bool) {
      !incoming && plain && message.request == req && message.id == id % 0x1_0000_0000
    }

    /** Move the payloads of the kind from the list to the message. */
    method MoveKind(list: seq<Payload>, kind: int, message: Message) returns (rest: seq<Payload>)
      requires message.Chained() && NoDuplicates(list) && forall p :: p in list ==> p !in message.payloads
      modifies message, (set p | p in message.payloads), (set p | p in list)
      ensures message.Chained()
      ensures message.payloads == old(message.payloads) + OfKind(list, kind) && rest == WithoutKind(list, kind)
      ensures NoDuplicates(rest) && forall p :: p in rest ==> p in list && p !in message.payloads
      ensures forall p :: p in message.payloads ==> p in old(message.payloads) || p in list
    {
      rest := list;
      var i := 0;
      while i < |rest|
        invariant i <= |rest| && message.Chained()
        invariant NoDuplicates(rest) && forall p :: p in rest ==> p in list && p !in message.payloads
        invariant forall p :: p in message.payloads ==> p in old(message.payloads) || p in list
        invariant message.payloads + OfKind(rest[i..], kind) == old(message.payloads) + OfKind(list, kind)
        invariant rest[..i] + WithoutKind(rest[i..], kind) == WithoutKind(list, kind)
        decreases |rest| - i
      {
        var payload := rest[i];
        assert payload in list;
        assert rest[i..][1..] == rest[i + 1..];
        if payload.kind == kind {
          var next := rest[..i] + rest[i + 1..];
          assert next[..i] == rest[..i] && next[i..] == rest[i + 1..];
          Associative(message.payloads, [payload], OfKind(rest[i + 1..], kind));
          rest := next;
          message.AddPayload(payload);
        } else {
          assert rest[..i] + [payload] == rest[..i + 1];
          Associative(rest[..i], [payload], WithoutKind(rest[i + 1..], kind));
          i := i + 1;
        }
      }
    }

    /** Move the payloads of the kinds named to the message, name by name; unknown names are skipped. */
    method MoveNamed(list: seq<Payload>, message: Message, naming: Naming) returns (rest: seq<Payload>)
      requires message.Chained() && NoDuplicates(list) && forall p :: p in list ==> p !in message.payloads
      modifies message, (set p | p in message.payloads), (set p | p in list)
      ensures message.Chained() && NoDuplicates(rest) && forall p :: p in rest ==> p in list && p !in message.payloads
      ensures forall p :: p in message.payloads ==> p in old(message.payloads) || p in list
      ensures message.payloads + rest == old(message.payloads) + Reordered(list, order, naming)
    {
      rest := list;
      for i := 0 to |order|
        invariant message.Chained() && NoDuplicates(rest)
        invariant forall p :: p in rest ==> p in list && p !in message.payloads
        invariant forall p :: p in message.payloads ==> p in old(message.payloads) || p in list
        invariant message.payloads + Reordered(rest, order[i..], naming)
               == old(message.payloads) + Reordered(list, order, naming)
      {
        assert order[i..][1..] == order[i + 1..];
        match naming(order[i])
        case Some(kind) =>
          Associative(message.payloads, OfKind(rest, kind), Reordered(WithoutKind(rest, kind), order[i + 1..], naming));
          rest := MoveKind(rest, kind, message);
        case None =>
      }
      assert order[|order|..] == [];
    }

    /** Move the payloads that are left to the message. */
    method MoveRest(rest: seq<Payload>, message: Message)
      requires message.Chained() && NoDuplicates(rest) && forall p :: p in rest ==> p !in message.payloads
      modifies message, (set p | p in message.payloads), (set p | p in rest)
      ensures message.Chained() && message.payloads == old(message.payloads) + rest
    {
      var list := rest;
      while list != []
        invariant message.Chained() && NoDuplicates(list)
        invariant forall p :: p in list ==> p in rest && p !in message.payloads
        invariant forall p :: p in message.payloads ==> p in old(message.payloads) || p in rest
        invariant message.payloads + list == old(message.payloads) + rest
      {
        var payload := list[0];
        assert payload in rest;
        list := list[1..];
        message.AddPayload(payload);
      }
    }

    /** Move all payloads of the message to a list. */
    method TakePayloads(message: Message) returns (list: seq<Payload>)
      modifies message`payloads
      ensures list == old(message.payloads) && message.payloads == []
    {
      list := [];
      while |message.payloads| > 0
        invariant list + message.payloads == old(message.payloads)
      {
        list := list + [message.payloads[0]];
        message.payloads := message.payloads[1..];
      }
    }

    /** Put the payloads of the message in the order configured, if the hook is for this message. */
    method OnMessage(message: Message, incoming: bool, plain: bool, naming: Naming) returns (keep: bool)
      requires message.Chained()
      modifies message, set p | p in message.payloads
      ensures keep && message.Chained()
      ensures !incoming && plain && message.request == req && message.id == id % 0x1_0000_0000 ==>
        message.payloads == Reordered(old(message.payloads), order, naming) && message.sortDisabled
      ensures incoming || !plain || message.request != req || message.id != id % 0x1_0000_0000 ==>
        unchanged(message) && forall p :: p in message.payloads ==> unchanged(p)
    {
      if Applies(message, incoming, plain) {
        var list := TakePayloads(message);
        var rest := MoveNamed(list, message, naming);
        MoveRest(rest, message);
        message.DisableSort();
      }
      keep := true;
    }
  }
}
