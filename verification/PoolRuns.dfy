/**
  What the invariant of the lease table means for the users of the pool: who
  holds which address, when the pool is exhausted, and what a whole run of
  acquires and releases conserves.
 */
module PoolRuns {
  import opened Wrappers
  import opened PoolAddress
  import opened PoolLeases

  function OnlineCount(s: Leases, id: Id, offset: nat): nat {
    Count(s.Of(id).online, offset)
  }

  /** The offset an acquire obtains, 0 if it obtains none. */
  function Obtained(g: Geometry, hash: Hash, s: Leases, c: Call): nat
    requires c.Acquire?
  {
    if g.Size() == 0 || !SameFamily(c.requested.address, g.base.address) then 0
    else AcquireOffset(g, hash, s, c).1
  }

  lemma OnlineIffCounted(s: Leases, id: Id, o: nat)
    ensures OnlineCount(s, id, o) > 0 <==> id in s.table && IsOnline(s.table[id], o)
  {
    CountPositive(s.Of(id).online, o);
  }

  /** No address is ever online for two identities, or online and offline at once. */
  lemma NoAddressTwice(g: Geometry, s: Leases, id: Id, id': Id, o: nat)
    requires Inv(g, s) && OnlineCount(s, id, o) > 0
    ensures OnlineCount(s, id', o) > 0 ==> id == id'
    ensures o !in s.Of(id').offline
    ensures g.Assignable(o)
  {
    OnlineIffCounted(s, id, o);
    OnlineIffCounted(s, id', o);
    assert Owns(s, id, o);
    if OnlineCount(s, id', o) > 0 || o in s.Of(id').offline {
      assert Owns(s, id', o);
    }
  }

  // ---------- one step ----------

  lemma TakeOfflineKeepsOnline(s: Leases, v: Id, id: Id)
    requires v in s.table
    ensures s.(table := TakeOffline(s.table, v).0).Of(id).online == s.Of(id).online
    ensures s.(table := TakeOffline(s.table, v).0).Of(id).offline ==
            if id == v && s.Of(v).offline != [] then s.Of(v).offline[1..] else s.Of(id).offline
  {
  }

  /** A reassignment takes the oldest offline lease of some identity `v` and puts it online for the caller. */
  lemma ReassignEffect(g: Geometry, hash: Hash, s: Leases, c: Call) returns (v: Id)
    requires Inv(g, s) && c.Acquire? && c.mode == REASSIGN && Obtained(g, hash, s, c) != 0
    ensures var s', o := Step(g, hash, s, c), Obtained(g, hash, s, c);
      && s.Of(v).offline != [] && s.Of(v).offline[0] == o && Owns(s, v, o) && Owns(s', c.id, o)
      && (forall id :: s'.Of(id).offline == if id == v then s.Of(v).offline[1..] else s.Of(id).offline)
      && (forall id, p :: OnlineCount(s', id, p) == OnlineCount(s, id, p) + if id == c.id && p == o then 1 else 0)
  {
    var (rest, o) := TakeAnyOffline(s.table, c.order);
    TakeAnyOfflineLoosens(g, s, c.order);
    v :| v in s.table && s.table[v].offline != [] && TakeOffline(s.table, v) == (rest, o);
    assert Holds(s.table[v], o);
    forall id {
      TakeOfflineKeepsOnline(s, v, id);
    }
    OnlineEffect(s.(table := rest), c.id, Lease(o, HashOf(hash, c.peer)));
  }

  /** An acquire obtains nothing and changes nothing, or puts exactly one offset it owns online. */
  lemma AcquireEffect(g: Geometry, hash: Hash, s: Leases, c: Call)
    requires Inv(g, s) && c.Acquire?
    ensures var s', o := Step(g, hash, s, c), Obtained(g, hash, s, c);
      if o == 0 then s' == s
      else
        && Owns(s', c.id, o)
        && (forall id, p :: OnlineCount(s', id, p) == OnlineCount(s, id, p) + if id == c.id && p == o then 1 else 0)
  {
    var s', o := Step(g, hash, s, c), Obtained(g, hash, s, c);
    StepKeepsInv(g, hash, s, c);
    if g.Size() != 0 && SameFamily(c.requested.address, g.base.address) {
      match c.mode
      case OTHER =>
      case EXISTING => ExistingEffect(g, hash, s, c);
      case NEW =>
        if o != 0 {
          OnlineEffect(s.(unused := s.unused + 1), c.id, Lease(o, HashOf(hash, c.peer)));
        }
      case REASSIGN =>
        TakeAnyOfflineLoosens(g, s, c.order);
        if o != 0 {
          var v := ReassignEffect(g, hash, s, c);
        }
    }
  }

  lemma OnlineEffect(s: Leases, id: Id, lease: Lease)
    ensures var s' := Online(s, id, lease);
      && Owns(s', id, lease.offset)
      && (forall i, p :: OnlineCount(s', i, p) == OnlineCount(s, i, p) + if i == id && p == lease.offset then 1 else 0)
  {
    var s' := Online(s, id, lease);
    assert s'.table[id].online[|s.Of(id).online|].offset == lease.offset;
    forall p {
      CountAppend(s.Of(id).online, lease, p);
    }
  }

  lemma ExistingEffect(g: Geometry, hash: Hash, s: Leases, c: Call)
    requires g.Block? && Inv(g, s) && c.Acquire?
    ensures var (s', o) := GetExisting(g, hash, s, c.id, c.requested, c.peer);
      if o == 0 then s' == s
      else
        && Owns(s', c.id, o)
        && (forall id, p :: OnlineCount(s', id, p) == OnlineCount(s, id, p) + if id == c.id && p == o then 1 else 0)
  {
    var (s', o) := GetExisting(g, hash, s, c.id, c.requested, c.peer);
    if c.id in s.table {
      var e := s.table[c.id];
      ShareableIsRecord(e.online, HostToOffset(g, c.requested.address), HashOf(hash, c.peer));
      if s' != s {
        var lease := s'.table[c.id].online[|e.online|];
        assert s'.table[c.id].online == e.online + [lease];
        assert lease.offset == o;
        assert Holds(e, o);
        assert Owns(s, c.id, o);
        assert IsOnline(s'.table[c.id], o);
        forall p {
          CountAppend(e.online, lease, p);
        }
      }
    }
  }

  /** A release that finds the lease takes away exactly one online record of it. */
  lemma ReleaseEffect(g: Geometry, s: Leases, c: Call)
    requires Inv(g, s) && c.Release?
    ensures var (s', found) := ReleaseAddress(g, s, c);
      if !found then s' == s
      else
        && g.Block?
        && var o := HostToOffset(g, c.address.address);
          forall id, p :: OnlineCount(s, id, p) == OnlineCount(s', id, p) + if id == c.id && p == o then 1 else 0
  {
    if g.Size() != 0 && c.id in s.table {
      var e, o := s.table[c.id], HostToOffset(g, c.address.address);
      if Count(e.online, o) == 0 {
        RemoveNothing(e.online, o);
        assert s.table[c.id := e] == s.table;
      } else {
        forall p {
          CountRemoveFirst(e.online, o, p);
        }
      }
    }
  }

  // ---------- what is recorded, and re-authentication ----------

  lemma ReassignRecords(g: Geometry, hash: Hash, s: Leases, c: Call)
    requires Inv(g, s) && c.Acquire? && c.mode == REASSIGN && Obtained(g, hash, s, c) != 0
    ensures var s', lease := Step(g, hash, s, c), Lease(Obtained(g, hash, s, c), HashOf(hash, c.peer));
      forall id :: s'.Of(id).online == if id == c.id then s.Of(id).online + [lease] else s.Of(id).online
  {
    TakeAnyOfflineLoosens(g, s, c.order);
    var (rest, o) := TakeAnyOffline(s.table, c.order);
    var v :| v in s.table && TakeOffline(s.table, v) == (rest, o);
    forall id {
      TakeOfflineKeepsOnline(s, v, id);
    }
  }

  /** The address an acquire returns is recorded last for its identity, with the hash of the peer, or 0 without one. */
  lemma AcquireRecords(g: Geometry, hash: Hash, s: Leases, c: Call)
    requires Inv(g, s) && g.WellFormed() && g.Size() != 0 && c.Acquire?
    ensures var (s', r) := AcquireAddress(g, hash, s, c);
      && (r.None? ==> s' == s)
      && (r.Some? ==>
            && g.Serves(r.value.address) && r.value.port == 0
            && s'.Of(c.id).online == s.Of(c.id).online
                 + [Lease(OffsetOf(g, r.value.address), match c.peer case None => 0 case Some(p) => hash(p))]
            && forall id :: id != c.id ==> s'.Of(id).online == s.Of(id).online)
  {
    if c.requested.address.V4? == g.base.address.V4? {
      ObtainedHasAddress(g, hash, s, c);
      AcquireEffect(g, hash, s, c);
      var o := Obtained(g, hash, s, c);
      if o != 0 {
        OffsetHasAddress(g, o);
        match c.mode
        case EXISTING =>
          var e := s.table[c.id];
          ShareableIsRecord(e.online, HostToOffset(g, c.requested.address), HashOf(hash, c.peer));
        case REASSIGN => ReassignRecords(g, hash, s, c);
        case NEW =>
      }
    }
  }

  /**
    A peer that asks again for the address it has just been given gets it, in a
    pool that ends below the top address, if no lease of the identity is offline.
   */
  lemma ReauthenticationSucceeds(g: Geometry, hash: Hash, s: Leases, c: Call, requested: Host, order: seq<Id>)
    requires Inv(g, s) && g.WellFormed() && g.EndsBelowTop() && g.Size() != 0 && c.Acquire? && c.peer.Some?
    requires var (s', r) := AcquireAddress(g, hash, s, c);
      r.Some? && requested.address == r.value.address && s'.Of(c.id).offline == []
    ensures var (s', r) := AcquireAddress(g, hash, s, c);
      AcquireAddress(g, hash, s', Acquire(c.id, requested, EXISTING, c.peer, order)).1 == r
  {
    var (s', r) := AcquireAddress(g, hash, s, c);
    AcquireRecords(g, hash, s, c);
    var o := OffsetOf(g, r.value.address);
    ServedOffset(g, r.value.address);
    RoundTripIffEndsBelowTop(g);
    assert HostToOffset(g, OffsetToHost(g, o).value.address) == o;
    var online, record := s'.Of(c.id).online, Lease(o, hash(c.peer.value));
    assert online[|online| - 1] == record && record in online;
    ShareableIsRecord(online, o, hash(c.peer.value));
  }

  /** An empty pool passes requests through, another family and an unknown mode are refused; nothing is recorded. */
  lemma NothingRecorded(g: Geometry, hash: Hash, s: Leases, c: Call)
    ensures g.Size() == 0 && c.Acquire? ==> AcquireAddress(g, hash, s, c) == (s, Some(c.requested))
    ensures g.Size() == 0 && c.Release? ==> ReleaseAddress(g, s, c) == (s, false)
    ensures g.Size() != 0 && c.Acquire? && (c.requested.address.V4? != g.base.address.V4? || c.mode == OTHER) ==>
      AcquireAddress(g, hash, s, c) == (s, None)
  {
  }

  // ---------- when the pool is exhausted ----------

  ghost predicate AllOnline(g: Geometry, s: Leases) {
    forall o :: g.Assignable(o) ==> exists id :: OnlineCount(s, id, o) > 0
  }

  /** The peer already holds the requested address online and may share it. */
  ghost predicate Reauthenticates(g: Geometry, hash: Hash, s: Leases, id: Id, requested: Host, peer: Option<Host>)
    requires g.Block?
  {
    && peer.Some?
    && Lease(HostToOffset(g, requested.address), hash(peer.value)) in s.Of(id).online
  }

  /** The hashtable's enumerator yields every entry. */
  ghost predicate Enumerates(order: seq<Id>, table: map<Id, Entry>) {
    forall id :: id in table ==> id in order
  }

  lemma NothingOfflineIfAllOnline(g: Geometry, s: Leases, id: Id)
    requires Inv(g, s) && AllOnline(g, s)
    ensures s.Of(id).offline == []
  {
    if s.Of(id).offline != [] {
      var o := s.Of(id).offline[0];
      assert Owns(s, id, o);
      assert HandedOut(g, s, o) && g.Assignable(o);
      var i :| OnlineCount(s, i, o) > 0;
      NoAddressTwice(g, s, i, id, o);
    }
  }

  /** NEW and REASSIGN have nothing left to give exactly if every assignable address is online. */
  lemma NothingLeftIffAllOnline(g: Geometry, s: Leases, order: seq<Id>)
    requires Inv(g, s) && Enumerates(order, s.table)
    ensures AllOnline(g, s) <==> s.unused == g.Size() && TakeAnyOffline(s.table, order).1 == 0
  {
    TakeAnyOfflineLoosens(g, s, order);
    if AllOnline(g, s) {
      forall i {
        NothingOfflineIfAllOnline(g, s, i);
      }
      forall i | i in s.table ensures s.table[i].offline == [] {
        assert s.Of(i).offline == [];
      }
      if s.unused < g.Size() {
        var o := g.Size() + g.Skip();
        assert g.Assignable(o);
        var i :| OnlineCount(s, i, o) > 0;
        OnlineIffCounted(s, i, o);
        assert Owns(s, i, o);
      }
    }
    if s.unused == g.Size() && TakeAnyOffline(s.table, order).1 == 0 {
      forall o | g.Assignable(o)
        ensures exists i :: OnlineCount(s, i, o) > 0
      {
        assert HandedOut(g, s, o);
        var i :| Owns(s, i, o);
        OnlineIffCounted(s, i, o);
      }
    }
  }

  lemma ObtainedHasAddress(g: Geometry, hash: Hash, s: Leases, c: Call)
    requires Inv(g, s) && c.Acquire? && g.WellFormed()
    requires g.Size() != 0 && SameFamily(c.requested.address, g.base.address)
    ensures var r, o := AcquireAddress(g, hash, s, c).1, Obtained(g, hash, s, c);
      && (r.Some? <==> o != 0)
      && (o != 0 ==> g.Assignable(o) && r == OffsetToHost(g, o) && g.Serves(r.value.address))
  {
    var o := Obtained(g, hash, s, c);
    AcquireEffect(g, hash, s, c);
    StepKeepsInv(g, hash, s, c);
    if o != 0 {
      OffsetHasAddress(g, o);
    }
  }

  /**
    The documented calling sequence EXISTING, NEW, REASSIGN fails exactly if
    every assignable address is online and the peer is not re-authenticating
    for one it holds; a failing sequence leaves the table as it was.
   */
  lemma ExhaustedIffAllOnline(g: Geometry, hash: Hash, s: Leases, id: Id, requested: Host, peer: Option<Host>,
                              order: seq<Id>)
    requires Inv(g, s) && g.WellFormed() && g.Size() != 0 && SameFamily(requested.address, g.base.address)
    requires Enumerates(order, s.table)
    ensures
      var c1 := Acquire(id, requested, EXISTING, peer, order);
      var c2 := c1.(mode := NEW);
      var c3 := c1.(mode := REASSIGN);
      var (s1, r1) := AcquireAddress(g, hash, s, c1);
      var (s2, r2) := AcquireAddress(g, hash, s1, c2);
      var (s3, r3) := AcquireAddress(g, hash, s2, c3);
      && (r1.None? && r2.None? && r3.None? <==>
          AllOnline(g, s) && !Reauthenticates(g, hash, s, id, requested, peer))
      && (r1.None? && r2.None? && r3.None? ==> s3 == s)
  {
    var c1 := Acquire(id, requested, EXISTING, peer, order);
    var c2, c3 := c1.(mode := NEW), c1.(mode := REASSIGN);
    ObtainedHasAddress(g, hash, s, c1);
    AcquireEffect(g, hash, s, c1);
    ObtainedHasAddress(g, hash, s, c2);
    AcquireEffect(g, hash, s, c2);
    ObtainedHasAddress(g, hash, s, c3);
    AcquireEffect(g, hash, s, c3);
    ExistingSucceedsIff(g, hash, s, c1);
    NothingLeftIffAllOnline(g, s, order);
    if AllOnline(g, s) {
      NothingOfflineIfAllOnline(g, s, id);
    }
  }

  /** EXISTING succeeds exactly with a lease of its own offline or for a re-authenticating peer. */
  lemma ExistingSucceedsIff(g: Geometry, hash: Hash, s: Leases, c: Call)
    requires Inv(g, s) && g.Block? && c.Acquire? && c.mode == EXISTING
    requires g.Size() != 0 && SameFamily(c.requested.address, g.base.address)
    ensures Obtained(g, hash, s, c) != 0 <==>
      s.Of(c.id).offline != [] || Reauthenticates(g, hash, s, c.id, c.requested, c.peer)
  {
    var e := s.Of(c.id);
    ShareableIsRecord(e.online, HostToOffset(g, c.requested.address), HashOf(hash, c.peer));
    forall o | Holds(e, o)
      ensures o != 0
    {
      assert Owns(s, c.id, o);
    }
    if e.offline != [] {
      assert Holds(e, e.offline[0]);
    }
    forall l | l in e.online
      ensures l.offset != 0
    {
      assert IsOnline(e, l.offset) && Holds(e, l.offset);
    }
  }

  /** A reassignment takes the oldest offline lease of some identity, never one that is online. */
  lemma ReassignTakesOffline(g: Geometry, hash: Hash, s: Leases, c: Call)
    requires Inv(g, s) && c.Acquire? && c.mode == REASSIGN && Obtained(g, hash, s, c) != 0
    ensures var o := Obtained(g, hash, s, c);
      && (exists v :: s.Of(v).offline != [] && s.Of(v).offline[0] == o)
      && (forall id :: OnlineCount(s, id, o) == 0)
      && (forall id :: OnlineCount(Step(g, hash, s, c), id, o) == if id == c.id then 1 else 0)
  {
    var o := Obtained(g, hash, s, c);
    var v := ReassignEffect(g, hash, s, c);
    assert o in s.Of(v).offline;
    forall id ensures OnlineCount(s, id, o) == 0 {
      if OnlineCount(s, id, o) > 0 {
        NoAddressTwice(g, s, id, v, o);
      }
    }
  }

  // ---------- conservation over runs ----------

  /** How often the run puts the offset online for id. */
  function Gained(g: Geometry, hash: Hash, s: Leases, calls: seq<Call>, id: Id, o: nat): nat
    decreases |calls|
  {
    if calls == [] then 0
    else
      var c := calls[0];
      (if c.Acquire? && c.id == id && o != 0 && Obtained(g, hash, s, c) == o then 1 else 0)
      + Gained(g, hash, Step(g, hash, s, c), calls[1..], id, o)
  }

  /** How often the run successfully releases an address for id that reads as the offset. */
  function Lost(g: Geometry, hash: Hash, s: Leases, calls: seq<Call>, id: Id, o: nat): nat
    decreases |calls|
  {
    if calls == [] then 0
    else
      var c := calls[0];
      (if c.Release? && c.id == id && ReleaseAddress(g, s, c).1 && HostToOffset(g, c.address.address) == o then 1
       else 0)
      + Lost(g, hash, Step(g, hash, s, c), calls[1..], id, o)
  }

  /**
    Over every run of any pool, the online records of an identity and an offset
    are those it had, plus the acquires that obtained the offset, minus the
    successful releases of it.
   */
  lemma {:induction false} OffsetsConserved(g: Geometry, hash: Hash, s: Leases, calls: seq<Call>, id: Id, o: nat)
    requires Inv(g, s)
    ensures OnlineCount(Run(g, hash, s, calls), id, o) + Lost(g, hash, s, calls, id, o) ==
            OnlineCount(s, id, o) + Gained(g, hash, s, calls, id, o)
    decreases |calls|
  {
    if calls != [] {
      var c := calls[0];
      if c.Acquire? {
        AcquireEffect(g, hash, s, c);
      } else {
        ReleaseEffect(g, s, c);
      }
      StepKeepsInv(g, hash, s, c);
      OffsetsConserved(g, hash, Step(g, hash, s, c), calls[1..], id, o);
    }
  }

  /** How often the run hands the address out to id. */
  function Acquired(g: Geometry, hash: Hash, s: Leases, calls: seq<Call>, id: Id, a: Address): nat
    decreases |calls|
  {
    if calls == [] then 0
    else
      var c := calls[0];
      (if c.Acquire? && c.id == id then
         var r := AcquireAddress(g, hash, s, c).1;
         if r.Some? && r.value.address == a then 1 else 0
       else 0) + Acquired(g, hash, Step(g, hash, s, c), calls[1..], id, a)
  }

  /** How often the run successfully releases the address for id. */
  function Released(g: Geometry, hash: Hash, s: Leases, calls: seq<Call>, id: Id, a: Address): nat
    decreases |calls|
  {
    if calls == [] then 0
    else
      var c := calls[0];
      (if c.Release? && c.id == id && c.address.address == a && ReleaseAddress(g, s, c).1 then 1 else 0)
      + Released(g, hash, Step(g, hash, s, c), calls[1..], id, a)
  }

  /** The offset that stands for a served address. */
  function OffsetOf(g: Geometry, a: Address): nat
    requires g.Serves(a)
  {
    a.lo - g.base.address.lo + 1
  }

  lemma ServedOffset(g: Geometry, a: Address)
    requires g.WellFormed() && g.Serves(a)
    ensures g.Assignable(OffsetOf(g, a)) && OffsetToHost(g, OffsetOf(g, a)) == Some(Host(a, 0))
  {
    OffsetHasAddress(g, OffsetOf(g, a));
  }

  lemma {:induction false} AcquiredIsGained(g: Geometry, hash: Hash, s: Leases, calls: seq<Call>, id: Id, a: Address)
    requires g.WellFormed() && Inv(g, s) && g.Serves(a)
    ensures Acquired(g, hash, s, calls, id, a) == Gained(g, hash, s, calls, id, OffsetOf(g, a))
    decreases |calls|
  {
    if calls != [] {
      var c := calls[0];
      if c.Acquire? && SameFamily(c.requested.address, g.base.address) {
        ObtainedHasAddress(g, hash, s, c);
        ServedOffset(g, a);
        var p := Obtained(g, hash, s, c);
        if p != 0 && OffsetToHost(g, p).value.address == a {
          OffsetsInjective(g, OffsetOf(g, a), p);
        }
      }
      StepKeepsInv(g, hash, s, c);
      AcquiredIsGained(g, hash, Step(g, hash, s, c), calls[1..], id, a);
    }
  }

  /** A release that succeeds is of a served address, in a pool that ends below the top address. */
  lemma ReleasedIsServed(g: Geometry, s: Leases, c: Call)
    requires g.WellFormed() && Inv(g, s) && c.Release? && ReleaseAddress(g, s, c).1 && g.size < TWO_32 - 1
    ensures g.EndsBelowTop() && g.Serves(c.address.address)
    ensures HostToOffset(g, c.address.address) == OffsetOf(g, c.address.address)
  {
    var o := HostToOffset(g, c.address.address);
    NoAddressTwice(g, s, c.id, c.id, o);
    AddressHasOffset(g, c.address.address);
  }

  lemma {:induction false} ReleasedIsLost(g: Geometry, hash: Hash, s: Leases, calls: seq<Call>, id: Id, a: Address)
    requires g.WellFormed() && Inv(g, s) && g.Serves(a) && g.size < TWO_32 - 1
    ensures Released(g, hash, s, calls, id, a) == Lost(g, hash, s, calls, id, OffsetOf(g, a))
    decreases |calls|
  {
    if calls != [] {
      var c := calls[0];
      if c.Release? && ReleaseAddress(g, s, c).1 {
        ReleasedIsServed(g, s, c);
        ServedOffset(g, a);
        ServedOffset(g, c.address.address);
      }
      StepKeepsInv(g, hash, s, c);
      ReleasedIsLost(g, hash, Step(g, hash, s, c), calls[1..], id, a);
    }
  }

  /** The online records are those before, plus the acquires that returned the address, minus its releases. */
  ghost predicate Conserves(g: Geometry, hash: Hash, s: Leases, calls: seq<Call>, id: Id, a: Address)
    requires g.Serves(a)
  {
    OnlineCount(Run(g, hash, s, calls), id, OffsetOf(g, a)) + Released(g, hash, s, calls, id, a) ==
    OnlineCount(s, id, OffsetOf(g, a)) + Acquired(g, hash, s, calls, id, a)
  }

  /** In terms of addresses: the equation holds over every run of a pool of less than 2^32 - 1 addresses. */
  lemma RunConserves(g: Geometry, hash: Hash, s: Leases, calls: seq<Call>, id: Id, a: Address)
    requires g.WellFormed() && Inv(g, s) && g.Serves(a) && g.size < TWO_32 - 1
    ensures Conserves(g, hash, s, calls, id, a)
  {
    OffsetsConserved(g, hash, s, calls, id, OffsetOf(g, a));
    AcquiredIsGained(g, hash, s, calls, id, a);
    ReleasedIsLost(g, hash, s, calls, id, a);
  }

  /** A pool that ends at the top address recognises none of its addresses, so that nothing is ever released. */
  lemma NothingReleasedAtTop(g: Geometry, s: Leases, c: Call)
    requires g.Block? && g.WellFormed() && Inv(g, s) && c.Release?
    requires !g.EndsBelowTop() && g.size < TWO_32 - 1
    ensures !ReleaseAddress(g, s, c).1
  {
    if ReleaseAddress(g, s, c).1 {
      ReleasedIsServed(g, s, c);
    }
  }

  lemma {:induction false} RunSplits(g: Geometry, hash: Hash, s: Leases, calls: seq<Call>, more: seq<Call>, id: Id,
                                     o: nat)
    ensures Run(g, hash, s, calls + more) == Run(g, hash, Run(g, hash, s, calls), more)
    ensures Lost(g, hash, s, calls + more, id, o) ==
            Lost(g, hash, s, calls, id, o) + Lost(g, hash, Run(g, hash, s, calls), more, id, o)
    decreases |calls|
  {
    if calls == [] {
      assert calls + more == more;
    } else {
      assert (calls + more)[1..] == calls[1..] + more;
      RunSplits(g, hash, Step(g, hash, s, calls[0]), calls[1..], more, id, o);
    }
  }

  lemma {:induction false} NeverReleased(g: Geometry, hash: Hash, s: Leases, calls: seq<Call>, id: Id, a: Address)
    requires forall c :: c in calls && c.Release? ==> c.address.address != a
    ensures Released(g, hash, s, calls, id, a) == 0
    decreases |calls|
  {
    if calls != [] {
      NeverReleased(g, hash, Step(g, hash, s, calls[0]), calls[1..], id, a);
    }
  }

  /** One peer asks for new addresses n times. */
  function NewAcquires(g: Geometry, n: nat): seq<Call>
    requires g.Block?
  {
    seq(n, _ => Acquire("", g.base, NEW, None, []))
  }

  lemma NewStep(g: Geometry, hash: Hash, s: Leases)
    requires g.Block? && Inv(g, s) && s.unused < g.size
    ensures var s' := Step(g, hash, s, Acquire("", g.base, NEW, None, []));
      Inv(g, s') && s'.unused == s.unused + 1 && OnlineCount(s', "", s.unused + 1 + g.Skip()) > 0
  {
    var c := Acquire("", g.base, NEW, None, []);
    AcquireEffect(g, hash, s, c);
    StepKeepsInv(g, hash, s, c);
    assert Obtained(g, hash, s, c) == s.unused + 1 + g.Skip();
  }

  /** As long as there are unused offsets, the last of n such acquires puts the n-th next of them online. */
  lemma {:induction false} AcquiresInTurn(g: Geometry, hash: Hash, s: Leases, n: nat)
    requires g.Block? && Inv(g, s) && s.unused + n <= g.size
    ensures n > 0 ==> OnlineCount(Run(g, hash, s, NewAcquires(g, n)), "", s.unused + n + g.Skip()) > 0
    decreases n
  {
    if n > 0 {
      var calls := NewAcquires(g, n);
      assert calls[1..] == NewAcquires(g, n - 1);
      NewStep(g, hash, s);
      AcquiresInTurn(g, hash, Step(g, hash, s, calls[0]), n - 1);
    }
  }

  /**
    In a pool of 2^32 - 1 addresses that have all been handed out, releasing an
    address of the other family takes the last one of the pool from its owner.
   */
  lemma HugePoolLosesLease(g: Geometry, hash: Hash)
    requires g.Block? && g.WellFormed() && g.size == TWO_32 - 1
    ensures var calls := NewAcquires(g, g.size) + [Release("", Host(Foreign(g), 0))];
      var a := WithLo(g.base.address, g.base.address.lo + g.size - 1);
      g.Serves(a) && !Conserves(g, hash, NO_LEASES, calls, "", a)
  {
    var acquires, release := NewAcquires(g, g.size), Release("", Host(Foreign(g), 0));
    var a := WithLo(g.base.address, g.base.address.lo + g.size - 1);
    var o := OffsetOf(g, a);
    EmptyPoolInv(g);
    RunKeepsInv(g, hash, NO_LEASES, acquires);
    AcquiresInTurn(g, hash, NO_LEASES, g.size);
    ReleaseFound(g, hash, Run(g, hash, NO_LEASES, acquires), release, o);
    RunSplits(g, hash, NO_LEASES, acquires, [release], "", o);
    OffsetsConserved(g, hash, NO_LEASES, acquires + [release], "", o);
    AcquiredIsGained(g, hash, NO_LEASES, acquires + [release], "", a);
    NeverReleased(g, hash, NO_LEASES, acquires + [release], "", a);
  }

  lemma ReleaseFound(g: Geometry, hash: Hash, s: Leases, c: Call, o: nat)
    requires g.Block? && g.Size() != 0 && c.Release? && HostToOffset(g, c.address.address) == o
    requires OnlineCount(s, c.id, o) > 0
    ensures Lost(g, hash, s, [c], c.id, o) == 1
  {
    assert [c][1..] == [];
  }

  /** In terms of addresses, the runs of a new pool conserve exactly if it has less than 2^32 - 1 addresses. */
  lemma AddressesConservedIff(g: Geometry, hash: Hash)
    requires g.Block? && g.WellFormed()
    ensures g.size < TWO_32 - 1 <==>
      forall calls, id, a :: g.Serves(a) ==> Conserves(g, hash, NO_LEASES, calls, id, a)
  {
    if g.size < TWO_32 - 1 {
      EmptyPoolInv(g);
      forall calls, id, a | g.Serves(a)
        ensures Conserves(g, hash, NO_LEASES, calls, id, a)
      {
        RunConserves(g, hash, NO_LEASES, calls, id, a);
      }
    } else {
      HugePoolLosesLease(g, hash);
    }
  }

  // ---------- offline leases are a queue per identity ----------

  /** The offset a call sends offline for id: that of the release that leaves no online record of it. */
  function GoesOffline(g: Geometry, hash: Hash, s: Leases, c: Call, id: Id): seq<nat> {
    if c.Release? && c.id == id && ReleaseAddress(g, s, c).1 then
      var o := HostToOffset(g, c.address.address);
      if OnlineCount(Step(g, hash, s, c), id, o) == 0 then [o] else []
    else []
  }

  /** The offset a call obtains out of the offline leases of id. */
  function LeavesOffline(g: Geometry, hash: Hash, s: Leases, c: Call, id: Id): seq<nat> {
    if c.Acquire? && Obtained(g, hash, s, c) in s.Of(id).offline then [Obtained(g, hash, s, c)] else []
  }

  function AllGoingOffline(g: Geometry, hash: Hash, s: Leases, calls: seq<Call>, id: Id): seq<nat>
    decreases |calls|
  {
    if calls == [] then []
    else
      GoesOffline(g, hash, s, calls[0], id) + AllGoingOffline(g, hash, Step(g, hash, s, calls[0]), calls[1..], id)
  }

  function AllLeavingOffline(g: Geometry, hash: Hash, s: Leases, calls: seq<Call>, id: Id): seq<nat>
    decreases |calls|
  {
    if calls == [] then []
    else
      LeavesOffline(g, hash, s, calls[0], id) + AllLeavingOffline(g, hash, Step(g, hash, s, calls[0]), calls[1..], id)
  }

  lemma NotOfflineElsewhere(g: Geometry, s: Leases, v: Id, id: Id, o: nat)
    requires Inv(g, s) && Owns(s, v, o) && id != v
    ensures o !in s.Of(id).offline
  {
    if o in s.Of(id).offline {
      assert Owns(s, id, o);
    }
  }

  lemma ExistingQueues(g: Geometry, hash: Hash, s: Leases, c: Call, id: Id)
    requires Inv(g, s) && c.Acquire? && c.mode == EXISTING && Obtained(g, hash, s, c) != 0
    ensures s.Of(id).offline == LeavesOffline(g, hash, s, c, id) + Step(g, hash, s, c).Of(id).offline
  {
    var o := Obtained(g, hash, s, c);
    var e := s.table[c.id];
    ShareableIsRecord(e.online, HostToOffset(g, c.requested.address), HashOf(hash, c.peer));
    if e.offline != [] {
      assert Holds(e, o);
    } else {
      var l := Shareable(e.online, HostToOffset(g, c.requested.address), HashOf(hash, c.peer)).value;
      assert IsOnline(e, l.offset) && Holds(e, o);
    }
    assert Owns(s, c.id, o);
    if id != c.id {
      NotOfflineElsewhere(g, s, c.id, id, o);
    }
  }

  lemma ReassignQueues(g: Geometry, hash: Hash, s: Leases, c: Call, id: Id)
    requires Inv(g, s) && c.Acquire? && c.mode == REASSIGN && Obtained(g, hash, s, c) != 0
    ensures s.Of(id).offline == LeavesOffline(g, hash, s, c, id) + Step(g, hash, s, c).Of(id).offline
  {
    var o := Obtained(g, hash, s, c);
    var v := ReassignEffect(g, hash, s, c);
    if id != v {
      NotOfflineElsewhere(g, s, v, id, o);
    }
  }

  lemma AcquireQueues(g: Geometry, hash: Hash, s: Leases, c: Call, id: Id)
    requires Inv(g, s) && c.Acquire?
    ensures s.Of(id).offline == LeavesOffline(g, hash, s, c, id) + Step(g, hash, s, c).Of(id).offline
  {
    var o := Obtained(g, hash, s, c);
    if o == 0 {
      AcquireEffect(g, hash, s, c);
      assert !Owns(s, id, 0);
    } else {
      match c.mode
      case EXISTING => ExistingQueues(g, hash, s, c, id);
      case REASSIGN => ReassignQueues(g, hash, s, c, id);
      case NEW =>
        if o in s.Of(id).offline {
          assert Owns(s, id, o);
        }
    }
  }

  lemma ReleaseQueues(g: Geometry, hash: Hash, s: Leases, c: Call, id: Id)
    requires Inv(g, s) && c.Release?
    ensures s.Of(id).offline + GoesOffline(g, hash, s, c, id) == Step(g, hash, s, c).Of(id).offline
  {
    ReleaseEffect(g, s, c);
    if g.Size() != 0 && c.id == id && id in s.table {
      var o := HostToOffset(g, c.address.address);
      CountRemoveFirst(s.table[id].online, o, o);
    }
  }

  lemma ReassociateQueue(q0: seq<nat>, out1: seq<nat>, in1: seq<nat>, q1: seq<nat>,
                         out2: seq<nat>, in2: seq<nat>, q2: seq<nat>)
    requires q0 + in1 == out1 + q1 && q1 + in2 == out2 + q2
    ensures q0 + (in1 + in2) == (out1 + out2) + q2
  {
    assert q0 + (in1 + in2) == (q0 + in1) + in2 == (out1 + q1) + in2 == out1 + (q1 + in2);
    assert out1 + (out2 + q2) == (out1 + out2) + q2;
  }

  /**
    Over every run, the offline leases of an identity behave as a queue: those
    it starts with followed by those going offline are, in this order, those
    leaving the queue (back to it or reassigned) followed by those left.
   */
  lemma {:induction false} OfflineIsQueue(g: Geometry, hash: Hash, s: Leases, calls: seq<Call>, id: Id)
    requires Inv(g, s)
    ensures s.Of(id).offline + AllGoingOffline(g, hash, s, calls, id) ==
            AllLeavingOffline(g, hash, s, calls, id) + Run(g, hash, s, calls).Of(id).offline
    decreases |calls|
  {
    if calls == [] {
    } else {
      var c := calls[0];
      var s' := Step(g, hash, s, c);
      if c.Acquire? {
        AcquireQueues(g, hash, s, c, id);
        assert GoesOffline(g, hash, s, c, id) == [];
      } else {
        ReleaseQueues(g, hash, s, c, id);
        assert LeavesOffline(g, hash, s, c, id) == [];
      }
      StepKeepsInv(g, hash, s, c);
      OfflineIsQueue(g, hash, s', calls[1..], id);
      ReassociateQueue(s.Of(id).offline, LeavesOffline(g, hash, s, c, id), GoesOffline(g, hash, s, c, id),
                       s'.Of(id).offline, AllLeavingOffline(g, hash, s', calls[1..], id),
                       AllGoingOffline(g, hash, s', calls[1..], id), Run(g, hash, s, calls).Of(id).offline);
    }
  }
}
