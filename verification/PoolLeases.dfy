/**
  The lease table of the virtual IP pool as a state machine: one step per
  acquire_address or release_address call (each holds the pool's mutex), and
  what every run of such steps keeps.
 */
module PoolLeases {
  import opened Wrappers
  import opened PoolAddress

  type Id = string

  /** An online record: the leased offset and the hash of the peer it was leased to. */
  datatype Lease = Lease(offset: nat, hash: Word)

  datatype Entry = Entry(online: seq<Lease>, offline: seq<nat>) {
    predicate Empty() {
      online == [] && offline == []
    }
  }

  const EMPTY_ENTRY := Entry([], [])

  datatype Leases = Leases(unused: nat, table: map<Id, Entry>) {
    function Of(id: Id): Entry {
      if id in table then table[id] else EMPTY_ENTRY
    }
  }

  datatype Mode = EXISTING | NEW | REASSIGN | OTHER

  type Hash = Host -> Word

  function HashOf(hash: Hash, peer: Option<Host>): Word {
    if peer.Some? then hash(peer.value) else 0
  }

  function Count(online: seq<Lease>, offset: nat): nat {
    if online == [] then 0
    else (if online[0].offset == offset then 1 else 0) + Count(online[1..], offset)
  }

  /** The records without the first one of the given offset. */
  function RemoveFirst(online: seq<Lease>, offset: nat): seq<Lease> {
    if online == [] then []
    else if online[0].offset == offset then online[1..]
    else [online[0]] + RemoveFirst(online[1..], offset)
  }

  // ---------- the operations ----------

  /** The first online record of the entry that a re-authenticating peer may share. */
  function Shareable(online: seq<Lease>, offset: nat, hash: Word): Option<Lease> {
    if online == [] then None
    else if online[0].offset == offset && online[0].hash == hash then Some(online[0])
    else Shareable(online[1..], offset, hash)
  }

  function GetExisting(g: Geometry, hash: Hash, s: Leases, id: Id, requested: Host, peer: Option<Host>): (Leases, nat)
    requires g.Block?
  {
    if id !in s.table then (s, 0)
    else
      var e := s.table[id];
      if e.offline != [] then
        (s.(table := s.table[id := Entry(e.online + [Lease(e.offline[0], HashOf(hash, peer))], e.offline[1..])]),
         e.offline[0])
      else if peer.None? then (s, 0)
      else match Shareable(e.online, HostToOffset(g, requested.address), HashOf(hash, peer))
        case None => (s, 0)
        case Some(lease) => (s.(table := s.table[id := e.(online := e.online + [lease])]), lease.offset)
  }

  /** The table after the given offset has been put online for id. */
  function Online(s: Leases, id: Id, lease: Lease): Leases {
    var e := s.Of(id);
    s.(table := s.table[id := e.(online := e.online + [lease])])
  }

  function GetNew(g: Geometry, hash: Hash, s: Leases, id: Id, peer: Option<Host>): (Leases, nat) {
    if s.unused < g.Size() then
      var offset := s.unused + 1 + g.Skip();
      (Online(s.(unused := s.unused + 1), id, Lease(offset, HashOf(hash, peer))), offset)
    else (s, 0)
  }

  /** The table with a new entry for id; an empty entry is removed. */
  function SetEntry(table: map<Id, Entry>, id: Id, e: Entry): map<Id, Entry> {
    if e.Empty() then map i | i in table && i != id :: table[i] else table[id := e]
  }

  /** The table without the oldest offline lease of id, and that lease. */
  function TakeOffline(table: map<Id, Entry>, id: Id): (map<Id, Entry>, nat)
    requires id in table
  {
    var e := table[id];
    var rest := if e.offline == [] then e else e.(offline := e.offline[1..]);
    (SetEntry(table, id, rest), if e.offline == [] then 0 else e.offline[0])
  }

  /** Go through the entries in enumeration order until an offline lease has been taken. */
  function TakeAnyOffline(table: map<Id, Entry>, order: seq<Id>): (map<Id, Entry>, nat) {
    if order == [] then (table, 0)
    else if order[0] !in table then TakeAnyOffline(table, order[1..])
    else
      var (rest, offset) := TakeOffline(table, order[0]);
      if offset != 0 then (rest, offset) else TakeAnyOffline(rest, order[1..])
  }

  function GetReassigned(hash: Hash, s: Leases, id: Id, peer: Option<Host>, order: seq<Id>): (Leases, nat) {
    var (rest, offset) := TakeAnyOffline(s.table, order);
    var s' := s.(table := rest);
    if offset != 0 then (Online(s', id, Lease(offset, HashOf(hash, peer))), offset) else (s', 0)
  }

  /** One call to acquire_address, or to release_address. `order` is the order the hashtable enumerates its keys in. */
  datatype Call =
    | Acquire(id: Id, requested: Host, mode: Mode, peer: Option<Host>, order: seq<Id>)
    | Release(id: Id, address: Host)

  function AcquireOffset(g: Geometry, hash: Hash, s: Leases, c: Call): (Leases, nat)
    requires g.Block? && c.Acquire?
  {
    match c.mode
    case EXISTING => GetExisting(g, hash, s, c.id, c.requested, c.peer)
    case NEW => GetNew(g, hash, s, c.id, c.peer)
    case REASSIGN => GetReassigned(hash, s, c.id, c.peer, c.order)
    case OTHER => (s, 0)
  }

  function AcquireAddress(g: Geometry, hash: Hash, s: Leases, c: Call): (Leases, Option<Host>)
    requires c.Acquire?
  {
    if g.Size() == 0 then (s, Some(c.requested))
    else if !SameFamily(c.requested.address, g.base.address) then (s, None)
    else
      var (s', offset) := AcquireOffset(g, hash, s, c);
      (s', if offset != 0 then OffsetToHost(g, offset) else None)
  }

  function ReleaseAddress(g: Geometry, s: Leases, c: Call): (Leases, bool)
    requires c.Release?
  {
    if g.Size() == 0 || c.id !in s.table then (s, false)
    else
      var offset := HostToOffset(g, c.address.address);
      var e := s.table[c.id];
      var online := RemoveFirst(e.online, offset);
      var offline := if Count(e.online, offset) == 1 then e.offline + [offset] else e.offline;
      (s.(table := s.table[c.id := Entry(online, offline)]), Count(e.online, offset) > 0)
  }

  function Step(g: Geometry, hash: Hash, s: Leases, c: Call): Leases {
    if c.Acquire? then AcquireAddress(g, hash, s, c).0 else ReleaseAddress(g, s, c).0
  }

  function Run(g: Geometry, hash: Hash, s: Leases, calls: seq<Call>): Leases
    decreases |calls|
  {
    if calls == [] then s else Run(g, hash, Step(g, hash, s, calls[0]), calls[1..])
  }

  const NO_LEASES := Leases(0, map[])

  // ---------- the ownership invariant ----------

  ghost predicate IsOnline(e: Entry, offset: nat) {
    exists i :: 0 <= i < |e.online| && e.online[i].offset == offset
  }

  ghost predicate Holds(e: Entry, offset: nat) {
    IsOnline(e, offset) || offset in e.offline
  }

  /** The offsets handed out so far: a contiguous block from the first assignable one. */
  predicate HandedOut(g: Geometry, s: Leases, offset: nat) {
    1 + g.Skip() <= offset <= s.unused + g.Skip()
  }

  /** One peer hash per online offset; offline offsets are pairwise distinct and not online. */
  ghost predicate EntryOk(e: Entry) {
    && (forall i, j :: 0 <= i < j < |e.online| && e.online[i].offset == e.online[j].offset ==>
          e.online[i].hash == e.online[j].hash)
    && (forall i, j :: 0 <= i < j < |e.offline| ==> e.offline[i] != e.offline[j])
    && (forall o :: o in e.offline ==> !IsOnline(e, o))
  }

  ghost predicate Owns(s: Leases, id: Id, offset: nat) {
    id in s.table && Holds(s.table[id], offset)
  }

  /** The table is consistent, and every offset handed out but those in `loose` has exactly one owner. */
  ghost predicate Consistent(g: Geometry, s: Leases, loose: set<nat>) {
    && s.unused <= g.Size()
    && (forall id :: id in s.table ==> !s.table[id].Empty() && EntryOk(s.table[id]))
    && (forall id, o :: Owns(s, id, o) ==> HandedOut(g, s, o) && o !in loose)
    && (forall o :: HandedOut(g, s, o) && o !in loose ==> exists id :: Owns(s, id, o))
    && (forall id, id', o :: Owns(s, id, o) && Owns(s, id', o) ==> id == id')
  }

  ghost predicate Inv(g: Geometry, s: Leases) {
    Consistent(g, s, {})
  }

  lemma EmptyPoolInv(g: Geometry)
    ensures Inv(g, NO_LEASES)
  {
  }

  // ---------- facts about one entry ----------

  lemma {:induction false} CountPositive(online: seq<Lease>, offset: nat)
    ensures Count(online, offset) > 0 <==> exists i :: 0 <= i < |online| && online[i].offset == offset
  {
    if online != [] {
      CountPositive(online[1..], offset);
      if i :| 0 <= i < |online[1..]| && online[1..][i].offset == offset {
        assert online[i + 1].offset == offset;
      }
      if i :| 0 <= i < |online| && online[i].offset == offset {
        assert i == 0 || online[1..][i - 1].offset == offset;
      }
    }
  }

  lemma {:induction false} CountAppend(online: seq<Lease>, lease: Lease, offset: nat)
    ensures Count(online + [lease], offset) == Count(online, offset) + if lease.offset == offset then 1 else 0
  {
    if online != [] {
      assert (online + [lease])[1..] == online[1..] + [lease];
      CountAppend(online[1..], lease, offset);
    }
  }

  lemma {:induction false} CountRemoveFirst(online: seq<Lease>, offset: nat, o: nat)
    ensures Count(RemoveFirst(online, offset), o) ==
            Count(online, o) - if o == offset && Count(online, offset) > 0 then 1 else 0
  {
    if online != [] && online[0].offset != offset {
      CountRemoveFirst(online[1..], offset, o);
    }
  }

  lemma {:induction false} RemoveFirstKeepsOthers(online: seq<Lease>, offset: nat)
    ensures forall l :: l in RemoveFirst(online, offset) ==> l in online
  {
    if online != [] && online[0].offset != offset {
      RemoveFirstKeepsOthers(online[1..], offset);
    }
  }

  /** Records sharing an offset share the hash, however the records are picked. */
  lemma HashByMembership(e: Entry)
    requires forall i, j :: 0 <= i < j < |e.online| && e.online[i].offset == e.online[j].offset ==>
        e.online[i].hash == e.online[j].hash
    ensures forall l, m :: l in e.online && m in e.online && l.offset == m.offset ==> l == m
  {
    forall l, m | l in e.online && m in e.online && l.offset == m.offset
      ensures l == m
    {
      var i :| 0 <= i < |e.online| && e.online[i] == l;
      var j :| 0 <= j < |e.online| && e.online[j] == m;
      assert i < j || j < i || i == j;
    }
  }

  lemma EntryReleased(e: Entry, offset: nat)
    requires EntryOk(e) && Count(e.online, offset) > 0
    ensures var e' := Entry(RemoveFirst(e.online, offset),
                            if Count(e.online, offset) == 1 then e.offline + [offset] else e.offline);
      && EntryOk(e') && !e'.Empty()
      && (forall o :: Holds(e', o) <==> Holds(e, o))
      && (offset in e'.offline <==> Count(e'.online, offset) == 0)
  {
    var e' := Entry(RemoveFirst(e.online, offset),
                    if Count(e.online, offset) == 1 then e.offline + [offset] else e.offline);
    HashByMembership(e);
    RemoveFirstKeepsOthers(e.online, offset);
    forall o
      ensures IsOnline(e, o) <==> Count(e.online, o) > 0
      ensures IsOnline(e', o) <==> Count(e'.online, o) > 0
      ensures Count(e'.online, o) == Count(e.online, o) - if o == offset then 1 else 0
    {
      CountPositive(e.online, o);
      CountPositive(e'.online, o);
      CountRemoveFirst(e.online, offset, o);
    }
    forall i, j | 0 <= i < j < |e'.online| && e'.online[i].offset == e'.online[j].offset
      ensures e'.online[i].hash == e'.online[j].hash
    {
      assert e'.online[i] in e.online && e'.online[j] in e.online;
    }
  }

  lemma EntryAppended(e: Entry, lease: Lease)
    requires EntryOk(e) && lease.offset !in e.offline
    requires forall l :: l in e.online && l.offset == lease.offset ==> l.hash == lease.hash
    ensures var e' := e.(online := e.online + [lease]);
      && EntryOk(e') && !e'.Empty()
      && (forall o :: Holds(e', o) <==> Holds(e, o) || o == lease.offset)
      && (forall o :: IsOnline(e', o) <==> IsOnline(e, o) || o == lease.offset)
  {
    var e' := e.(online := e.online + [lease]);
    forall o
      ensures IsOnline(e', o) <==> IsOnline(e, o) || o == lease.offset
    {
      if i :| 0 <= i < |e.online| && e.online[i].offset == o {
        assert e'.online[i].offset == o;
      }
      if o == lease.offset {
        assert e'.online[|e.online|].offset == o;
      }
    }
  }

  // ---------- every step keeps the invariant ----------

  /**
    Giving id a new entry keeps the table consistent if the offsets it gains
    were loose before, those it loses are loose after, and it keeps the rest.
   */
  lemma SetEntryConsistent(g: Geometry, s: Leases, loose: set<nat>, id: Id, e: Entry, loose': set<nat>)
    requires Consistent(g, s, loose) && EntryOk(e)
    requires forall o :: Holds(e, o) <==> (Owns(s, id, o) || o in loose) && o !in loose'
    requires forall o :: o in loose ==> HandedOut(g, s, o)
    requires forall o :: o in loose' ==> o in loose || Owns(s, id, o)
    ensures Consistent(g, s.(table := SetEntry(s.table, id, e)), loose')
  {
    var s' := s.(table := SetEntry(s.table, id, e));
    assert forall o :: HandedOut(g, s', o) <==> HandedOut(g, s, o);
    assert e.Empty() ==> forall o :: !Holds(e, o);
    forall o ensures Owns(s', id, o) <==> Holds(e, o) {
    }
    forall i, o | i != id ensures Owns(s', i, o) <==> Owns(s, i, o) {
    }
    forall o | HandedOut(g, s', o) && o !in loose'
      ensures exists i :: Owns(s', i, o)
    {
      if Holds(e, o) {
        assert Owns(s', id, o);
      } else {
        var i :| Owns(s, i, o);
        assert Owns(s', i, o);
      }
    }
  }

  /** Putting a loose offset online for any identity gives it an owner. */
  lemma OnlineOwns(g: Geometry, s: Leases, id: Id, lease: Lease)
    requires Consistent(g, s, {lease.offset}) && HandedOut(g, s, lease.offset)
    ensures Inv(g, Online(s, id, lease))
  {
    var e := s.Of(id);
    forall o ensures Owns(s, id, o) <==> Holds(e, o) {
    }
    assert !Holds(e, lease.offset);
    EntryAppended(e, lease) by {
      assert forall i :: 0 <= i < |e.online| ==> IsOnline(e, e.online[i].offset);
    }
    SetEntryConsistent(g, s, {lease.offset}, id, e.(online := e.online + [lease]), {});
  }

  lemma EntryTaken(e: Entry)
    requires EntryOk(e) && e.offline != []
    ensures var e' := e.(offline := e.offline[1..]);
      && EntryOk(e')
      && (forall o :: Holds(e', o) <==> Holds(e, o) && o != e.offline[0])
      && Holds(e, e.offline[0]) && !IsOnline(e, e.offline[0])
  {
    var e' := e.(offline := e.offline[1..]);
    assert e.offline == [e.offline[0]] + e'.offline;
    assert forall o :: IsOnline(e', o) <==> IsOnline(e, o);
    assert forall o :: o in e'.offline ==> o in e.offline;
  }

  /** Taking the oldest offline lease of an identity makes its offset loose; nothing else changes hands. */
  lemma TakeOfflineLoosens(g: Geometry, s: Leases, id: Id)
    requires Inv(g, s) && id in s.table
    ensures var (rest, o) := TakeOffline(s.table, id);
      if s.table[id].offline == [] then rest == s.table && o == 0
      else Consistent(g, s.(table := rest), {o}) && HandedOut(g, s, o) && o == s.table[id].offline[0]
  {
    var e := s.table[id];
    if e.offline != [] {
      EntryTaken(e);
      assert Owns(s, id, e.offline[0]);
      SetEntryConsistent(g, s, {}, id, e.(offline := e.offline[1..]), {e.offline[0]});
    }
  }

  lemma {:induction false} TakeAnyOfflineLoosens(g: Geometry, s: Leases, order: seq<Id>)
    requires Inv(g, s)
    ensures var (rest, o) := TakeAnyOffline(s.table, order);
      if o == 0 then
        rest == s.table && (forall id :: id in order && id in s.table ==> s.table[id].offline == [])
      else
        && Consistent(g, s.(table := rest), {o}) && HandedOut(g, s, o)
        && (exists id :: id in s.table && s.table[id].offline != [] && TakeOffline(s.table, id) == (rest, o))
  {
    if order != [] {
      if order[0] in s.table {
        TakeOfflineLoosens(g, s, order[0]);
      }
      TakeAnyOfflineLoosens(g, s, order[1..]);
    }
  }

  lemma {:induction false} ShareableIsRecord(online: seq<Lease>, offset: nat, hash: Word)
    ensures match Shareable(online, offset, hash)
      case None => forall l :: l in online ==> l.offset != offset || l.hash != hash
      case Some(l) => l in online && l.offset == offset && l.hash == hash
  {
    if online != [] {
      ShareableIsRecord(online[1..], offset, hash);
    }
  }

  /** Replacing one entry by one that holds the same offsets keeps the invariant. */
  lemma SameHoldingsKeepInv(g: Geometry, s: Leases, id: Id, e: Entry)
    requires Inv(g, s) && id in s.table
    requires EntryOk(e) && !e.Empty() && forall o :: Holds(e, o) <==> Holds(s.table[id], o)
    ensures Inv(g, s.(table := s.table[id := e]))
  {
    SetEntryConsistent(g, s, {}, id, e, {});
  }

  /** A refreshed lease is the oldest offline one, now online with the hash of the new peer. */
  lemma EntryRefreshed(e: Entry, hash: Word)
    requires EntryOk(e) && e.offline != []
    ensures var e' := Entry(e.online + [Lease(e.offline[0], hash)], e.offline[1..]);
      && EntryOk(e') && !e'.Empty()
      && (forall o :: Holds(e', o) <==> Holds(e, o))
  {
    var o := e.offline[0];
    var taken := e.(offline := e.offline[1..]);
    assert e.offline == [o] + taken.offline;
    assert forall x :: IsOnline(taken, x) <==> IsOnline(e, x);
    assert !IsOnline(e, o);
    assert forall l :: l in e.online ==> IsOnline(e, l.offset);
    EntryAppended(taken, Lease(o, hash));
  }

  lemma ExistingKeepsInv(g: Geometry, hash: Hash, s: Leases, c: Call)
    requires g.Block? && c.Acquire? && Inv(g, s)
    ensures Inv(g, GetExisting(g, hash, s, c.id, c.requested, c.peer).0)
  {
    if c.id in s.table {
      var e := s.table[c.id];
      if e.offline != [] {
        EntryRefreshed(e, HashOf(hash, c.peer));
        SameHoldingsKeepInv(g, s, c.id, Entry(e.online + [Lease(e.offline[0], HashOf(hash, c.peer))], e.offline[1..]));
      } else {
        var offset, h := HostToOffset(g, c.requested.address), HashOf(hash, c.peer);
        ShareableIsRecord(e.online, offset, h);
        match Shareable(e.online, offset, h)
        case None =>
        case Some(l) =>
          HashByMembership(e);
          assert IsOnline(e, l.offset);
          EntryAppended(e, l);
          SameHoldingsKeepInv(g, s, c.id, e.(online := e.online + [l]));
      }
    }
  }

  lemma NewKeepsInv(g: Geometry, hash: Hash, s: Leases, id: Id, peer: Option<Host>)
    requires Inv(g, s)
    ensures Inv(g, GetNew(g, hash, s, id, peer).0)
  {
    if s.unused < g.Size() {
      var more := s.(unused := s.unused + 1);
      var offset := s.unused + 1 + g.Skip();
      forall o | HandedOut(g, more, o) && o != offset
        ensures exists i :: Owns(more, i, o)
      {
        assert HandedOut(g, s, o);
        var i :| Owns(s, i, o);
        assert Owns(more, i, o);
      }
      forall i, o ensures Owns(more, i, o) <==> Owns(s, i, o) {
      }
      OnlineOwns(g, more, id, Lease(offset, HashOf(hash, peer)));
    }
  }

  lemma ReassignKeepsInv(g: Geometry, hash: Hash, s: Leases, id: Id, peer: Option<Host>, order: seq<Id>)
    requires Inv(g, s)
    ensures Inv(g, GetReassigned(hash, s, id, peer, order).0)
  {
    TakeAnyOfflineLoosens(g, s, order);
    var (rest, o) := TakeAnyOffline(s.table, order);
    if o != 0 {
      OnlineOwns(g, s.(table := rest), id, Lease(o, HashOf(hash, peer)));
    }
  }

  lemma ReleaseKeepsInv(g: Geometry, s: Leases, c: Call)
    requires c.Release? && Inv(g, s)
    ensures Inv(g, ReleaseAddress(g, s, c).0)
  {
    if g.Size() != 0 && c.id in s.table {
      var e, offset := s.table[c.id], HostToOffset(g, c.address.address);
      if Count(e.online, offset) > 0 {
        EntryReleased(e, offset);
        SameHoldingsKeepInv(g, s, c.id, ReleaseAddress(g, s, c).0.table[c.id]);
      } else {
        RemoveNothing(e.online, offset);
        assert s.table[c.id := e] == s.table;
      }
    }
  }

  lemma {:induction false} RemoveNothing(online: seq<Lease>, offset: nat)
    requires Count(online, offset) == 0
    ensures RemoveFirst(online, offset) == online
  {
    if online != [] {
      RemoveNothing(online[1..], offset);
    }
  }

  lemma StepKeepsInv(g: Geometry, hash: Hash, s: Leases, c: Call)
    requires Inv(g, s)
    ensures Inv(g, Step(g, hash, s, c))
  {
    match c
    case Release(_, _) => ReleaseKeepsInv(g, s, c);
    case Acquire(id, requested, mode, peer, order) =>
      if g.Size() != 0 && SameFamily(requested.address, g.base.address) {
        match mode
        case EXISTING => ExistingKeepsInv(g, hash, s, c);
        case NEW => NewKeepsInv(g, hash, s, id, peer);
        case REASSIGN => ReassignKeepsInv(g, hash, s, id, peer, order);
        case OTHER =>
      }
  }

  /**
    After every run of acquires, in any mode, and releases: the offsets handed
    out form one contiguous block, each is held by exactly one identity, online
    or offline but not both, and no entry is empty.
   */
  lemma {:induction false} RunKeepsInv(g: Geometry, hash: Hash, s: Leases, calls: seq<Call>)
    requires Inv(g, s)
    ensures Inv(g, Run(g, hash, s, calls))
    decreases |calls|
  {
    if calls != [] {
      StepKeepsInv(g, hash, s, calls[0]);
      RunKeepsInv(g, hash, Step(g, hash, s, calls[0]), calls[1..]);
    }
  }
}
