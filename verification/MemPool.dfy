/** The in-memory pool object and the enumerator over its leases (mem_pool.c). */
module MemPool {
  import opened Wrappers
  import opened Sequences
  import opened PoolAddress
  import opened PoolLeases

  /** The order in which the hashtable's enumerator yields the entries of a table. */
  ghost predicate IsEnumeration(order: seq<Id>, table: map<Id, Entry>) {
    && (forall id :: id in order <==> id in table)
    && (forall i, j :: 0 <= i < j < |order| ==> order[i] != order[j])
  }

  // ---------- facts about the loops ----------

  lemma {:induction false} ShareableSkips(online: seq<Lease>, i: nat, offset: nat, hash: Word)
    requires i <= |online| && forall k :: 0 <= k < i ==> online[k].offset != offset || online[k].hash != hash
    ensures Shareable(online, offset, hash) == Shareable(online[i..], offset, hash)
  {
    if i > 0 {
      ShareableSkips(online[1..], i - 1, offset, hash);
      assert online[1..][i - 1..] == online[i..];
    }
  }

  lemma {:induction false} CountAt(online: seq<Lease>, i: nat, offset: nat)
    requires i < |online| && online[i].offset == offset
    requires forall k :: 0 <= k < i ==> online[k].offset != offset
    ensures RemoveFirst(online, offset) == online[..i] + online[i + 1..]
    ensures Count(online, offset) == 1 + Count(online[i + 1..], offset)
  {
    if i > 0 {
      CountAt(online[1..], i - 1, offset);
      assert online[1..][..i - 1] == online[1..i];
      assert online[1..][i..] == online[i + 1..];
      assert [online[0]] + (online[1..i] + online[i + 1..]) == online[..i] + online[i + 1..];
    }
  }

  lemma {:induction false} CountSkips(online: seq<Lease>, i: nat, offset: nat)
    requires i <= |online| && forall k :: 0 <= k < i ==> online[k].offset != offset
    ensures Count(online, offset) == Count(online[i..], offset)
  {
    if i > 0 {
      CountSkips(online[1..], i - 1, offset);
      assert online[1..][i - 1..] == online[i..];
    }
  }

  // ---------- the pool ----------

  class Pool {
    const geometry: Geometry
    const hash: Hash
    var unused: nat
    var leases: map<Id, Entry>

    ghost function Model(): Leases
      reads this
    {
      Leases(unused, leases)
    }

    ghost predicate Valid()
      reads this
    {
      geometry.WellFormed() && Inv(geometry, Model())
    }

    constructor Cidr(base: Option<Host>, bits: int, hash: Hash)
      ensures Valid() && Model() == NO_LEASES
      ensures geometry == CidrGeometry(base, bits) && this.hash == hash
    {
      this.hash := hash;
      unused, leases := 0, map[];
      if base.None? {
        geometry := NoAddresses;
      } else {
        var a := base.value.address;
        var hostbits := HostBits(a, bits);
        CidrServesUsable(base.value, bits, a);
        NetworkIdDiffIsHostPart(a, hostbits);
        SubnetFits(a.lo, hostbits);
        var size, networkId := Pow2(hostbits), false;
        if size > 2 {
          var diff := NetworkIdDiff(a, hostbits);
          if diff == 0 {
            networkId := true;
            size := size - 1;
          } else {
            size := size - diff;
          }
          size := size - 1;
        } else if NetworkIdDiff(a, hostbits) != 0 {
          size := size - 1;
        }
        geometry := Block(base.value, networkId, size);
      }
      EmptyPoolInv(CidrGeometry(base, bits));
    }

    constructor Of(geometry: Geometry, hash: Hash)
      requires geometry.WellFormed()
      ensures Valid() && Model() == NO_LEASES
      ensures this.geometry == geometry && this.hash == hash
    {
      this.geometry, this.hash := geometry, hash;
      unused, leases := 0, map[];
      EmptyPoolInv(geometry);
    }

    /** Null for an invalid range. */
    static method Range(from: Host, to: Host, hash: Hash) returns (pool: Pool?)
      ensures pool == null <==> RangeGeometry(from, to).None?
      ensures pool != null ==>
        fresh(pool) && pool.Valid() && pool.Model() == NO_LEASES
        && Some(pool.geometry) == RangeGeometry(from, to) && pool.hash == hash
    {
      var r := RangeGeometry(from, to);
      if r.None? {
        return null;
      }
      RangeServesInterval(from, to, from.address);
      pool := new Pool.Of(r.value, hash);
    }

    method GetExisting(id: Id, requested: Host, peer: Option<Host>) returns (offset: nat)
      requires Valid() && geometry.Block?
      modifies this
      ensures Valid()
      ensures (Model(), offset) == PoolLeases.GetExisting(geometry, hash, old(Model()), id, requested, peer)
    {
      ExistingKeepsInv(geometry, hash, Model(), Acquire(id, requested, EXISTING, peer, []));
      if id !in leases {
        return 0;
      }
      var entry := leases[id];
      // a valid offline lease is refreshed
      if entry.offline != [] {
        offset := entry.offline[0];
        assert offset != 0 by {
          assert Holds(entry, offset) && Owns(Model(), id, offset);
        }
        leases := leases[id := Entry(entry.online + [Lease(offset, HashOf(hash, peer))], entry.offline[1..])];
        return;
      }
      if peer.None? {
        return 0;
      }
      // a valid online lease of the same peer is shared
      var i := 0;
      while i < |entry.online|
        invariant i <= |entry.online|
        invariant forall k :: 0 <= k < i ==>
          entry.online[k].offset != HostToOffset(geometry, requested.address)
          || entry.online[k].hash != HashOf(hash, peer)
      {
        var lease := entry.online[i];
        if lease.offset == HostToOffset(geometry, requested.address) && lease.hash == HashOf(hash, peer) {
          ShareableSkips(entry.online, i, lease.offset, lease.hash);
          leases := leases[id := entry.(online := entry.online + [lease])];
          return lease.offset;
        }
        i := i + 1;
      }
      ShareableSkips(entry.online, i, HostToOffset(geometry, requested.address), HashOf(hash, peer));
      return 0;
    }

    /** Record the lease last in the entry of the identity, which is made if there is none. */
    method PutOnline(id: Id, lease: Lease)
      modifies this`leases
      ensures Model() == Online(old(Model()), id, lease)
    {
      var entry := EMPTY_ENTRY;
      if id in leases {
        entry := leases[id];
      }
      leases := leases[id := entry.(online := entry.online + [lease])];
    }

    method GetNew(id: Id, peer: Option<Host>) returns (offset: nat)
      requires Valid()
      modifies this
      ensures Valid()
      ensures (Model(), offset) == PoolLeases.GetNew(geometry, hash, old(Model()), id, peer)
    {
      NewKeepsInv(geometry, hash, Model(), id, peer);
      offset := 0;
      if unused < geometry.Size() {
        unused := unused + 1;
        offset := unused + geometry.Skip();
        PutOnline(id, Lease(offset, HashOf(hash, peer)));
      }
    }

    method GetReassigned(id: Id, peer: Option<Host>, order: seq<Id>) returns (offset: nat)
      requires Valid() && IsEnumeration(order, leases)
      modifies this
      ensures Valid()
      ensures (Model(), offset) == PoolLeases.GetReassigned(hash, old(Model()), id, peer, order)
    {
      ReassignKeepsInv(geometry, hash, Model(), id, peer, order);
      offset := 0;
      var i := 0;
      while i < |order| && offset == 0
        invariant i <= |order| && unused == old(unused)
        invariant forall j :: i <= j < |order| ==> order[j] in leases
        invariant offset == 0 ==> TakeAnyOffline(leases, order[i..]) == TakeAnyOffline(old(leases), order)
        invariant offset != 0 ==> (leases, offset) == TakeAnyOffline(old(leases), order)
      {
        var entry := leases[order[i]];
        assert order[i..][0] == order[i] && order[i..][1..] == order[i + 1..];
        if entry.offline != [] {
          offset := entry.offline[0];
          entry := entry.(offline := entry.offline[1..]);
        }
        if entry.Empty() {
          leases := map k | k in leases && k != order[i] :: leases[k];
        } else {
          leases := leases[order[i] := entry];
        }
        i := i + 1;
      }
      if offset != 0 {
        PutOnline(id, Lease(offset, HashOf(hash, peer)));
      }
    }

    /** `order` is the order in which the hashtable enumerates its entries. */
    method AcquireAddress(id: Id, requested: Host, mode: Mode, peer: Option<Host>, order: seq<Id>)
      returns (r: Option<Host>)
      requires Valid() && IsEnumeration(order, leases)
      modifies this
      ensures Valid()
      ensures (Model(), r) ==
              PoolLeases.AcquireAddress(geometry, hash, old(Model()), Acquire(id, requested, mode, peer, order))
    {
      if geometry.Size() == 0 {
        return Some(requested);
      }
      if !SameFamily(requested.address, geometry.base.address) {
        return None;
      }
      var offset := 0;
      match mode {
        case EXISTING => offset := GetExisting(id, requested, peer);
        case NEW => offset := GetNew(id, peer);
        case REASSIGN => offset := GetReassigned(id, peer, order);
        case OTHER =>
      }
      r := if offset != 0 then OffsetToHost(geometry, offset) else None;
    }

    method ReleaseAddress(address: Host, id: Id) returns (found: bool)
      requires Valid()
      modifies this
      ensures Valid()
      ensures (Model(), found) == PoolLeases.ReleaseAddress(geometry, old(Model()), Release(id, address))
    {
      ReleaseKeepsInv(geometry, Model(), Release(id, address));
      found := false;
      if geometry.Size() == 0 || id !in leases {
        return;
      }
      var entry, offset := leases[id], HostToOffset(geometry, address.address);
      var online, more, i := entry.online, false, 0;
      while i < |online|
        invariant i <= |online|
        invariant forall k :: 0 <= k < i ==> online[k].offset != offset
        invariant Model() == old(Model())
        invariant !found ==> !more && online == entry.online
        invariant found ==>
          && online == RemoveFirst(entry.online, offset)
          && Count(entry.online, offset) == 1 + Count(online[i..], offset)
        decreases |online| - i, !found
      {
        if online[i].offset == offset {
          if found {
            more := true;
            break;
          }
          CountAt(online, i, offset);
          online := online[..i] + online[i + 1..];
          found := true;
          assert online[i..] == entry.online[i + 1..];
        } else {
          i := i + 1;
        }
      }
      if !found {
        CountSkips(entry.online, i, offset);
        assert entry.online[i..] == [];
        RemoveNothing(entry.online, offset);
        assert RemoveFirst(entry.online, offset) == entry.online;
        assert leases == old(leases) && leases[id] == entry && leases[id := entry] == leases;
      } else {
        // without further records the lease goes offline
        leases := leases[id := Entry(online, if more then entry.offline else entry.offline + [offset])];
      }
      assert Model() == PoolLeases.ReleaseAddress(geometry, old(Model()), Release(id, address)).0;
    }

    /** The number of online records, as the u_int counter has it. */
    method GetOnline(order: seq<Id>) returns (count: nat)
      requires IsEnumeration(order, leases)
      ensures count == U32(|OnlineItems(Items(geometry, leases, order))|)
    {
      count := 0;
      for i := 0 to |order|
        invariant count == U32(|OnlineItems(Items(geometry, leases, order[..i]))|)
      {
        ItemsPrefix(geometry, leases, order, i);
        AddU32(|OnlineItems(Items(geometry, leases, order[..i]))|, |leases[order[i]].online|);
        count := U32(count + |leases[order[i]].online|);
      }
      assert order[..|order|] == order;
    }

    /** The number of offline leases, as the u_int counter has it. */
    method GetOffline(order: seq<Id>) returns (count: nat)
      requires IsEnumeration(order, leases)
      ensures count == U32(OfflineCount(geometry, leases, order))
    {
      count := 0;
      for i := 0 to |order|
        invariant count == U32(OfflineCount(geometry, leases, order[..i]))
      {
        ItemsPrefix(geometry, leases, order, i);
        AddU32(OfflineCount(geometry, leases, order[..i]), |leases[order[i]].offline|);
        count := U32(count + |leases[order[i]].offline|);
      }
      assert order[..|order|] == order;
    }
  }

  // ---------- enumerating the leases ----------

  datatype Item = Item(id: Id, address: Option<Host>, online: bool)

  function AddressOf(g: Geometry, offset: nat): Option<Host> {
    if g.Block? then OffsetToHost(g, offset) else None
  }

  function OnlineOf(g: Geometry, id: Id, online: seq<Lease>): (items: seq<Item>)
    ensures |items| == |online|
  {
    seq(|online|, i requires 0 <= i < |online| => Item(id, AddressOf(g, online[i].offset), true))
  }

  function OfflineOf(g: Geometry, id: Id, offline: seq<nat>): (items: seq<Item>)
    ensures |items| == |offline|
  {
    seq(|offline|, i requires 0 <= i < |offline| => Item(id, AddressOf(g, offline[i]), false))
  }

  function EntryItems(g: Geometry, id: Id, e: Entry): seq<Item> {
    OnlineOf(g, id, e.online) + OfflineOf(g, id, e.offline)
  }

  /** The leases of the entries in the given order, each entry's online ones first. */
  function Items(g: Geometry, table: map<Id, Entry>, order: seq<Id>): seq<Item> {
    if order == [] then []
    else if order[0] !in table then Items(g, table, order[1..])
    else EntryItems(g, order[0], table[order[0]]) + Items(g, table, order[1..])
  }

  function OnlineItems(items: seq<Item>): seq<Item> {
    if items == [] then []
    else (if items[0].online then [items[0]] else []) + OnlineItems(items[1..])
  }

  lemma {:induction false} OnlineItemsConcat(a: seq<Item>, b: seq<Item>)
    ensures OnlineItems(a + b) == OnlineItems(a) + OnlineItems(b)
  {
    if a == [] {
      assert a + b == b;
    } else {
      assert (a + b)[1..] == a[1..] + b;
      OnlineItemsConcat(a[1..], b);
      Associative([a[0]], OnlineItems(a[1..]), OnlineItems(b));
    }
  }

  lemma {:induction false} OnlineItemsUniform(items: seq<Item>, online: bool)
    requires forall i :: 0 <= i < |items| ==> items[i].online == online
    ensures OnlineItems(items) == if online then items else []
  {
    if items != [] {
      OnlineItemsUniform(items[1..], online);
    }
  }

  lemma EntryItemsSplit(g: Geometry, id: Id, e: Entry)
    ensures |OnlineItems(EntryItems(g, id, e))| == |e.online|
    ensures |EntryItems(g, id, e)| == |e.online| + |e.offline|
  {
    OnlineItemsConcat(OnlineOf(g, id, e.online), OfflineOf(g, id, e.offline));
    OnlineItemsUniform(OnlineOf(g, id, e.online), true);
    OnlineItemsUniform(OfflineOf(g, id, e.offline), false);
  }

  lemma {:induction false} ItemsAppend(g: Geometry, table: map<Id, Entry>, order: seq<Id>, id: Id)
    requires id in table
    ensures Items(g, table, order + [id]) == Items(g, table, order) + EntryItems(g, id, table[id])
  {
    if order == [] {
      assert [id][1..] == [];
    } else {
      assert (order + [id])[1..] == order[1..] + [id];
      ItemsAppend(g, table, order[1..], id);
    }
  }

  /** Adding to a counter that may have wrapped around. */
  lemma AddU32(x: int, y: nat)
    ensures U32(U32(x) + y) == U32(x + y)
  {
    QuotientRemainder(x, TWO_32);
  }

  /** The leases of the entries that are offline. */
  function OfflineCount(g: Geometry, table: map<Id, Entry>, order: seq<Id>): int {
    |Items(g, table, order)| - |OnlineItems(Items(g, table, order))|
  }

  lemma ItemsPrefix(g: Geometry, table: map<Id, Entry>, order: seq<Id>, i: nat)
    requires i < |order| && order[i] in table
    ensures var before, after := Items(g, table, order[..i]), Items(g, table, order[..i + 1]);
      && |after| == |before| + |table[order[i]].online| + |table[order[i]].offline|
      && |OnlineItems(after)| == |OnlineItems(before)| + |table[order[i]].online|
  {
    assert order[..i + 1] == order[..i] + [order[i]];
    ItemsAppend(g, table, order[..i], order[i]);
    OnlineItemsConcat(Items(g, table, order[..i]), EntryItems(g, order[i], table[order[i]]));
    EntryItemsSplit(g, order[i], table[order[i]]);
  }

  lemma EntryItemsMember(g: Geometry, id: Id, e: Entry, item: Item)
    ensures item in EntryItems(g, id, e) <==>
      item.id == id &&
      if item.online then exists l :: l in e.online && item.address == AddressOf(g, l.offset)
      else exists o :: o in e.offline && item.address == AddressOf(g, o)
  {
    var online, offline := OnlineOf(g, id, e.online), OfflineOf(g, id, e.offline);
    if item.id == id && item.online {
      if l :| l in e.online && item.address == AddressOf(g, l.offset) {
        var i :| 0 <= i < |e.online| && e.online[i] == l;
        assert online[i] == item;
      }
    }
    if item.id == id && !item.online {
      if o :| o in e.offline && item.address == AddressOf(g, o) {
        var i :| 0 <= i < |e.offline| && e.offline[i] == o;
        assert offline[i] == item;
      }
    }
  }

  lemma {:induction false} ItemsMember(g: Geometry, table: map<Id, Entry>, order: seq<Id>, item: Item)
    ensures item in Items(g, table, order) <==>
      item.id in order && item.id in table && item in EntryItems(g, item.id, table[item.id])
  {
    if order != [] {
      ItemsMember(g, table, order[1..], item);
      if order[0] in table {
        EntryItemsMember(g, order[0], table[order[0]], item);
      }
    }
  }

  /**
    The leases enumerated are those in the table: each under its identity, with
    the address its offset stands for, online or offline as it is.
   */
  lemma ItemsAreLeases(g: Geometry, s: Leases, order: seq<Id>, item: Item)
    requires g.Block? && g.WellFormed() && Inv(g, s) && IsEnumeration(order, s.table)
    ensures item in Items(g, s.table, order) <==>
      && item.id in s.table
      && item.address.Some? && item.address.value.port == 0 && g.Serves(item.address.value.address)
      && var o := item.address.value.address.lo - g.base.address.lo + 1;
         if item.online then IsOnline(s.table[item.id], o) else o in s.table[item.id].offline
  {
    ItemsMember(g, s.table, order, item);
    if item.id in s.table {
      var e := s.table[item.id];
      EntryItemsMember(g, item.id, e, item);
      forall o: nat | Holds(e, o)
        ensures g.Assignable(o) && OffsetToHost(g, o).Some? && OffsetToHost(g, o).value.port == 0
        ensures var a := OffsetToHost(g, o).value.address; g.Serves(a) && a.lo - g.base.address.lo + 1 == o
      {
        assert Owns(s, item.id, o);
        OffsetHasAddress(g, o);
      }
      forall l | l in e.online ensures Holds(e, l.offset) && IsOnline(e, l.offset) {
        var i :| 0 <= i < |e.online| && e.online[i] == l;
      }
      if item.address.Some? && g.Serves(item.address.value.address) && item.address.value.port == 0 {
        var o := item.address.value.address.lo - g.base.address.lo + 1;
        OffsetHasAddress(g, o);
        assert OffsetToHost(g, o) == item.address;
        if IsOnline(e, o) {
          var i :| 0 <= i < |e.online| && e.online[i].offset == o;
          assert e.online[i] in e.online;
        }
      }
    }
  }

  /** Of the leases of one identity the online ones come first. */
  lemma {:induction false} OnlineFirst(g: Geometry, table: map<Id, Entry>, order: seq<Id>, i: nat, j: nat)
    requires NoDuplicates(order) && i < j < |Items(g, table, order)|
    requires var items := Items(g, table, order); items[i].id == items[j].id && items[j].online
    ensures Items(g, table, order)[i].online
  {
    if order[0] !in table {
      OnlineFirst(g, table, order[1..], i, j);
    } else {
      var first, rest := EntryItems(g, order[0], table[order[0]]), Items(g, table, order[1..]);
      var items := Items(g, table, order);
      EntryItemsMember(g, order[0], table[order[0]], items[i]);
      if j >= |first| {
        assert items[j] == rest[j - |first|] && items[j] in rest;
        ItemsMember(g, table, order[1..], items[j]);
        if i >= |first| {
          OnlineFirst(g, table, order[1..], i - |first|, j - |first|);
        }
      }
    }
  }

  lemma FirstOnline(g: Geometry, id: Id, online: seq<Lease>, offline: seq<nat>, rest: seq<Item>)
    requires online != []
    ensures EntryItems(g, id, Entry(online, offline)) + rest ==
            [Item(id, AddressOf(g, online[0].offset), true)]
            + (EntryItems(g, id, Entry(online[1..], offline)) + rest)
  {
    assert OnlineOf(g, id, online) == [Item(id, AddressOf(g, online[0].offset), true)] + OnlineOf(g, id, online[1..]);
  }

  lemma FirstOffline(g: Geometry, id: Id, offline: seq<nat>, rest: seq<Item>)
    requires offline != []
    ensures EntryItems(g, id, Entry([], offline)) + rest ==
            [Item(id, AddressOf(g, offline[0]), false)] + (EntryItems(g, id, Entry([], offline[1..])) + rest)
  {
    assert OfflineOf(g, id, offline) == [Item(id, AddressOf(g, offline[0]), false)] + OfflineOf(g, id, offline[1..]);
  }

  /** The hand-written enumerator; the pool stays locked, and so unchanged, while it exists. */
  class LeaseEnumerator {
    const geometry: Geometry
    const table: map<Id, Entry>
    var entries: seq<Id>
    var entry: Option<Id>
    var online: Option<seq<Lease>>
    var offline: Option<seq<nat>>

    /** The inner enumerators exist whenever there is a current entry. */
    ghost predicate Valid()
      reads this
    {
      && (forall id :: id in entries ==> id in table)
      && (entry.Some? ==> online.Some? && offline.Some?)
    }

    ghost function Remaining(): seq<Item>
      requires Valid()
      reads this
    {
      (if entry.Some? then EntryItems(geometry, entry.value, Entry(online.value, offline.value)) else [])
      + Items(geometry, table, entries)
    }

    constructor (pool: Pool, order: seq<Id>)
      requires IsEnumeration(order, pool.leases)
      ensures Valid() && Remaining() == Items(pool.geometry, pool.leases, order)
    {
      geometry, table := pool.geometry, pool.leases;
      entries, entry, online, offline := order, None, None, None;
    }

    /**
      Yields the next lease. Once it has returned FALSE it may be called again
      exactly if there was no entry at all: behind an entry the inner enumerators
      are gone, and the next call would use them.
     */
    method Enumerate() returns (found: bool, item: Item)
      requires Valid()
      modifies this
      ensures found <==> old(Remaining()) != []
      ensures found ==> Valid() && old(Remaining()) == [item] + Remaining()
      ensures entry.None? <==> old(entry).None? && old(entries) == []
      ensures !found ==> entries == [] && (Valid() <==> entry.None?)
    {
      item := Item("", None, false);
      while true
        invariant Valid() && Remaining() == old(Remaining())
        invariant entry.None? ==> old(entry).None? && entries == old(entries)
        invariant old(entry).None? && old(entries) == [] ==> entry.None?
        decreases |entries|, entry.Some?
      {
        if entry.Some? {
          if online.value != [] {
            var lease := online.value[0];
            item := Item(entry.value, AddressOf(geometry, lease.offset), true);
            FirstOnline(geometry, entry.value, online.value, offline.value, Items(geometry, table, entries));
            online := Some(online.value[1..]);
            return true, item;
          }
          if offline.value != [] {
            var offset := offline.value[0];
            item := Item(entry.value, AddressOf(geometry, offset), false);
            FirstOffline(geometry, entry.value, offline.value, Items(geometry, table, entries));
            offline := Some(offline.value[1..]);
            return true, item;
          }
          online, offline := None, None;
        }
        if entries == [] {
          return false, item;
        }
        entry, entries := Some(entries[0]), entries[1..];
        online, offline := Some(table[entry.value].online), Some(table[entry.value].offline);
      }
    }
  }

  /** Calling the enumerator until it returns FALSE yields every lease once, in order. */
  method EnumerateLeases(pool: Pool, order: seq<Id>) returns (items: seq<Item>)
    requires IsEnumeration(order, pool.leases)
    ensures items == Items(pool.geometry, pool.leases, order)
  {
    var e := new LeaseEnumerator(pool, order);
    items := [];
    var found := true;
    ghost var all := e.Remaining();
    while found
      invariant found ==> e.Valid() && items + e.Remaining() == all
      invariant !found ==> items == all
      decreases if found then 1 + |e.Remaining()| else 0
    {
      var item;
      found, item := e.Enumerate();
      if found {
        Associative(items, [item], e.Remaining());
        items := items + [item];
      }
    }
  }
}
