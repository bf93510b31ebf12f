/**
  Address arithmetic of the in-memory virtual IP pool (mem_pool.c): which
  addresses a pool serves, and how they map to lease offsets and back.  All
  arithmetic on 32-bit words is written out modulo 2^32.
 */
module PoolAddress {
  import opened Wrappers

  const TWO_32: nat := 0x1_0000_0000

  /** The value a u_int or u_int32_t variable holds after being assigned x. */
  function U32(x: int): nat {
    x % TWO_32
  }

  type Word = x: int | 0 <= x < TWO_32 witness 0

  /** `lo` is the last 32-bit block in host byte order, `hi` the twelve bytes before it. */
  datatype Address = V4(lo: Word) | V6(hi: nat, lo: Word)

  datatype Host = Host(address: Address, port: nat)

  predicate SameFamily(a: Address, b: Address) {
    a.V4? == b.V4?
  }

  /** The addresses agree in family and in everything but the last 32-bit block. */
  predicate SamePrefix(a: Address, b: Address) {
    (a.V4? && b.V4?) || (a.V6? && b.V6? && a.hi == b.hi)
  }

  function WithLo(a: Address, lo: Word): Address {
    if a.V4? then V4(lo) else V6(a.hi, lo)
  }

  /** The fields of a pool that never change once it is created. */
  datatype Geometry =
    | NoAddresses
    | Block(base: Host, networkId: bool, size: Word)
  {
    function Size(): Word {
      if NoAddresses? then 0 else size
    }

    /** 1 if the first address of the block has to be skipped. */
    function Skip(): nat {
      if Block? && networkId then 1 else 0
    }

    /** The block ends at 255.255.255.255 at the latest; one that starts with its network id is a limited CIDR block. */
    ghost predicate WellFormed() {
      Block? ==>
        && base.address.lo + size <= TWO_32
        && (networkId ==> base.address.lo + size < TWO_32 - 1 && 2 * size <= TWO_32)
    }

    /** The sum formed by host2offset does not wrap around. */
    predicate EndsBelowTop() {
      Block? && base.address.lo + size < TWO_32
    }

    /** The offsets the pool may ever hand out. */
    predicate Assignable(offset: int) {
      1 + Skip() <= offset <= Size() + Skip()
    }

    /** The addresses the pool serves. */
    predicate Serves(a: Address) {
      && Block?
      && SamePrefix(a, base.address)
      && base.address.lo + Skip() <= a.lo < base.address.lo + Skip() + size
    }
  }

  function OffsetToHost(g: Geometry, offset: nat): Option<Host>
    requires g.Block?
  {
    var o := U32(offset - 1);
    if o > g.size then None
    else Some(Host(WithLo(g.base.address, U32(o + g.base.address.lo)), 0))
  }

  /** The C int result, read as the unsigned word every caller compares it with: -1 is 0xFFFFFFFF. */
  function HostToOffset(g: Geometry, a: Address): Word
    requires g.Block?
  {
    if !SamePrefix(a, g.base.address) then U32(-1)
    else if a.lo > U32(g.base.address.lo + g.size) then U32(-1)
    else U32(a.lo - g.base.address.lo + 1)
  }

  // ---------- creating a pool ----------

  function Pow2(n: nat): (p: nat)
    ensures p > 0
  {
    if n == 0 then 1 else 2 * Pow2(n - 1)
  }

  lemma {:induction false} Pow2Adds(m: nat, n: nat)
    ensures Pow2(m + n) == Pow2(m) * Pow2(n)
  {
    if m > 0 {
      Pow2Adds(m - 1, n);
      assert Pow2(m + n) == 2 * Pow2(m - 1 + n);
      assert Pow2(m) * Pow2(n) == 2 * (Pow2(m - 1) * Pow2(n));
    }
  }

  lemma Pow2Of32()
    ensures Pow2(32) == TWO_32
  {
    assert Pow2(8) == 256;
    Pow2Adds(8, 8);
    Pow2Adds(16, 16);
  }

  lemma {:induction false} Pow2Grows(m: nat, n: nat)
    requires m <= n
    ensures Pow2(m) <= Pow2(n)
  {
    if m < n {
      Pow2Grows(m, n - 1);
    }
  }

  lemma Pow2Of31()
    ensures 2 * Pow2(31) == TWO_32
  {
    Pow2Of32();
    assert Pow2(32) == 2 * Pow2(31);
  }

  /** Shift left within 32 bits and back right, as the C code isolates the host bits. */
  function NetworkIdDiff(a: Address, hostbits: nat): int
    requires hostbits <= 32
  {
    if hostbits == 0 then 0 else ShiftedBack(a.lo, Pow2(32 - hostbits))
  }

  function ShiftedBack(x: int, s: int): int
    requires s > 0
  {
    U32(x * s) / s
  }

  lemma MulAssoc(x: int, y: int, z: int)
    ensures (x * y) * z == x * (y * z)
  {
  }

  lemma MulMonotone(x: int, y: int, s: int)
    requires x <= y && s >= 0
    ensures x * s <= y * s
  {
  }

  lemma DivOfProduct(r: int, s: int)
    requires s > 0
    ensures (r * s) / s == r
  {
    var d := (r * s) / s;
    QuotientRemainder(r * s, s);
    if d < r {
      MulMonotone(1, r - d, s);
    } else if d > r {
      MulMonotone(1, d - r, s);
    }
  }

  lemma QuotientRemainder(x: int, m: int)
    requires m > 0
    ensures x == (x / m) * m + x % m
    ensures 0 <= x % m < m
  {
  }

  lemma ModOfSum(q: nat, y: nat)
    requires y < TWO_32
    ensures U32(q * TWO_32 + y) == y
  {
  }

  lemma ShiftOutAndBack(q: nat, r: nat, m: nat, s: nat)
    requires m > 0 && s > 0 && m * s == TWO_32 && r < m
    ensures ShiftedBack(q * m + r, s) == r
  {
    var y := r * s;
    assert (q * m + r) * s == (q * m) * s + y;
    MulAssoc(q, m, s);
    assert (q * m) * s == q * TWO_32;
    MulMonotone(r, m - 1, s);
    assert (m - 1) * s == TWO_32 - s;
    MulMonotone(0, r, s);
    ModOfSum(q, y);
    DivOfProduct(r, s);
  }

  /** The two shifts compute the host part: the distance from the start of the subnet. */
  lemma NetworkIdDiffIsHostPart(a: Address, hostbits: nat)
    requires hostbits <= 31
    ensures NetworkIdDiff(a, hostbits) == a.lo % Pow2(hostbits)
  {
    if hostbits > 0 {
      var m, s := Pow2(hostbits), Pow2(32 - hostbits);
      assert m * s == TWO_32 by {
        Pow2Adds(hostbits, 32 - hostbits);
        Pow2Of32();
      }
      QuotientRemainder(a.lo, m);
      DivIsNat(a.lo, m);
      ShiftOutAndBack(a.lo / m, a.lo % m, m, s);
    }
  }

  lemma DivIsNat(x: nat, m: nat)
    requires m > 0
    ensures x / m >= 0
  {
  }

  function Clamp(x: int, low: int, high: int): int {
    if x < low then low else if x > high then high else x
  }

  const POOL_LIMIT: nat := 31

  /** Host bits of a CIDR pool: prefix clamped to the address, then limited to 31 host bits. */
  function HostBits(a: Address, bits: int): (n: nat)
    ensures n <= POOL_LIMIT
  {
    var addrBits := if a.V4? then 32 else 128;
    var hostbits := addrBits - Clamp(bits, 0, addrBits);
    if hostbits > POOL_LIMIT then POOL_LIMIT else hostbits
  }

  lemma BlockFits(x: nat, m: nat, s: nat)
    requires m > 0 && s * m == TWO_32 && x < TWO_32
    ensures x - x % m + m <= TWO_32
  {
    var q := x / m;
    QuotientRemainder(x, m);
    if q >= s {
      MulMonotone(s, q, m);
    }
    MulMonotone(q + 1, s, m);
    assert (q + 1) * m == q * m + m;
  }

  lemma SubnetFits(lo: Word, hostbits: nat)
    requires hostbits <= 31
    ensures lo - lo % Pow2(hostbits) + Pow2(hostbits) <= TWO_32
    ensures lo % Pow2(hostbits) < Pow2(hostbits) <= 0x8000_0000
  {
    Pow2Grows(hostbits, 31);
    Pow2Of31();
    Pow2Adds(32 - hostbits, hostbits);
    Pow2Of32();
    BlockFits(lo, Pow2(hostbits), Pow2(32 - hostbits));
  }

  /** The part of a subnet of n addresses that a pool starting diff addresses into it serves. */
  function SubnetFrom(base: Host, n: nat, diff: nat): Geometry
    requires diff < n <= 0x8000_0000
  {
    if n > 2 then
      if diff == 0 then Block(base, true, n - 2)
      else Block(base, false, n - diff - 1)
    else if diff != 0 then Block(base, false, n - 1)
    else Block(base, false, n)
  }

  function CidrGeometry(base: Option<Host>, bits: int): Geometry {
    if base.None? then NoAddresses
    else
      var a := base.value.address;
      var hostbits := HostBits(a, bits);
      NetworkIdDiffIsHostPart(a, hostbits);
      SubnetFits(a.lo, hostbits);
      SubnetFrom(base.value, Pow2(hostbits), NetworkIdDiff(a, hostbits))
  }

  /** None for the ranges the constructor rejects. */
  function RangeGeometry(from: Host, to: Host): Option<Geometry> {
    var f, t := from.address, to.address;
    if !SameFamily(f, t) then None
    else if f.V6? && (f.hi > t.hi || (f.hi == t.hi && f.lo > t.lo)) then None
    else if f.V4? && f.lo > t.lo then None
    else if f.V6? && f.hi != t.hi then None
    else Some(Block(from, false, U32(U32(t.lo - f.lo) + 1)))
  }

  // ---------- what the pools serve ----------

  /**
    A usable address of the subnet of n addresses around `base`: not below base,
    and neither network id nor broadcast address of a subnet with more than two
    addresses.
   */
  predicate UsableInSubnet(base: Word, n: nat, lo: Word)
    requires n > 0
  {
    var start := base - base % n;
    && base <= lo < start + n
    && (n > 2 ==> lo != start && lo != start + n - 1)
  }

  lemma SubnetServesUsable(base: Host, n: nat, a: Address)
    requires 0 < n <= 0x8000_0000 && base.address.lo - base.address.lo % n + n <= TWO_32
    ensures base.address.lo % n < n
    ensures var g := SubnetFrom(base, n, base.address.lo % n);
      && g.Block? && g.base == base && g.WellFormed()
      && (g.Serves(a) <==> SamePrefix(a, base.address) && UsableInSubnet(base.address.lo, n, a.lo))
      && (g.Size() == 0 <==> n > 2 && base.address.lo % n == n - 1)
  {
    QuotientRemainder(base.address.lo, n);
  }

  /**
    A CIDR pool serves exactly the usable addresses of its subnet, limited to 31
    host bits, from its base on, and so nothing at all exactly if its base is the
    broadcast address of a subnet with more than two addresses.
   */
  lemma CidrServesUsable(base: Host, bits: int, a: Address)
    ensures var width := if base.address.V4? then 32 else 128;
      var n := Pow2(if bits >= width then 0 else if bits <= width - 31 then 31 else width - bits);
      var g := CidrGeometry(Some(base), bits);
      && g.Block? && g.base == base && g.WellFormed()
      && (g.Serves(a) <==> SamePrefix(a, base.address) && UsableInSubnet(base.address.lo, n, a.lo))
      && (g.Size() == 0 <==> n > 2 && base.address.lo % n == n - 1)
  {
    var hostbits := HostBits(base.address, bits);
    NetworkIdDiffIsHostPart(base.address, hostbits);
    SubnetFits(base.address.lo, hostbits);
    SubnetServesUsable(base, Pow2(hostbits), a);
  }

  /**
    A range is accepted exactly if both ends agree but for an ascending last
    block; the pool then serves the whole range, except that the range of all
    2^32 addresses has size 0 and so serves none.
   */
  lemma RangeServesInterval(from: Host, to: Host, a: Address)
    ensures var r := RangeGeometry(from, to);
      && (r.Some? <==> SamePrefix(from.address, to.address) && from.address.lo <= to.address.lo)
      && (r.Some? ==>
            && r.value.Block? && r.value.base == from && r.value.WellFormed()
            && (r.value.Size() == 0 <==> from.address.lo == 0 && to.address.lo == TWO_32 - 1)
            && (r.value.Size() != 0 ==>
                  (r.value.Serves(a) <==>
                   SamePrefix(a, from.address) && from.address.lo <= a.lo <= to.address.lo)))
  {
  }

  // ---------- offsets and addresses ----------

  /** An assignable offset has an address, and it is one the pool serves. */
  lemma OffsetHasAddress(g: Geometry, offset: nat)
    requires g.Block? && g.WellFormed() && g.Assignable(offset)
    ensures OffsetToHost(g, offset).Some?
    ensures var a := OffsetToHost(g, offset).value.address;
      && g.Serves(a)
      && a.lo == g.base.address.lo + offset - 1
  {
  }

  /** Distinct assignable offsets denote distinct addresses. */
  lemma OffsetsInjective(g: Geometry, o: nat, p: nat)
    requires g.Block? && g.WellFormed() && g.Assignable(o) && g.Assignable(p)
    requires OffsetToHost(g, o) == OffsetToHost(g, p)
    ensures o == p
  {
    OffsetHasAddress(g, o);
    OffsetHasAddress(g, p);
  }

  /**
    Exactly the served addresses map to assignable offsets, and map back, in a
    pool that ends below the top address; in one that ends there none does.
   */
  lemma AddressHasOffset(g: Geometry, a: Address)
    requires g.Block? && g.WellFormed() && g.size < TWO_32 - 1
    ensures g.Assignable(HostToOffset(g, a)) <==> g.Serves(a) && g.EndsBelowTop()
    ensures g.Serves(a) && g.EndsBelowTop() ==>
      OffsetToHost(g, HostToOffset(g, a)) == Some(Host(a, 0)) && HostToOffset(g, a) == a.lo - g.base.address.lo + 1
  {
    var b := g.base.address;
    if SamePrefix(a, b) && g.EndsBelowTop() && a.lo <= b.lo + g.size {
      if a.lo < b.lo {
        assert HostToOffset(g, a) == if a.lo == b.lo - 1 then 0 else TWO_32 + a.lo - b.lo + 1;
      } else {
        assert HostToOffset(g, a) == a.lo - b.lo + 1;
        if g.Serves(a) {
          OffsetHasAddress(g, a.lo - b.lo + 1);
        }
      }
    }
  }

  /** host2offset undoes offset2host on every assignable offset exactly if base + size stays below 2^32. */
  lemma RoundTripIffEndsBelowTop(g: Geometry)
    requires g.Block? && g.WellFormed() && g.size != 0
    ensures g.EndsBelowTop() <==>
      forall o: nat :: g.Assignable(o) ==>
        OffsetToHost(g, o).Some? && HostToOffset(g, OffsetToHost(g, o).value.address) == o
  {
    if g.EndsBelowTop() {
      forall o: nat | g.Assignable(o)
        ensures OffsetToHost(g, o).Some? && HostToOffset(g, OffsetToHost(g, o).value.address) == o
      {
        OffsetHasAddress(g, o);
        assert U32(o) == o;
      }
    } else {
      assert g.Assignable(1);
      OffsetHasAddress(g, 1);
      assert HostToOffset(g, OffsetToHost(g, 1).value.address) == U32(-1);
    }
  }

  /** -1, which stands for a foreign address, is itself an assignable offset of a pool of 2^32 - 1 addresses. */
  lemma ForeignAddressesStayOutIffNotHuge(g: Geometry)
    requires g.Block? && g.WellFormed()
    ensures g.size < TWO_32 - 1 <==> forall a: Address :: g.Assignable(HostToOffset(g, a)) ==> g.Serves(a)
  {
    if g.size < TWO_32 - 1 {
      forall a: Address | g.Assignable(HostToOffset(g, a))
        ensures g.Serves(a)
      {
        AddressHasOffset(g, a);
      }
    } else {
      assert HostToOffset(g, Foreign(g)) == TWO_32 - 1;
      assert g.Assignable(HostToOffset(g, Foreign(g))) && !g.Serves(Foreign(g));
    }
  }

  /** An address of the other family. */
  function Foreign(g: Geometry): Address
    requires g.Block?
  {
    if g.base.address.V4? then V6(0, 0) else V4(0)
  }

  /** The pool 255.255.255.255/32 hands out its one address but does not recognise it again. */
  lemma TopAddressIsNotRecognised()
    ensures var g := CidrGeometry(Some(Host(V4(0xFFFF_FFFF), 0)), 32);
      && g.Block? && g.size == 1
      && OffsetToHost(g, 1) == Some(Host(V4(0xFFFF_FFFF), 0))
      && HostToOffset(g, V4(0xFFFF_FFFF)) != 1
  {
  }
}
