/**
  Netlink messages and their attributes (rtnetlink.h, netlink.h): records with
  a length field, laid out one after the other on four-byte boundaries, and the
  macros that walk over them. Numbers are little-endian.
 */
module Netlink {
  import opened Sequences

  type Byte = x: int | 0 <= x < 256 witness 0
  type Bytes = seq<Byte>

  /** Attributes have a 16-bit, messages a 32-bit length at the head of their header. */
  datatype Format = RTA | NLMSG {
    function LengthWidth(): nat {
      if RTA? then 2 else 4
    }

    /** sizeof(struct rtattr), sizeof(struct nlmsghdr) */
    function HeaderLength(): nat {
      if RTA? then 4 else 16
    }
  }

  /** The rest of the header, behind the length, and the payload. */
  datatype Record = Record(meta: Bytes, payload: Bytes)

  const ALIGNTO: nat := 4

  /** RTA_ALIGN, NLMSG_ALIGN: the next multiple of four. */
  function Align(len: nat): (a: nat)
    ensures len <= a < len + ALIGNTO
  {
    len + ALIGNTO - 1 - (len + ALIGNTO - 1) % ALIGNTO
  }

  /** It is the least multiple of four that is not below. */
  lemma AlignIsLeast(len: nat, m: nat)
    ensures len <= Align(len) && Align(len) % 4 == 0
    ensures len <= m && m % 4 == 0 ==> Align(len) <= m
  {
  }

  /** RTA_LENGTH, NLMSG_LENGTH */
  function Length(f: Format, payload: nat): nat {
    Align(f.HeaderLength()) + payload
  }

  // ---------- numbers ----------

  function Limit(width: nat): (n: nat)
    ensures n > 0
  {
    if width == 0 then 1 else 256 * Limit(width - 1)
  }

  function ToBytes(n: nat, width: nat): (b: Bytes)
    ensures |b| == width
  {
    if width == 0 then [] else [n % 256] + ToBytes(n / 256, width - 1)
  }

  function FromBytes(b: Bytes): nat {
    if b == [] then 0 else b[0] + 256 * FromBytes(b[1..])
  }

  lemma SmallModulo(n: nat, m: nat)
    requires n < m
    ensures n % m == n
  {
  }

  lemma {:induction false} NumberRoundTrip(n: nat, width: nat)
    requires n < Limit(width)
    ensures FromBytes(ToBytes(n, width)) == n
  {
    if width > 0 {
      NumberRoundTrip(n / 256, width - 1);
      assert ToBytes(n, width)[1..] == ToBytes(n / 256, width - 1);
    }
  }

  lemma {:induction false} BytesRoundTrip(b: Bytes)
    ensures FromBytes(b) < Limit(|b|)
    ensures ToBytes(FromBytes(b), |b|) == b
  {
    if b != [] {
      BytesRoundTrip(b[1..]);
      assert FromBytes(b) / 256 == FromBytes(b[1..]) && FromBytes(b) % 256 == b[0];
    }
  }

  // ---------- laying out ----------

  predicate WellFormed(f: Format, r: Record) {
    |r.meta| == f.HeaderLength() - f.LengthWidth()
  }

  /** The length fits the field it is stored in. */
  predicate Fits(f: Format, r: Record) {
    WellFormed(f, r) && Length(f, |r.payload|) < Limit(f.LengthWidth())
  }

  function Zeros(n: nat): Bytes {
    seq(n, _ => 0)
  }

  /** Header and payload without padding; the stored length is truncated to its field. */
  function Unpadded(f: Format, r: Record): (b: Bytes)
    requires WellFormed(f, r)
    ensures |b| == Length(f, |r.payload|)
  {
    ToBytes(Length(f, |r.payload|) % Limit(f.LengthWidth()), f.LengthWidth()) + r.meta + r.payload
  }

  function Padded(f: Format, r: Record): (b: Bytes)
    requires WellFormed(f, r)
    ensures |b| == Align(Length(f, |r.payload|))
  {
    Unpadded(f, r) + Zeros(Align(Length(f, |r.payload|)) - Length(f, |r.payload|))
  }

  /** A laid out record byte by byte: the length in little-endian order, the rest of the header, payload, zeros. */
  lemma WireLayout(f: Format, r: Record)
    requires WellFormed(f, r)
    ensures var b, head := Padded(f, r), if f.RTA? then 4 else 16;
      var size := head + |r.payload|;
      && size <= |b| < size + 4 && |b| % 4 == 0
      && b[0] == size % 256 && b[1] == size / 256 % 256
      && (f.RTA? ==> b[2..4] == r.meta)
      && (f.NLMSG? ==>
            b[2] == size / 0x1_0000 % 256 && b[3] == size / 0x100_0000 % 256 && b[4..16] == r.meta)
      && b[head..size] == r.payload
      && forall i :: size <= i < |b| ==> b[i] == 0
  {
    var size, w := Length(f, |r.payload|), f.LengthWidth();
    AlignIsLeast(size, size);
    LengthBytes(size);
    Slices(ToBytes(size % Limit(w), w), r.meta, r.payload, Zeros(Align(size) - size));
  }

  lemma AtLeastOne(d: int, m: int)
    requires d >= 1 && m > 0
    ensures d * m >= m
  {
  }

  lemma QuotientRemainder(n: nat, m: nat)
    requires m > 0
    ensures n == (n / m) * m + n % m
    ensures 0 <= n % m < m
  {
  }

  lemma ModUnique(n: nat, m: nat, q: nat, r: nat)
    requires m > 0 && n == q * m + r && r < m
    ensures n % m == r
  {
    QuotientRemainder(n, m);
    var q' := n / m;
    if q' > q {
      AtLeastOne(q' - q, m);
    } else if q' < q {
      AtLeastOne(q - q', m);
    }
  }

  lemma ModSplits(n: nat, m: nat)
    requires m > 0
    ensures n % (256 * m) % 256 == n % 256 && n % (256 * m) / 256 == (n / 256) % m
  {
    var high := n / 256;
    assert n == 256 * high + n % 256 && high == high / m * m + high % m;
    assert n == high / m * (256 * m) + (256 * (high % m) + n % 256);
    ModUnique(n, 256 * m, high / m, 256 * (high % m) + n % 256);
  }

  /** Cutting a number off at the width first makes no difference. */
  lemma {:induction false} BytesOfRemainder(n: nat, width: nat)
    ensures ToBytes(n % Limit(width), width) == ToBytes(n, width)
  {
    if width > 0 {
      ModSplits(n, Limit(width - 1));
      BytesOfRemainder(n / 256, width - 1);
    }
  }

  lemma LengthBytes(size: nat)
    ensures ToBytes(size % Limit(2), 2) == [size % 256, size / 256 % 256]
    ensures ToBytes(size % Limit(4), 4) ==
      [size % 256, size / 256 % 256, size / 0x1_0000 % 256, size / 0x100_0000 % 256]
  {
    BytesOfRemainder(size, 2);
    BytesOfRemainder(size, 4);
    assert size / 256 / 256 == size / 0x1_0000 && size / 0x1_0000 / 256 == size / 0x100_0000;
    assert ToBytes(size / 0x100_0000, 1) == [size / 0x100_0000 % 256];
    assert ToBytes(size / 0x1_0000, 2) == [size / 0x1_0000 % 256] + ToBytes(size / 0x100_0000, 1);
    assert ToBytes(size / 256, 3) == [size / 256 % 256] + ToBytes(size / 0x1_0000, 2);
    assert ToBytes(size / 256, 1) == [size / 256 % 256];
  }

  predicate AllWellFormed(f: Format, rs: seq<Record>) {
    forall i :: 0 <= i < |rs| ==> WellFormed(f, rs[i])
  }

  predicate AllFit(f: Format, rs: seq<Record>) {
    AllWellFormed(f, rs) && forall i :: 0 <= i < |rs| ==> Fits(f, rs[i])
  }

  function Encode(f: Format, rs: seq<Record>): Bytes
    requires AllWellFormed(f, rs)
  {
    if rs == [] then [] else Padded(f, rs[0]) + Encode(f, rs[1..])
  }

  // ---------- walking ----------

  /** The length field of the header at the position. */
  function LengthAt(f: Format, buf: Bytes, pos: nat): nat
    requires pos + f.HeaderLength() <= |buf|
  {
    FromBytes(buf[pos..pos + f.LengthWidth()])
  }

  /** RTA_OK, NLMSG_OK: `len` is what remains of the buffer, possibly negative. */
  predicate Ok(f: Format, buf: Bytes, pos: nat, len: int)
    requires len == |buf| - pos
  {
    && len >= f.HeaderLength()
    && LengthAt(f, buf, pos) >= f.HeaderLength()
    && LengthAt(f, buf, pos) <= len
  }

  /** The record at the position: RTA_DATA and RTA_PAYLOAD, or NLMSG_DATA. */
  function RecordAt(f: Format, buf: Bytes, pos: nat): Record
    requires Ok(f, buf, pos, |buf| - pos)
  {
    Record(buf[pos + f.LengthWidth()..pos + f.HeaderLength()],
           buf[pos + f.HeaderLength()..pos + LengthAt(f, buf, pos)])
  }

  /** The positions a walk over the buffer visits from a position on. */
  function Visits(f: Format, buf: Bytes, pos: nat): seq<nat>
    decreases |buf| - pos
  {
    if !Ok(f, buf, pos, |buf| - pos) then []
    else [pos] + Visits(f, buf, pos + Align(LengthAt(f, buf, pos)))
  }

  /** The records it finds there. */
  function Decode(f: Format, buf: Bytes, pos: nat): seq<Record>
    decreases |buf| - pos
  {
    if !Ok(f, buf, pos, |buf| - pos) then []
    else [RecordAt(f, buf, pos)] + Decode(f, buf, pos + Align(LengthAt(f, buf, pos)))
  }

  /** OK and NEXT once. */
  lemma OneStep(f: Format, buf: Bytes, pos: nat)
    requires Ok(f, buf, pos, |buf| - pos)
    ensures var next := pos + Align(LengthAt(f, buf, pos));
      && Decode(f, buf, pos) == [RecordAt(f, buf, pos)] + Decode(f, buf, next)
      && Visits(f, buf, pos) == [pos] + Visits(f, buf, next)
  {
  }

  /** The remaining length with which the walk ends. */
  function Remaining(f: Format, buf: Bytes, pos: nat): int
    decreases |buf| - pos
  {
    if !Ok(f, buf, pos, |buf| - pos) then |buf| - pos
    else Remaining(f, buf, pos + Align(LengthAt(f, buf, pos)))
  }

  /**
    On arbitrary bytes the k-th visited header and payload lie within the buffer,
    and the next record is visited on the boundary behind it.
   */
  lemma {:induction false} VisitsStayInside(f: Format, buf: Bytes, pos: nat, k: nat)
    requires k < |Visits(f, buf, pos)|
    ensures var visits := Visits(f, buf, pos);
      && pos <= visits[k] && visits[k] + f.HeaderLength() <= |buf|
      && visits[k] + LengthAt(f, buf, visits[k]) <= |buf|
      && (k == 0 ==> visits[k] == pos)
      && (k + 1 < |visits| ==> visits[k + 1] == visits[k] + Align(LengthAt(f, buf, visits[k])))
    decreases |buf| - pos
  {
    OneStep(f, buf, pos);
    var next := pos + Align(LengthAt(f, buf, pos));
    if k > 0 {
      VisitsStayInside(f, buf, next, k - 1);
    } else if |Visits(f, buf, pos)| > 1 {
      VisitsStayInside(f, buf, next, 0);
    }
  }

  /** On arbitrary bytes the remaining length never falls below zero by the padding of more than one record. */
  lemma {:induction false} RemainderBounded(f: Format, buf: Bytes, pos: nat)
    requires pos < |buf| + ALIGNTO
    ensures Remaining(f, buf, pos) + ALIGNTO > 0
    decreases |buf| - pos
  {
    if Ok(f, buf, pos, |buf| - pos) {
      RemainderBounded(f, buf, pos + Align(LengthAt(f, buf, pos)));
    }
  }

  lemma SuffixReads(f: Format, head: Bytes, tail: Bytes, pos: nat)
    ensures var buf := head + tail;
      && (Ok(f, buf, |head| + pos, |buf| - (|head| + pos)) <==> Ok(f, tail, pos, |tail| - pos))
      && (Ok(f, tail, pos, |tail| - pos) ==>
            && LengthAt(f, buf, |head| + pos) == LengthAt(f, tail, pos)
            && RecordAt(f, buf, |head| + pos) == RecordAt(f, tail, pos))
  {
    var buf := head + tail;
    if |tail| - pos >= f.HeaderLength() {
      assert buf[|head| + pos..|head| + pos + f.LengthWidth()] == tail[pos..pos + f.LengthWidth()];
      assert buf[|head| + pos + f.LengthWidth()..|head| + pos + f.HeaderLength()]
          == tail[pos + f.LengthWidth()..pos + f.HeaderLength()];
      if Ok(f, tail, pos, |tail| - pos) {
        var l := LengthAt(f, tail, pos);
        assert buf[|head| + pos + f.HeaderLength()..|head| + pos + l] == tail[pos + f.HeaderLength()..pos + l];
      }
    }
  }

  /** A walk depends on what follows a position only. */
  lemma {:induction false} WalkOfSuffix(f: Format, head: Bytes, tail: Bytes, pos: nat)
    ensures Decode(f, head + tail, |head| + pos) == Decode(f, tail, pos)
    decreases |tail| - pos
  {
    SuffixReads(f, head, tail, pos);
    if Ok(f, tail, pos, |tail| - pos) {
      var next := pos + Align(LengthAt(f, tail, pos));
      WalkOfSuffix(f, head, tail, next);
      assert Decode(f, head + tail, |head| + pos) ==
        [RecordAt(f, head + tail, |head| + pos)] + Decode(f, head + tail, |head| + next);
    }
  }

  /** The header of a laid out record is read back, whatever follows. */
  lemma HeadIsRead(f: Format, r: Record, more: Bytes)
    requires Fits(f, r)
    ensures var buf := Unpadded(f, r) + more;
      && Ok(f, buf, 0, |buf| - 0)
      && LengthAt(f, buf, 0) == Length(f, |r.payload|)
      && RecordAt(f, buf, 0) == r
  {
    var size, w := Length(f, |r.payload|), f.LengthWidth();
    var number := ToBytes(size, w);
    UnpaddedFits(f, r);
    Slices(number, r.meta, r.payload, more);
    NumberRoundTrip(size, w);
  }

  lemma UnpaddedFits(f: Format, r: Record)
    requires Fits(f, r)
    ensures Unpadded(f, r) == ToBytes(Length(f, |r.payload|), f.LengthWidth()) + r.meta + r.payload
    ensures |ToBytes(Length(f, |r.payload|), f.LengthWidth())| + |r.meta| == f.HeaderLength()
    ensures f.HeaderLength() + |r.payload| == Length(f, |r.payload|)
  {
    SmallModulo(Length(f, |r.payload|), Limit(f.LengthWidth()));
  }

  /** The unpadded form of the last record, if there is one. */
  function Tail(f: Format, last: seq<Record>): Bytes
    requires AllWellFormed(f, last)
  {
    if last == [] then [] else Unpadded(f, last[0])
  }

  lemma LastIsRead(f: Format, last: seq<Record>)
    requires |last| <= 1 && AllFit(f, last)
    ensures Decode(f, Tail(f, last), 0) == last
  {
    if last != [] {
      var end := Unpadded(f, last[0]);
      HeadIsRead(f, last[0], []);
      assert end + [] == end;
      assert Decode(f, end, Align(|end|)) == [];
    }
  }

  lemma FirstFits(f: Format, rs: seq<Record>)
    requires AllFit(f, rs) && rs != []
    ensures Fits(f, rs[0]) && AllFit(f, rs[1..])
    ensures rs == [rs[0]] + rs[1..]
  {
  }

  /** Any list of records that fit is recovered exactly, in order, even if the last one is not padded. */
  lemma {:induction false} RoundTrip(f: Format, rs: seq<Record>, last: seq<Record>)
    requires |last| <= 1 && AllFit(f, rs) && AllFit(f, last)
    ensures Decode(f, Encode(f, rs) + Tail(f, last), 0) == rs + last
    decreases |rs|
  {
    if rs == [] {
      LastIsRead(f, last);
      assert Encode(f, rs) + Tail(f, last) == Tail(f, last) && rs + last == last;
    } else {
      FirstFits(f, rs);
      RoundTrip(f, rs[1..], last);
      var middle, end := Encode(f, rs[1..]), Tail(f, last);
      Associative(Padded(f, rs[0]), middle, end);
      FirstIsRead(f, rs[0], middle + end);
      Associative([rs[0]], rs[1..], last);
    }
  }

  lemma FirstIsRead(f: Format, r: Record, rest: Bytes)
    requires Fits(f, r)
    ensures Decode(f, Padded(f, r) + rest, 0) == [r] + Decode(f, rest, 0)
  {
    var padding := Zeros(Align(Length(f, |r.payload|)) - Length(f, |r.payload|));
    Associative(Unpadded(f, r), padding, rest);
    var buf := Padded(f, r) + rest;
    HeadIsRead(f, r, padding + rest);
    WalkOfSuffix(f, Padded(f, r), rest, 0);
    OneStep(f, buf, 0);
  }

  /** Whatever a walk finds in arbitrary bytes can be laid out again and is then found again. */
  lemma {:induction false} DecodedRecordsFit(f: Format, buf: Bytes, pos: nat)
    ensures AllFit(f, Decode(f, buf, pos))
    decreases |buf| - pos
  {
    if Ok(f, buf, pos, |buf| - pos) {
      BytesRoundTrip(buf[pos..pos + f.LengthWidth()]);
      DecodedRecordsFit(f, buf, pos + Align(LengthAt(f, buf, pos)));
    }
  }

  /** A list of records survives exactly if every length fits its field. */
  lemma ListSurvivesIffFits(f: Format, rs: seq<Record>, last: seq<Record>)
    requires AllWellFormed(f, rs) && AllWellFormed(f, last) && |last| <= 1
    ensures Decode(f, Encode(f, rs) + Tail(f, last), 0) == rs + last <==> AllFit(f, rs) && AllFit(f, last)
  {
    var buf := Encode(f, rs) + Tail(f, last);
    if AllFit(f, rs) && AllFit(f, last) {
      RoundTrip(f, rs, last);
    }
    if Decode(f, buf, 0) == rs + last {
      DecodedRecordsFit(f, buf, 0);
      assert forall i :: 0 <= i < |rs| ==> rs[i] == (rs + last)[i];
      assert forall i :: 0 <= i < |last| ==> last[i] == (rs + last)[|rs| + i];
    }
  }

  /** A single record survives exactly if its length fits its field; a longer one is cut or lost. */
  lemma SurvivesIffFits(f: Format, r: Record)
    requires WellFormed(f, r)
    ensures Decode(f, Padded(f, r), 0) == [r] <==> Fits(f, r)
  {
    ListSurvivesIffFits(f, [r], []);
    assert [r][1..] == [];
    assert Encode(f, [r]) + Tail(f, []) == Padded(f, r) && [r] + [] == [r];
  }

  /** An attribute with a payload of 65532 bytes has a stored length of zero and is not found at all. */
  lemma LongAttributeIsLost()
    ensures var r := Record([0, 0], Zeros(65532));
      WellFormed(RTA, r) && Decode(RTA, Padded(RTA, r), 0) == []
  {
    var r := Record([0, 0], Zeros(65532));
    var buf := Padded(RTA, r);
    assert Limit(2) == 256 * Limit(1) && Limit(1) == 256 * Limit(0);
    assert Length(RTA, |r.payload|) % Limit(2) == 0;
    assert buf[0..2] == ToBytes(0, 2);
    NumberRoundTrip(0, 2);
  }

  // ---------- the code ----------

  lemma WalkOn(f: Format, buf: Bytes, pos: nat, rs: seq<Record>, visited: seq<nat>)
    requires Ok(f, buf, pos, |buf| - pos)
    ensures var next := pos + Align(LengthAt(f, buf, pos));
      && rs + Decode(f, buf, pos) == rs + [RecordAt(f, buf, pos)] + Decode(f, buf, next)
      && visited + Visits(f, buf, pos) == visited + [pos] + Visits(f, buf, next)
  {
    OneStep(f, buf, pos);
    var next := pos + Align(LengthAt(f, buf, pos));
    Associative(rs, [RecordAt(f, buf, pos)], Decode(f, buf, next));
    Associative(visited, [pos], Visits(f, buf, next));
  }

  /** Walk over a received buffer, whose length is an int. */
  method Walk(f: Format, buf: Bytes) returns (rs: seq<Record>, visited: seq<nat>)
    requires |buf| < 0x8000_0000
    ensures rs == Decode(f, buf, 0) && visited == Visits(f, buf, 0)
  {
    rs, visited := [], [];
    var pos: nat, len := 0, |buf|;
    while Ok(f, buf, pos, len)
      invariant len == |buf| - pos
      invariant Decode(f, buf, 0) == rs + Decode(f, buf, pos)
      invariant Visits(f, buf, 0) == visited + Visits(f, buf, pos)
      decreases len
    {
      var step := Align(LengthAt(f, buf, pos));
      WalkOn(f, buf, pos, rs, visited);
      rs := rs + [RecordAt(f, buf, pos)];
      visited := visited + [pos];
      len := len - step;
      pos := pos + step;
    }
  }

  /** A socket buffer that is filled from the front. */
  class SkBuff {
    const data: array<Byte>
    var tail: nat

    ghost predicate Valid()
      reads this
    {
      tail <= data.Length
    }

    constructor (size: nat)
      ensures Valid() && tail == 0 && data.Length == size && fresh(data)
    {
      data := new Byte[size](_ => 0);
      tail := 0;
    }

    method Write(at: nat, bytes: Bytes)
      requires at + |bytes| <= data.Length
      modifies data
      ensures data[..] == Splice(old(data[..]), at, bytes)
    {
      for i := 0 to |bytes|
        invariant forall k :: 0 <= k < at || at + i <= k < data.Length ==> data[k] == old(data[k])
        invariant forall k :: at <= k < at + i ==> data[k] == bytes[k - at]
      {
        data[at + i] := bytes[i];
      }
    }

    method WriteThree(i: nat, x: Bytes, j: nat, y: Bytes, k: nat, z: Bytes)
      requires i + |x| <= data.Length && j + |y| <= data.Length && k + |z| <= data.Length
      modifies data
      ensures data[..] == Splice(Splice(Splice(old(data[..]), i, x), j, y), k, z)
    {
      Write(i, x);
      Write(j, y);
      Write(k, z);
    }

    /** Write the header of a record, clear the padding and fill in the payload, in reserved space. */
    method Fill(start: nat, f: Format, r: Record)
      requires WellFormed(f, r) && start + Align(Length(f, |r.payload|)) <= data.Length
      modifies data
      ensures data[..][..start + Align(Length(f, |r.payload|))] == old(data[..])[..start] + Padded(f, r)
    {
      var size := Length(f, |r.payload|);
      ghost var before := data[..];
      LaidOut(before, start, f, r);
      var head := ToBytes(size % Limit(f.LengthWidth()), f.LengthWidth()) + r.meta;
      WriteThree(start, head, start + size, Zeros(Align(size) - size), start + f.HeaderLength(), r.payload);
    }

    /**
      Append a record if there is room for it: reserve the aligned space, write the
      header and clear the padding, then fill in the payload.
     */
    method Put(f: Format, r: Record) returns (ok: bool)
      requires Valid() && WellFormed(f, r)
      modifies this`tail, data
      ensures Valid()
      ensures ok <==> old(tail) + Align(Length(f, |r.payload|)) <= data.Length
      ensures ok ==> data[..tail] == old(data[..tail]) + Padded(f, r)
      ensures !ok ==> tail == old(tail) && data[..] == old(data[..])
    {
      var size := Length(f, |r.payload|);
      if data.Length - tail < Align(size) {
        return false;
      }
      var start := tail;
      tail := tail + Align(size);
      Fill(start, f, r);
      assert data[..tail] == data[..][..tail] && old(data[..tail]) == old(data[..])[..start];
      return true;
    }
  }

  function Splice(s: Bytes, at: nat, bytes: Bytes): Bytes
    requires at + |bytes| <= |s|
  {
    s[..at] + bytes + s[at + |bytes|..]
  }

  /** Three pieces written in turn, the middle one last, end up side by side. */
  lemma SpliceThree(s: Bytes, start: nat, a: Bytes, b: Bytes, c: Bytes)
    requires start + |a| + |b| + |c| <= |s|
    ensures var s' := Splice(Splice(Splice(s, start, a), start + |a| + |b|, c), start + |a|, b);
      |s'| == |s| && s'[..start + |a| + |b| + |c|] == s[..start] + a + b + c
  {
    var s1 := Splice(s, start, a);
    var s2 := Splice(s1, start + |a| + |b|, c);
    var s3 := Splice(s2, start + |a|, b);
    assert s2[..start + |a|] == s1[..start + |a|] == s[..start] + a;
    assert s3[start + |a| + |b|..] == s2[start + |a| + |b|..];
    assert s2[start + |a| + |b|..][..|c|] == c;
    assert s3 == s2[..start + |a|] + b + s2[start + |a| + |b|..];
  }

  lemma LaidOut(s: Bytes, start: nat, f: Format, r: Record)
    requires WellFormed(f, r) && start + Align(Length(f, |r.payload|)) <= |s|
    ensures var size := Length(f, |r.payload|);
      var head := ToBytes(size % Limit(f.LengthWidth()), f.LengthWidth()) + r.meta;
      var s' := Splice(Splice(Splice(s, start, head), start + size, Zeros(Align(size) - size)),
                       start + f.HeaderLength(), r.payload);
      |s'| == |s| && s'[..start + Align(size)] == s[..start] + Padded(f, r)
  {
    var size := Length(f, |r.payload|);
    var head := ToBytes(size % Limit(f.LengthWidth()), f.LengthWidth()) + r.meta;
    SpliceThree(s, start, head, r.payload, Zeros(Align(size) - size));
    Associative(s[..start], head, r.payload);
    Associative(s[..start], head + r.payload, Zeros(Align(size) - size));
  }
}
