/**
 Micro logs. A file that has a log reads, region by region, from the newest log record of the region or
 else from its own extent. Appending a record changes just the bytes written.
 */
module CoffeeLog {
  import opened Bytes
  import opened PowersOfTwo
  import opened CoffeeLayout

  function U16(d: seq<Byte>, at: nat): (v: nat)
    requires at + 1 < |d|
    ensures v < 65536
  {
    d[at] as int + 256 * (d[at + 1] as int)
  }

  function U16Bytes(v: nat): (b: seq<Byte>)
    requires v < 65536
    ensures |b| == 2
  {
    [v % 256, v / 256]
  }

  /** The storage after writing `bytes` at `at`. */
  function Write(d: seq<Byte>, at: nat, bytes: seq<Byte>): (r: seq<Byte>)
    requires at + |bytes| <= |d|
    ensures |r| == |d|
    ensures forall k :: 0 <= k < |d| ==> r[k] == if at <= k < at + |bytes| then bytes[k - at] else d[k]
  {
    d[..at] + bytes + d[at + |bytes|..]
  }

  /** The newest of the first `n` records that is for `region`, or -1. */
  ghost function NewestRecord(d: seq<Byte>, n: nat, region: nat): (k: int)
    requires 2 * n <= |d|
    ensures -1 <= k < n
    ensures k >= 0 ==> U16(d, 2 * k) == region + 1
  {
    if n == 0 then -1
    else if U16(d, 2 * (n - 1)) == region + 1 then n - 1
    else NewestRecord(d, n - 1, region)
  }

  /** A log of `records` records of `size` bytes: the index table, then the records. */
  ghost predicate LogFits(d: seq<Byte>, records: nat, size: nat) {
    size >= 1 && RecordStart(records, size, records) <= |d|
  }

  function RecordStart(records: nat, size: nat, k: nat): nat {
    2 * records + size * k
  }

  lemma RecordInside(records: nat, size: nat, k: nat, n: nat)
    requires k < n <= records
    ensures RecordStart(records, size, k) + size <= RecordStart(records, size, n) <= RecordStart(records, size, records)
  {
    if size > 0 {
      MulMonotone(size, k, n);
      MulMonotone(size, n, records);
    }
  }

  /** The byte of the file at `i`. */
  ghost function ByteAt(base: seq<Byte>, log: seq<Byte>, records: nat, size: nat, i: nat): Byte
    requires LogFits(log, records, size) && i < |base|
  {
    var k := NewestRecord(log, records, i / size);
    if k < 0 then base[i]
    else
      RecordInside(records, size, k, records);
      log[RecordStart(records, size, k) + i % size]
  }

  ghost function LoggedBytes(base: seq<Byte>, log: seq<Byte>, records: nat, size: nat): (b: seq<Byte>)
    requires LogFits(log, records, size)
    ensures |b| == |base| && forall i :: 0 <= i < |base| ==> b[i] == ByteAt(base, log, records, size, i)
  {
    seq(|base|, i requires 0 <= i < |base| => ByteAt(base, log, records, size, i))
  }

  /** The first `count` entries of the index table are used and the others are zero. */
  ghost predicate LogCount(d: seq<Byte>, records: nat, count: nat) {
    && count <= records && 2 * records <= |d|
    && (forall k :: 0 <= k < count ==> U16(d, 2 * k) != 0)
    && (forall k :: count <= k < records ==> U16(d, 2 * k) == 0)
  }

  lemma EntryIsUsed(d: seq<Byte>, records: nat, count: nat, k: nat)
    requires LogCount(d, records, count) && k < records
    ensures U16(d, 2 * k) != 0 <==> k < count
  {
  }

  lemma LogCountUnique(d: seq<Byte>, records: nat, c: nat, c': nat)
    requires LogCount(d, records, c) && LogCount(d, records, c')
    ensures c == c'
  {
    if c < c' {
      EntryIsUsed(d, records, c, c);
      EntryIsUsed(d, records, c', c);
    } else if c' < c {
      EntryIsUsed(d, records, c, c');
      EntryIsUsed(d, records, c', c');
    }
  }

  /** Unused entries match no region. */
  lemma {:induction false} NewestOfUsed(d: seq<Byte>, records: nat, count: nat, n: nat, region: nat)
    requires LogCount(d, records, count) && count <= n <= records
    ensures NewestRecord(d, n, region) == NewestRecord(d, count, region)
  {
    if count < n {
      NewestOfUsed(d, records, count, n - 1, region);
    }
  }

  lemma {:induction false} NewestFrame(d: seq<Byte>, d': seq<Byte>, n: nat, region: nat)
    requires 2 * n <= |d| == |d'| && forall k :: 0 <= k < 2 * n ==> d'[k] == d[k]
    ensures NewestRecord(d', n, region) == NewestRecord(d, n, region)
  {
    if n > 0 {
      NewestFrame(d, d', n - 1, region);
    }
  }

  /** The log with one more record: its region number, incremented, and its bytes. */
  function WithRecord(d: seq<Byte>, records: nat, size: nat, count: nat, region: nat, rec: seq<Byte>): (r: seq<Byte>)
    requires LogFits(d, records, size) && count < records && region < 65535 && |rec| == size
    ensures |r| == |d|
  {
    RecordInside(records, size, count, records);
    Write(Write(d, 2 * count, U16Bytes(region + 1)), RecordStart(records, size, count), rec)
  }

  /** Where the two writes of a record go: its index entry and its slot, and nowhere else. */
  lemma WithRecordPlaces(d: seq<Byte>, records: nat, size: nat, count: nat, region: nat, rec: seq<Byte>, k: nat)
    requires LogFits(d, records, size) && count < records && region < 65535 && |rec| == size && k < |d|
    ensures var r, at := WithRecord(d, records, size, count, region, rec), RecordStart(records, size, count);
      && 2 * records <= at && at + size <= |d|
      && r[k] == if at <= k < at + size then rec[k - at]
        else if 2 * count <= k < 2 * count + 2 then U16Bytes(region + 1)[k - 2 * count] else d[k]
  {
    RecordInside(records, size, count, records);
    TwoWrites(d, 2 * count, U16Bytes(region + 1), RecordStart(records, size, count), rec, k);
  }

  lemma TwoWrites(d: seq<Byte>, a: nat, x: seq<Byte>, b: nat, y: seq<Byte>, k: nat)
    requires a + |x| <= |d| && b + |y| <= |d| && k < |d|
    ensures Write(Write(d, a, x), b, y)[k] ==
            if b <= k < b + |y| then y[k - b] else if a <= k < a + |x| then x[k - a] else d[k]
  {
  }

  lemma WithRecordEntry(d: seq<Byte>, records: nat, size: nat, count: nat, region: nat, rec: seq<Byte>, k: nat)
    requires LogFits(d, records, size) && count < records && region < 65535 && |rec| == size && k < records
    ensures 2 * records <= |d|
    ensures U16(WithRecord(d, records, size, count, region, rec), 2 * k) == if k == count then region + 1
      else U16(d, 2 * k)
  {
    RecordInside(records, size, count, records);
    WithRecordPlaces(d, records, size, count, region, rec, 2 * k);
    WithRecordPlaces(d, records, size, count, region, rec, 2 * k + 1);
  }

  lemma WithRecordIndex(d: seq<Byte>, records: nat, size: nat, count: nat, region: nat, rec: seq<Byte>)
    requires LogFits(d, records, size) && LogCount(d, records, count) && count < records && region < 65535
    requires |rec| == size
    ensures var r := WithRecord(d, records, size, count, region, rec);
      && (forall k :: 0 <= k < records ==> U16(r, 2 * k) == if k == count then region + 1 else U16(d, 2 * k))
      && LogCount(r, records, count + 1)
  {
    var r := WithRecord(d, records, size, count, region, rec);
    forall k | 0 <= k < records ensures U16(r, 2 * k) == if k == count then region + 1 else U16(d, 2 * k) {
      WithRecordEntry(d, records, size, count, region, rec, k);
    }
  }

  lemma {:induction false} NewestAgree(d: seq<Byte>, d': seq<Byte>, n: nat, region: nat)
    requires 2 * n <= |d| == |d'| && forall k :: 0 <= k < n ==> U16(d', 2 * k) == U16(d, 2 * k)
    ensures NewestRecord(d', n, region) == NewestRecord(d, n, region)
  {
    if n > 0 {
      NewestAgree(d, d', n - 1, region);
    }
  }

  lemma WithRecordNewest(d: seq<Byte>, records: nat, size: nat, count: nat, region: nat, rec: seq<Byte>, other: nat)
    requires LogFits(d, records, size) && LogCount(d, records, count) && count < records && region < 65535
    requires |rec| == size
    ensures var r := WithRecord(d, records, size, count, region, rec);
      NewestRecord(r, records, other) == if other == region then count else NewestRecord(d, records, other)
  {
    var r := WithRecord(d, records, size, count, region, rec);
    WithRecordIndex(d, records, size, count, region, rec);
    NewestOfUsed(r, records, count + 1, records, other);
    NewestOfUsed(d, records, count, records, other);
    NewestAgree(d, r, count, other);
  }

  lemma NewRecordByte(d: seq<Byte>, records: nat, size: nat, count: nat, region: nat, rec: seq<Byte>, off: nat)
    requires LogFits(d, records, size) && count < records && region < 65535 && |rec| == size && off < size
    ensures var r, at := WithRecord(d, records, size, count, region, rec), RecordStart(records, size, count);
      at + size <= |d| && r[at + off] == rec[off]
  {
    var at := RecordStart(records, size, count);
    RecordInside(records, size, count, records);
    WithRecordPlaces(d, records, size, count, region, rec, at + off);
  }

  lemma OldRecordByte(d: seq<Byte>, records: nat, size: nat, count: nat, region: nat, rec: seq<Byte>, k: nat, off: nat)
    requires LogFits(d, records, size) && count < records && region < 65535 && |rec| == size && k < count && off < size
    ensures var r, at := WithRecord(d, records, size, count, region, rec), RecordStart(records, size, k);
      at + size <= |d| && r[at + off] == d[at + off]
  {
    var at := RecordStart(records, size, k);
    RecordInside(records, size, k, count);
    RecordInside(records, size, count, records);
    assert 2 * records <= at;
    WithRecordPlaces(d, records, size, count, region, rec, at + off);
  }

  /** A new record for a region replaces the bytes of the region and no others. */
  lemma WithRecordByte(base: seq<Byte>, d: seq<Byte>, records: nat, size: nat, count: nat, region: nat,
        rec: seq<Byte>, i: nat)
    requires LogFits(d, records, size) && LogCount(d, records, count) && count < records && region < 65535
    requires |rec| == size && i < |base|
    ensures var r := WithRecord(d, records, size, count, region, rec);
      ByteAt(base, r, records, size, i) == if i / size == region then rec[i % size]
        else ByteAt(base, d, records, size, i)
  {
    WithRecordNewest(d, records, size, count, region, rec, i / size);
    NewestOfUsed(d, records, count, records, i / size);
    var k := NewestRecord(d, records, i / size);
    if i / size == region {
      NewRecordByte(d, records, size, count, region, rec, i % size);
    } else if k >= 0 {
      OldRecordByte(d, records, size, count, region, rec, k, i % size);
    }
  }

  /** What `copy_buf` holds: the region as it reads now, with the new bytes over it. */
  ghost predicate RegionCopy(bytes: seq<Byte>, size: nat, region: nat, offset: nat, buf: seq<Byte>, rec: seq<Byte>) {
    && |rec| == size && offset + |buf| <= size
    && (forall j: nat :: offset <= j < offset + |buf| ==> rec[j] == buf[j - offset])
    && (forall j: nat ::
      (j < offset || offset + |buf| <= j < size) && size * region + j < |bytes| ==>
      rec[j] == bytes[size * region + j])
  }

  /** `copy` reads as the file from `offset` on, as far as the file goes. */
  ghost predicate ShowsRegion(bytes: seq<Byte>, offset: nat, copy: seq<Byte>) {
    forall i: nat :: offset <= i < offset + |copy| && i < |bytes| ==> bytes[i] == copy[i - offset]
  }

  lemma RegionCopied(bytes: seq<Byte>, size: nat, region: nat, offset: nat, buf: seq<Byte>, copy: seq<Byte>)
    requires |copy| == size && offset + |buf| <= size
    requires ShowsRegion(bytes, size * region, copy) || (offset == 0 && |buf| == size)
    ensures RegionCopy(bytes, size, region, offset, buf, Write(copy, offset, buf))
  {
  }

  lemma AppendByte(base: seq<Byte>, d: seq<Byte>, records: nat, size: nat, count: nat, region: nat, offset: nat,
        buf: seq<Byte>, rec: seq<Byte>, at: nat, i: nat)
    requires LogFits(d, records, size) && LogCount(d, records, count) && count < records && region < 65535
    requires RegionCopy(LoggedBytes(base, d, records, size), size, region, offset, buf, rec) && i < |base|
    requires at == size * region + offset
    ensures ByteAt(base, WithRecord(d, records, size, count, region, rec), records, size, i) ==
      if at <= i < at + |buf| then buf[i - at] else LoggedBytes(base, d, records, size)[i]
  {
    WithRecordByte(base, d, records, size, count, region, rec, i);
    InRegion(i, size, region);
  }

  /** Appending the copy of a region changes the file exactly on the range written. */
  lemma AppendChangesRange(base: seq<Byte>, d: seq<Byte>, records: nat, size: nat, count: nat, region: nat,
        offset: nat, buf: seq<Byte>, rec: seq<Byte>, at: nat)
    requires LogFits(d, records, size) && LogCount(d, records, count) && count < records && region < 65535
    requires RegionCopy(LoggedBytes(base, d, records, size), size, region, offset, buf, rec)
    requires at == size * region + offset && at + |buf| <= |base|
    ensures LoggedBytes(base, WithRecord(d, records, size, count, region, rec), records, size) ==
      Write(LoggedBytes(base, d, records, size), at, buf)
  {
    var r := WithRecord(d, records, size, count, region, rec);
    var before := LoggedBytes(base, d, records, size);
    forall i: nat | i < |base|
      ensures ByteAt(base, r, records, size, i) == if at <= i < at + |buf| then buf[i - at] else before[i]
    {
      AppendByte(base, d, records, size, count, region, offset, buf, rec, at, i);
    }
  }

  lemma InRegion(i: nat, size: nat, region: nat)
    requires size >= 1
    ensures i / size == region <==> size * region <= i < size * region + size
    ensures i / size == region ==> i % size == i - size * region
  {
    DivMod(i, size);
    MulMonotone(size, i / size, region);
    MulMonotone(size, region, i / size);
  }

  /** With an empty log a file reads as its extent. */
  lemma EmptyLog(base: seq<Byte>, d: seq<Byte>, records: nat, size: nat)
    requires LogFits(d, records, size) && LogCount(d, records, 0)
    ensures LoggedBytes(base, d, records, size) == base
  {
    forall i | 0 <= i < |base| ensures LoggedBytes(base, d, records, size)[i] == base[i] {
      EmptyLogByte(base, d, records, size, i);
    }
  }

  lemma EmptyLogByte(base: seq<Byte>, d: seq<Byte>, records: nat, size: nat, i: nat)
    requires LogFits(d, records, size) && LogCount(d, records, 0) && i < |base|
    ensures ByteAt(base, d, records, size, i) == base[i]
  {
    NewestOfUsed(d, records, 0, records, i / size);
  }
}
