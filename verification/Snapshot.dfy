/** The BYOR snapshot format (`persistence/rdb.py`). */
module Snapshot {
  import opened ByteStrings
  import opened Keyspace

  type Item = (Bytes, Entry)

  // ---- little-endian integers ----------------------------------------------

  function Pow256(k: nat): nat { if k == 0 then 1 else 256 * Pow256(k - 1) }

  const U32_BOUND: nat := 0x1_0000_0000
  const I64_BOUND: int := 0x8000_0000_0000_0000

  lemma Bounds()
    ensures Pow256(4) == U32_BOUND && Pow256(8) == 2 * I64_BOUND
  {
    assert Pow256(2) == 65536;
    assert Pow256(4) == 256 * (256 * Pow256(2));
    assert Pow256(6) == 256 * (256 * Pow256(4));
    assert Pow256(8) == 256 * (256 * Pow256(6));
  }

  /** The low `k` bytes of `n`, least significant first. */
  function LittleEndian(n: nat, k: nat): (r: Bytes)
    ensures |r| == k
    decreases k
  {
    if k == 0 then [] else [(n % 256) as byte] + LittleEndian(n / 256, k - 1)
  }

  function FromLittleEndian(s: Bytes): nat {
    if s == [] then 0 else s[0] as nat + 256 * FromLittleEndian(s[1..])
  }

  lemma {:induction false} LittleEndianRoundTrip(n: nat, k: nat)
    requires n < Pow256(k)
    ensures FromLittleEndian(LittleEndian(n, k)) == n
    decreases k
  {
    if k > 0 {
      LittleEndianRoundTrip(n / 256, k - 1);
      assert LittleEndian(n, k)[1..] == LittleEndian(n / 256, k - 1);
    }
  }

  /** struct.pack("<I") */
  function PackU32(n: nat): (r: Bytes) ensures |r| == 4 { LittleEndian(n, 4) }

  /** struct.pack("<q"): two's complement */
  function PackI64(i: int): (r: Bytes)
    requires -I64_BOUND <= i < I64_BOUND
    ensures |r| == 8
  {
    LittleEndian(if i < 0 then i + 2 * I64_BOUND else i, 8)
  }

  // ---- writing -------------------------------------------------------------

  const MAGIC: Bytes := [66, 89, 79, 82]
  const FOOTER: Bytes := [69, 79, 70, 10]

  function PackBytes(b: Bytes): Bytes { PackU32(|b|) + b }

  function PackList(items: seq<Bytes>): Bytes {
    if items == [] then [] else PackBytes(items[0]) + PackList(items[1..])
  }

  function PackPairs(pairs: seq<(Bytes, Bytes)>): Bytes {
    if pairs == [] then [] else PackBytes(pairs[0].0) + PackBytes(pairs[0].1) + PackPairs(pairs[1..])
  }

  function TypeId(c: Content): byte {
    match c case Str(_) => 1 case List(_) => 2 case Hash(_) => 3
  }

  function PackContent(c: Content): Bytes {
    match c
    case Str(b) => PackBytes(b)
    case List(items) => PackU32(|items|) + PackList(items)
    case Hash(pairs) => PackU32(|pairs|) + PackPairs(pairs)
  }

  function StoredDeadline(d: Option<int>): int { if d.None? then -1 else d.value }

  function PackRecord(item: Item): Bytes
    requires Packable(item)
  {
    PackBytes(item.0) + [TypeId(item.1.content)] + PackI64(StoredDeadline(item.1.expireAt)) +
    PackContent(item.1.content)
  }

  function PackRecords(items: seq<Item>): Bytes
    requires forall i :: 0 <= i < |items| ==> Packable(items[i])
  {
    if items == [] then [] else PackRecord(items[0]) + PackRecords(items[1..])
  }

  predicate Short(b: Bytes) { |b| < U32_BOUND }

  predicate PackableContent(c: Content) {
    match c
    case Str(b) => Short(b)
    case List(items) => |items| < U32_BOUND && forall i :: 0 <= i < |items| ==> Short(items[i])
    case Hash(pairs) =>
      |pairs| < U32_BOUND && forall i :: 0 <= i < |pairs| ==> Short(pairs[i].0) && Short(pairs[i].1)
  }

  /** struct.pack accepts every length and the deadline of this record. */
  predicate Packable(item: Item) {
    && Short(item.0)
    && -I64_BOUND <= StoredDeadline(item.1.expireAt) < I64_BOUND
    && PackableContent(item.1.content)
  }

  predicate Dumpable(items: seq<Item>) {
    |items| < U32_BOUND && forall i :: 0 <= i < |items| ==> Packable(items[i])
  }

  function Body(items: seq<Item>): Bytes
    requires Dumpable(items)
  {
    MAGIC + PackU32(2) + PackU32(|items|) + PackRecords(items)
  }

  type U32 = n: nat | n < U32_BOUND
  type Checksum = Bytes -> U32

  /** dump_rdb_entries, for a dict whose items iterate in this order. */
  function Dump(items: seq<Item>, crc: Checksum): Bytes
    requires Dumpable(items)
  {
    Body(items) + PackU32(crc(Body(items))) + FOOTER
  }

  // ---- reading -------------------------------------------------------------

  /** A reader consumes the front of a byte string; Short input or bad data fails. */
  datatype Read<T> = Fail | Got(value: T, rest: Bytes)

  function ReadExact(s: Bytes, n: nat): (r: Read<Bytes>)
    ensures r.Got? ==> |r.value| == n && |s| == n + |r.rest|
  {
    if |s| < n then Fail else Got(s[..n], s[n..])
  }

  function ReadU32(s: Bytes): (r: Read<nat>)
    ensures r.Got? ==> |r.rest| <= |s|
  {
    if |s| < 4 then Fail else Got(FromLittleEndian(s[..4]), s[4..])
  }

  function ReadI64(s: Bytes): (r: Read<int>)
    ensures r.Got? ==> |r.rest| <= |s|
  {
    if |s| < 8 then Fail
    else
      var u := FromLittleEndian(s[..8]);
      Got(if u < I64_BOUND then u else u - 2 * I64_BOUND, s[8..])
  }

  function ReadBlob(s: Bytes): (r: Read<Bytes>)
    ensures r.Got? ==> |r.rest| <= |s|
  {
    var n := ReadU32(s);
    if n.Fail? then Fail else ReadExact(n.rest, n.value)
  }

  function ReadList(s: Bytes, n: nat): (r: Read<seq<Bytes>>)
    ensures r.Got? ==> |r.value| == n && |r.rest| <= |s|
    decreases n
  {
    if n == 0 then Got([], s)
    else
      var b := ReadBlob(s);
      if b.Fail? then Fail
      else
        var bs := ReadList(b.rest, n - 1);
        if bs.Fail? then Fail else Got([b.value] + bs.value, bs.rest)
  }

  function ReadPairs(s: Bytes, n: nat): (r: Read<seq<(Bytes, Bytes)>>)
    ensures r.Got? ==> |r.value| == n && |r.rest| <= |s|
    decreases n
  {
    if n == 0 then Got([], s)
    else
      var f := ReadBlob(s);
      if f.Fail? then Fail
      else
        var v := ReadBlob(f.rest);
        if v.Fail? then Fail
        else
          var ps := ReadPairs(v.rest, n - 1);
          if ps.Fail? then Fail else Got([(f.value, v.value)] + ps.value, ps.rest)
  }

  function ReadContent(kind: byte, s: Bytes): (r: Read<Content>)
    ensures r.Got? ==> |r.rest| <= |s|
  {
    if kind == 1 then
      var b := ReadBlob(s); if b.Fail? then Fail else Got(Str(b.value), b.rest)
    else if kind == 2 then
      var n := ReadU32(s);
      if n.Fail? then Fail
      else var l := ReadList(n.rest, n.value); if l.Fail? then Fail else Got(List(l.value), l.rest)
    else if kind == 3 then
      var n := ReadU32(s);
      if n.Fail? then Fail
      else
        var p := ReadPairs(n.rest, n.value);
        if p.Fail? then Fail else Got(Hash(PutFields([], p.value)), p.rest)
    else Fail
  }

  function LoadedDeadline(i: int): Option<int> { if i < 0 then None else Some(i) }

  function ReadRecord(s: Bytes): (r: Read<Item>)
    ensures r.Got? ==> |r.rest| <= |s|
  {
    var key := ReadBlob(s);
    if key.Fail? then Fail
    else
      var kind := ReadExact(key.rest, 1);
      if kind.Fail? then Fail
      else
        var d := ReadI64(kind.rest);
        if d.Fail? then Fail
        else
          var c := ReadContent(kind.value[0], d.rest);
          if c.Fail? then Fail
          else Got((key.value, Entry(c.value, LoadedDeadline(d.value))), c.rest)
  }

  function ReadRecords(s: Bytes, n: nat): (r: Read<seq<Item>>)
    ensures r.Got? ==> |r.value| == n && |r.rest| <= |s|
    decreases n
  {
    if n == 0 then Got([], s)
    else
      var r := ReadRecord(s);
      if r.Fail? then Fail
      else
        var rs := ReadRecords(r.rest, n - 1);
        if rs.Fail? then Fail else Got([r.value] + rs.value, rs.rest)
  }

  /** `entries[key] = entry` for every record that is not expired on arrival. */
  function Collect(ks: Keyspace, items: seq<Item>, now: int): Keyspace
    decreases |items|
  {
    if items == [] then ks
    else Collect(if IsExpired(items[0].1.expireAt, now) then ks else ks[items[0].0 := items[0].1],
                 items[1..], now)
  }

  /** Magic, version and record count. */
  function ReadHead(s: Bytes): (r: Read<(nat, nat)>)
    ensures r.Got? ==> |r.rest| <= |s|
  {
    var magic := ReadExact(s, 4);
    if magic.Fail? || magic.value != MAGIC then Fail
    else
      var version := ReadU32(magic.rest);
      if version.Fail? || version.value !in {1, 2} then Fail
      else
        var count := ReadU32(version.rest);
        if count.Fail? then Fail else Got((version.value, count.value), count.rest)
  }

  /** Checksum (version 2) and footer; `body` is the data before them. */
  function ReadTail(version: nat, body: Bytes, s: Bytes, crc: Checksum): (r: Read<()>)
    ensures r.Got? ==> |r.rest| <= |s|
  {
    var sum := if version >= 2 then ReadU32(s) else Got(crc(body), s);
    if sum.Fail? || sum.value != crc(body) then Fail
    else
      var footer := ReadExact(sum.rest, 4);
      if footer.Fail? || footer.value != FOOTER then Fail else Got((), footer.rest)
  }

  /** Everything load_rdb_bytes reads, before the check for trailing bytes. */
  function ReadSnapshot(data: Bytes, crc: Checksum): Read<seq<Item>> {
    var head := ReadHead(data);
    if head.Fail? then Fail
    else
      var records := ReadRecords(head.rest, head.value.1);
      if records.Fail? then Fail
      else
        var tail := ReadTail(head.value.0, data[..|data| - |records.rest|], records.rest, crc);
        if tail.Fail? then Fail else Got(records.value, tail.rest)
  }

  /** load_rdb_bytes; None stands for RdbError. */
  function Load(data: Bytes, now: int, maxFile: nat, crc: Checksum): Option<Keyspace> {
    if |data| > maxFile || |data| < 12 then None
    else
      var r := ReadSnapshot(data, crc);
      if r.Fail? || r.rest != [] then None else Some(Collect(map[], r.value, now))
  }
}
