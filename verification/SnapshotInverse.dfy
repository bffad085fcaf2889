/** What the snapshot loader accepts, exactly: the frames of some records with the right
    checksum, and what it makes of them. */
module SnapshotInverse {
  import opened ByteStrings
  import opened Keyspace
  import opened Snapshot
  import SnapshotProofs

  /** A record as it stands in the file: any deadline, any field order and repetition. */
  datatype Raw = Raw(key: Bytes, content: Content, deadline: int)

  predicate RawOk(r: Raw) {
    Short(r.key) && -I64_BOUND <= r.deadline < I64_BOUND && PackableContent(r.content)
  }

  predicate RawsOk(rs: seq<Raw>) {
    |rs| < U32_BOUND && forall i :: 0 <= i < |rs| ==> RawOk(rs[i])
  }

  function PackRaw(r: Raw): Bytes
    requires RawOk(r)
  {
    PackBytes(r.key) + ([TypeId(r.content)] + (PackI64(r.deadline) + PackContent(r.content)))
  }

  function PackRaws(rs: seq<Raw>): Bytes
    requires forall i :: 0 <= i < |rs| ==> RawOk(rs[i])
  {
    if rs == [] then [] else PackRaw(rs[0]) + PackRaws(rs[1..])
  }

  /** The bytes before checksum and footer. */
  function Head(version: nat, rs: seq<Raw>): Bytes
    requires RawsOk(rs)
  {
    MAGIC + (PackU32(version) + (PackU32(|rs|) + PackRaws(rs)))
  }

  function FileOf(version: nat, rs: seq<Raw>, crc: Checksum): Bytes
    requires RawsOk(rs)
  {
    Head(version, rs) + ((if version == 2 then PackU32(crc(Head(version, rs))) else []) + FOOTER)
  }

  function LoadedContent(c: Content): Content {
    if c.Hash? then Hash(PutFields([], c.pairs)) else c
  }

  function Loaded(r: Raw): Item { (r.key, Entry(LoadedContent(r.content), LoadedDeadline(r.deadline))) }

  function LoadedAll(rs: seq<Raw>): (r: seq<Item>)
    ensures |r| == |rs| && forall i :: 0 <= i < |r| ==> r[i] == Loaded(rs[i])
  {
    seq(|rs|, i requires 0 <= i < |rs| => Loaded(rs[i]))
  }

  // ---- what was read was written -------------------------------------------

  lemma {:induction false} LittleEndianInverse(s: Bytes)
    ensures LittleEndian(FromLittleEndian(s), |s|) == s && FromLittleEndian(s) < Pow256(|s|)
  {
    if s != [] {
      LittleEndianInverse(s[1..]);
    }
  }

  lemma U32Inverse(s: Bytes)
    requires ReadU32(s).Got?
    ensures var r := ReadU32(s); r.value < U32_BOUND && s == PackU32(r.value) + r.rest
  {
    hide FromLittleEndian, LittleEndian;
    LittleEndianInverse(s[..4]);
    Bounds();
  }

  lemma I64Inverse(s: Bytes)
    requires ReadI64(s).Got?
    ensures var r := ReadI64(s); -I64_BOUND <= r.value < I64_BOUND && s == PackI64(r.value) + r.rest
  {
    hide FromLittleEndian, LittleEndian;
    LittleEndianInverse(s[..8]);
    Bounds();
  }

  lemma BlobInverse(s: Bytes)
    requires ReadBlob(s).Got?
    ensures var r := ReadBlob(s); Short(r.value) && s == PackBytes(r.value) + r.rest
  {
    hide ReadU32, PackU32;
    U32Inverse(s);
    var n, r := ReadU32(s), ReadBlob(s);
    assert n.rest == r.value + r.rest;
  }

  lemma {:induction false} ListInverse(s: Bytes, n: nat)
    requires ReadList(s, n).Got?
    ensures var r := ReadList(s, n);
            s == PackList(r.value) + r.rest && forall i :: 0 <= i < n ==> Short(r.value[i])
    decreases n
  {
    hide ReadBlob, PackBytes;
    if n > 0 {
      BlobInverse(s);
      var b := ReadBlob(s);
      ListInverse(b.rest, n - 1);
      var r := ReadList(s, n);
      assert r.value[1..] == ReadList(b.rest, n - 1).value;
    }
  }

  lemma {:induction false} PairsInverse(s: Bytes, n: nat)
    requires ReadPairs(s, n).Got?
    ensures var r := ReadPairs(s, n);
            && s == PackPairs(r.value) + r.rest
            && forall i :: 0 <= i < n ==> Short(r.value[i].0) && Short(r.value[i].1)
    decreases n
  {
    hide ReadBlob, PackBytes;
    if n > 0 {
      BlobInverse(s);
      var f := ReadBlob(s);
      BlobInverse(f.rest);
      var v := ReadBlob(f.rest);
      PairsInverse(v.rest, n - 1);
      var r := ReadPairs(s, n);
      assert r.value[1..] == ReadPairs(v.rest, n - 1).value;
    }
  }

  lemma ContentInverse(kind: byte, s: Bytes) returns (c: Content)
    requires ReadContent(kind, s).Got?
    ensures var r := ReadContent(kind, s);
            && PackableContent(c) && TypeId(c) == kind && LoadedContent(c) == r.value
            && s == PackContent(c) + r.rest
  {
    hide ReadU32, ReadBlob, ReadList, ReadPairs, PackU32, PackBytes, PackList, PackPairs, PutFields;
    if kind == 1 {
      BlobInverse(s);
      c := Str(ReadBlob(s).value);
    } else {
      U32Inverse(s);
      var n := ReadU32(s);
      if kind == 2 {
        ListInverse(n.rest, n.value);
        c := List(ReadList(n.rest, n.value).value);
      } else {
        PairsInverse(n.rest, n.value);
        c := Hash(ReadPairs(n.rest, n.value).value);
      }
    }
  }

  lemma RecordInverse(s: Bytes) returns (raw: Raw)
    requires ReadRecord(s).Got?
    ensures RawOk(raw) && Loaded(raw) == ReadRecord(s).value && s == PackRaw(raw) + ReadRecord(s).rest
  {
    hide ReadBlob, ReadI64, ReadContent, PackBytes, PackI64, PackContent, LoadedContent, LoadedDeadline,
      PackableContent, TypeId;
    BlobInverse(s);
    var key := ReadBlob(s);
    var kind := ReadExact(key.rest, 1);
    assert key.rest == [kind.value[0]] + kind.rest;
    I64Inverse(kind.rest);
    var d := ReadI64(kind.rest);
    var c := ContentInverse(kind.value[0], d.rest);
    raw := Raw(key.value, c, d.value);
  }

  lemma RawsCons(first: Raw, rest: seq<Raw>)
    requires RawOk(first) && forall i :: 0 <= i < |rest| ==> RawOk(rest[i])
    ensures var rs := [first] + rest;
            && (forall i :: 0 <= i < |rs| ==> RawOk(rs[i]))
            && PackRaws(rs) == PackRaw(first) + PackRaws(rest) && LoadedAll(rs) == [Loaded(first)] + LoadedAll(rest)
  {
    hide PackRaw, RawOk, Loaded;
    assert ([first] + rest)[1..] == rest;
  }

  lemma {:induction false} RecordsInverse(s: Bytes, n: nat) returns (rs: seq<Raw>)
    requires ReadRecords(s, n).Got?
    ensures |rs| == n && (forall i :: 0 <= i < |rs| ==> RawOk(rs[i]))
    ensures LoadedAll(rs) == ReadRecords(s, n).value && s == PackRaws(rs) + ReadRecords(s, n).rest
    decreases n
  {
    hide ReadRecord, PackRaw, RawOk, Loaded, LoadedAll;
    if n == 0 {
      rs := [];
      assert LoadedAll(rs) == [];
    } else {
      var first := RecordInverse(s);
      var r := ReadRecord(s);
      var rest := RecordsInverse(r.rest, n - 1);
      rs := [first] + rest;
      RawsCons(first, rest);
      assert s == PackRaw(first) + (PackRaws(rest) + ReadRecords(r.rest, n - 1).rest);
    }
  }

  // ---- what is written is read ---------------------------------------------

  lemma ReadRawContent(c: Content, rest: Bytes)
    requires PackableContent(c)
    ensures ReadContent(TypeId(c), PackContent(c) + rest) == Got(LoadedContent(c), rest)
  {
    hide ReadU32, ReadBlob, ReadList, ReadPairs, PackU32, PackBytes, PackList, PackPairs, PutFields;
    match c
    case Str(b) => SnapshotProofs.ReadBlobPacked(b, rest);
    case List(items) =>
      assert PackContent(c) + rest == PackU32(|items|) + (PackList(items) + rest);
      SnapshotProofs.ReadU32Packed(|items|, PackList(items) + rest);
      SnapshotProofs.ReadListPacked(items, rest);
    case Hash(pairs) =>
      assert PackContent(c) + rest == PackU32(|pairs|) + (PackPairs(pairs) + rest);
      SnapshotProofs.ReadU32Packed(|pairs|, PackPairs(pairs) + rest);
      SnapshotProofs.ReadPairsPacked(pairs, rest);
  }

  lemma ReadRawRecord(r: Raw, rest: Bytes)
    requires RawOk(r)
    ensures ReadRecord(PackRaw(r) + rest) == Got(Loaded(r), rest)
  {
    hide ReadBlob, ReadI64, ReadContent, PackBytes, PackI64, PackContent, LoadedContent, LoadedDeadline,
      PackableContent, TypeId;
    var c := PackContent(r.content) + rest;
    var d := PackI64(r.deadline) + c;
    var k := [TypeId(r.content)] + d;
    assert PackRaw(r) + rest == PackBytes(r.key) + k;
    SnapshotProofs.ReadBlobPacked(r.key, k);
    assert k[..1] == [TypeId(r.content)] && k[1..] == d;
    SnapshotProofs.ReadI64Packed(r.deadline, c);
    ReadRawContent(r.content, rest);
  }

  lemma {:induction false} ReadRawRecords(rs: seq<Raw>, rest: Bytes)
    requires forall i :: 0 <= i < |rs| ==> RawOk(rs[i])
    ensures ReadRecords(PackRaws(rs) + rest, |rs|) == Got(LoadedAll(rs), rest)
    decreases |rs|
  {
    hide ReadRecord, PackRaw, RawOk, Loaded;
    if rs == [] {
      assert PackRaws(rs) + rest == rest;
    } else {
      assert PackRaws(rs) + rest == PackRaw(rs[0]) + (PackRaws(rs[1..]) + rest);
      ReadRawRecord(rs[0], PackRaws(rs[1..]) + rest);
      ReadRawRecords(rs[1..], rest);
      assert LoadedAll(rs) == [Loaded(rs[0])] + LoadedAll(rs[1..]);
    }
  }

  // ---- the whole file ------------------------------------------------------

  lemma TailInverse(version: nat, body: Bytes, s: Bytes, crc: Checksum)
    requires version in {1, 2} && ReadTail(version, body, s, crc).Got? && ReadTail(version, body, s, crc).rest == []
    ensures s == (if version == 2 then PackU32(crc(body)) else []) + FOOTER
  {
    hide ReadU32, PackU32;
    if version == 2 {
      U32Inverse(s);
      assert ReadU32(s).rest[..4] == ReadU32(s).rest;
    } else {
      assert s[..4] == s;
    }
  }

  lemma ReadTailPacked(version: nat, body: Bytes, crc: Checksum)
    requires version in {1, 2}
    ensures ReadTail(version, body, (if version == 2 then PackU32(crc(body)) else []) + FOOTER, crc) == Got((), [])
  {
    hide ReadU32, PackU32;
    SnapshotProofs.ReadU32Packed(crc(body), FOOTER);
    assert [] + FOOTER == FOOTER && FOOTER[..4] == FOOTER;
  }

  lemma HeadInverse(s: Bytes)
    requires ReadHead(s).Got?
    ensures var r := ReadHead(s);
            && r.value.0 in {1, 2} && r.value.1 < U32_BOUND
            && s == MAGIC + (PackU32(r.value.0) + (PackU32(r.value.1) + r.rest))
  {
    hide ReadU32, PackU32;
    var version := ReadU32(s[4..]);
    U32Inverse(s[4..]);
    U32Inverse(version.rest);
  }

  /** These records, framed with magic, version, count, checksum and footer. */
  predicate IsFile(data: Bytes, version: nat, rs: seq<Raw>, crc: Checksum) {
    version in {1, 2} && RawsOk(rs) && data == FileOf(version, rs, crc)
  }

  lemma FileLoads(version: nat, rs: seq<Raw>, now: int, maxFile: nat, crc: Checksum)
    requires version in {1, 2} && RawsOk(rs) && |FileOf(version, rs, crc)| <= maxFile
    ensures Load(FileOf(version, rs, crc), now, maxFile, crc) == Some(Collect(map[], LoadedAll(rs), now))
  {
    hide PackU32, PackRaws, ReadRecords, Collect, ReadHead, ReadTail, RawOk;
    var data := FileOf(version, rs, crc);
    var tail := (if version == 2 then PackU32(crc(Head(version, rs))) else []) + FOOTER;
    var records := PackRaws(rs) + tail;
    assert data == MAGIC + PackU32(version) + PackU32(|rs|) + records;
    SnapshotProofs.ReadHeadPacked(version, |rs|, records);
    ReadRawRecords(rs, tail);
    assert data[..|data| - |tail|] == Head(version, rs);
    ReadTailPacked(version, Head(version, rs), crc);
  }

  lemma AcceptedIsFile(data: Bytes, crc: Checksum) returns (version: nat, rs: seq<Raw>)
    requires ReadSnapshot(data, crc).Got? && ReadSnapshot(data, crc).rest == []
    ensures IsFile(data, version, rs, crc) && LoadedAll(rs) == ReadSnapshot(data, crc).value
  {
    hide PackU32, PackRaws, ReadRecords, ReadHead, ReadTail, RawOk, LoadedAll;
    HeadInverse(data);
    var head := ReadHead(data);
    version := head.value.0;
    rs := RecordsInverse(head.rest, head.value.1);
    var tail := ReadRecords(head.rest, head.value.1).rest;
    assert data == Head(version, rs) + tail;
    assert data[..|data| - |tail|] == Head(version, rs);
    TailInverse(version, Head(version, rs), tail, crc);
  }

  /** The loader accepts exactly the files of some records with magic, a known version, the
      right checksum and the footer, up to the size limit; and returns what collecting
      these records gives. */
  lemma LoadIff(data: Bytes, now: int, maxFile: nat, crc: Checksum, ks: Keyspace)
    ensures Load(data, now, maxFile, crc) == Some(ks) <==>
            |data| <= maxFile &&
            exists version, rs :: IsFile(data, version, rs, crc) && ks == Collect(map[], LoadedAll(rs), now)
  {
    hide PackU32, PackRaws, ReadSnapshot, Collect, RawOk, LoadedAll, FileOf;
    if Load(data, now, maxFile, crc) == Some(ks) {
      var version, rs := AcceptedIsFile(data, crc);
    }
    if |data| <= maxFile && exists v, rs :: IsFile(data, v, rs, crc) && ks == Collect(map[], LoadedAll(rs), now) {
      var v, rs :| IsFile(data, v, rs, crc) && ks == Collect(map[], LoadedAll(rs), now);
      FileLoads(v, rs, now, maxFile, crc);
    }
  }

  /** An accepted version 2 file carries the checksum of everything before it. */
  lemma ChecksumIsChecked(data: Bytes, now: int, maxFile: nat, crc: Checksum)
    requires Load(data, now, maxFile, crc).Some? && data[4..8] == PackU32(2)
    ensures |data| >= 20 && data[..4] == MAGIC
    ensures data[|data| - 8..|data| - 4] == PackU32(crc(data[..|data| - 8])) && data[|data| - 4..] == FOOTER
  {
    hide PackU32, PackRaws, ReadSnapshot, Collect, RawOk, LoadedAll;
    var version, rs := AcceptedIsFile(data, crc);
    assert data[4..8] == PackU32(version);
    assert version == 2 by { VersionIs(version, data[8..]); }
    assert data[..|data| - 8] == Head(2, rs);
  }

  lemma VersionIs(version: nat, rest: Bytes)
    requires version in {1, 2} && PackU32(version) == PackU32(2)
    ensures version == 2
  {
    hide PackU32;
    SnapshotProofs.ReadU32Packed(version, rest);
    SnapshotProofs.ReadU32Packed(2, rest);
  }

  /** A file whose body was altered so that its checksum changes is rejected, whatever the
      alteration. */
  lemma AlteredIsRejected(items: seq<Item>, body: Bytes, now: int, maxFile: nat, crc: Checksum)
    requires Dumpable(items) && |body| >= 12 && body[4..8] == PackU32(2) && crc(body) != crc(Body(items))
    ensures Load(body + PackU32(crc(Body(items))) + FOOTER, now, maxFile, crc) == None
  {
    hide PackU32, Load, Body;
    var sum := crc(Body(items));
    var data := body + PackU32(sum) + FOOTER;
    if Load(data, now, maxFile, crc).Some? {
      assert data[4..8] == body[4..8];
      ChecksumIsChecked(data, now, maxFile, crc);
      assert data[..|data| - 8] == body && data[|data| - 8..|data| - 4] == PackU32(sum);
      SnapshotProofs.ReadU32Packed(sum, []);
      SnapshotProofs.ReadU32Packed(crc(body), []);
    }
  }

  // ---- records of the same key ---------------------------------------------

  /** For each key the last record that is not expired on arrival counts. */
  lemma {:induction false} LastRecordWins(items: seq<Item>, now: int, i: nat)
    requires i < |items| && !IsExpired(items[i].1.expireAt, now)
    requires forall j :: i < j < |items| && items[j].0 == items[i].0 ==> IsExpired(items[j].1.expireAt, now)
    ensures items[i].0 in Collect(map[], items, now) && Collect(map[], items, now)[items[i].0] == items[i].1
  {
    var a, b := items[..i], items[i + 1..];
    assert items == a + ([items[i]] + b);
    CollectAppend(map[], a, [items[i]] + b, now);
    var ks := Collect(map[], a, now);
    assert ([items[i]] + b)[1..] == b;
    assert forall j :: 0 <= j < |b| ==> b[j] == items[i + 1 + j];
    CollectKeeps(ks[items[i].0 := items[i].1], b, items[i].0, now);
  }

  lemma {:induction false} CollectAppend(ks: Keyspace, a: seq<Item>, b: seq<Item>, now: int)
    ensures Collect(ks, a + b, now) == Collect(Collect(ks, a, now), b, now)
    decreases |a|
  {
    if a == [] {
      assert a + b == b;
    } else {
      assert (a + b)[1..] == a[1..] + b;
      CollectAppend(if IsExpired(a[0].1.expireAt, now) then ks else ks[a[0].0 := a[0].1], a[1..], b, now);
    }
  }

  lemma {:induction false} CollectKeeps(ks: Keyspace, items: seq<Item>, k: Bytes, now: int)
    requires k in ks && forall j :: 0 <= j < |items| && items[j].0 == k ==> IsExpired(items[j].1.expireAt, now)
    ensures k in Collect(ks, items, now) && Collect(ks, items, now)[k] == ks[k]
    decreases |items|
  {
    if items != [] {
      var x := items[0];
      assert forall j :: 0 <= j < |items[1..]| ==> items[1..][j] == items[j + 1];
      CollectKeeps(if IsExpired(x.1.expireAt, now) then ks else ks[x.0 := x.1], items[1..], k, now);
    }
  }

  // ---- an example ----------------------------------------------------------

  const EXAMPLE_HEAD: Bytes := [66, 89, 79, 82, 2, 0, 0, 0, 1, 0, 0, 0]
  const EXAMPLE_RECORD: Bytes := [1, 0, 0, 0, 107, 1, 2, 1, 0, 0, 0, 0, 0, 0, 1, 0, 0, 0, 118]

  /** A snapshot of `k` = "v" with deadline 258, byte by byte. */
  lemma ExampleBytes(item: Item, crc: Checksum)
    requires item == ([107], Entry(Str([118]), Some(258)))
    ensures Dumpable([item])
    ensures Dump([item], crc) ==
            EXAMPLE_HEAD + EXAMPLE_RECORD + PackU32(crc(EXAMPLE_HEAD + EXAMPLE_RECORD)) + [69, 79, 70, 10]
  {
    hide PackU32, PackI64, PackRecord, Packable;
    PackSmall(1);
    PackSmall(2);
    ExampleRecord(item);
    assert [item][1..] == [] && PackRecords([]) == [];
    assert PackRecords([item]) == EXAMPLE_RECORD + [] == EXAMPLE_RECORD;
    assert MAGIC + PackU32(2) + PackU32(1) == EXAMPLE_HEAD;
    assert Body([item]) == EXAMPLE_HEAD + EXAMPLE_RECORD;
  }

  lemma ExampleRecord(item: Item)
    requires item == ([107], Entry(Str([118]), Some(258)))
    ensures Packable(item) && PackRecord(item) == EXAMPLE_RECORD
  {
    hide PackU32, PackI64;
    PackSmall(1);
    PackDeadline();
    assert PackBytes([107]) == [1, 0, 0, 0, 107] && PackBytes([118]) == [1, 0, 0, 0, 118];
  }

  lemma PackSmall(n: nat)
    requires n < 256
    ensures PackU32(n) == [n as byte, 0, 0, 0]
  {
    assert LittleEndian(0, 1) == [0] + LittleEndian(0, 0);
    assert LittleEndian(0, 2) == [0] + LittleEndian(0, 1);
    assert LittleEndian(0, 3) == [0] + LittleEndian(0, 2);
  }

  lemma PackDeadline()
    ensures PackI64(258) == [2, 1, 0, 0, 0, 0, 0, 0]
  {
    assert LittleEndian(0, 1) == [0] + LittleEndian(0, 0);
    assert LittleEndian(0, 2) == [0] + LittleEndian(0, 1);
    assert LittleEndian(0, 3) == [0] + LittleEndian(0, 2);
    assert LittleEndian(0, 4) == [0] + LittleEndian(0, 3);
    assert LittleEndian(0, 5) == [0] + LittleEndian(0, 4);
    assert LittleEndian(0, 6) == [0] + LittleEndian(0, 5);
    assert LittleEndian(1, 7) == [1] + LittleEndian(0, 6);
    assert LittleEndian(258, 8) == [2] + LittleEndian(1, 7);
  }
}
