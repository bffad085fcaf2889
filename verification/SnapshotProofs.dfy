/** Snapshot round trip, and why a snapshot delimits itself. */
module SnapshotProofs {
  import opened ByteStrings
  import opened Keyspace
  import opened Snapshot

  // ---- reading back what was written ---------------------------------------

  lemma ReadU32Packed(n: nat, rest: Bytes)
    requires n < U32_BOUND
    ensures ReadU32(PackU32(n) + rest) == Got(n, rest)
  {
    hide FromLittleEndian, LittleEndian;
    Bounds();
    LittleEndianRoundTrip(n, 4);
    var s := PackU32(n) + rest;
    assert s[..4] == PackU32(n) && s[4..] == rest;
  }

  lemma ReadI64Packed(i: int, rest: Bytes)
    requires -I64_BOUND <= i < I64_BOUND
    ensures ReadI64(PackI64(i) + rest) == Got(i, rest)
  {
    hide FromLittleEndian, LittleEndian;
    Bounds();
    LittleEndianRoundTrip(if i < 0 then i + 2 * I64_BOUND else i, 8);
    var s := PackI64(i) + rest;
    assert s[..8] == PackI64(i) && s[8..] == rest;
  }

  lemma ReadBlobPacked(b: Bytes, rest: Bytes)
    requires Short(b)
    ensures ReadBlob(PackBytes(b) + rest) == Got(b, rest)
  {
    hide ReadU32, PackU32;
    assert PackBytes(b) + rest == PackU32(|b|) + (b + rest);
    ReadU32Packed(|b|, b + rest);
    assert (b + rest)[..|b|] == b && (b + rest)[|b|..] == rest;
  }

  lemma {:induction false} ReadListPacked(items: seq<Bytes>, rest: Bytes)
    requires forall i :: 0 <= i < |items| ==> Short(items[i])
    ensures ReadList(PackList(items) + rest, |items|) == Got(items, rest)
    decreases |items|
  {
    hide ReadBlob, PackBytes;
    if items == [] {
      assert PackList(items) + rest == rest;
    } else {
      var tail := PackList(items[1..]) + rest;
      assert PackList(items) + rest == PackBytes(items[0]) + tail;
      ReadBlobPacked(items[0], tail);
      ReadListPacked(items[1..], rest);
      assert [items[0]] + items[1..] == items;
    }
  }

  lemma {:induction false} ReadPairsPacked(pairs: seq<(Bytes, Bytes)>, rest: Bytes)
    requires forall i :: 0 <= i < |pairs| ==> Short(pairs[i].0) && Short(pairs[i].1)
    ensures ReadPairs(PackPairs(pairs) + rest, |pairs|) == Got(pairs, rest)
    decreases |pairs|
  {
    hide ReadBlob, PackBytes;
    if pairs == [] {
      assert PackPairs(pairs) + rest == rest;
    } else {
      var tail := PackPairs(pairs[1..]) + rest;
      assert PackPairs(pairs) + rest == PackBytes(pairs[0].0) + (PackBytes(pairs[0].1) + tail);
      ReadBlobPacked(pairs[0].0, PackBytes(pairs[0].1) + tail);
      ReadBlobPacked(pairs[0].1, tail);
      ReadPairsPacked(pairs[1..], rest);
      assert [(pairs[0].0, pairs[0].1)] + pairs[1..] == pairs;
    }
  }

  lemma ReadContentPacked(c: Content, rest: Bytes)
    requires PackableContent(c) && (c.Hash? ==> DistinctFields(c.pairs))
    ensures ReadContent(TypeId(c), PackContent(c) + rest) == Got(c, rest)
  {
    hide ReadBlob, PackBytes, ReadU32, PackU32, ReadList, PackList, ReadPairs, PackPairs, PutFields;
    match c
    case Str(b) => ReadBlobPacked(b, rest);
    case List(items) =>
      assert PackContent(c) + rest == PackU32(|items|) + (PackList(items) + rest);
      ReadU32Packed(|items|, PackList(items) + rest);
      ReadListPacked(items, rest);
    case Hash(pairs) =>
      assert PackContent(c) + rest == PackU32(|pairs|) + (PackPairs(pairs) + rest);
      ReadU32Packed(|pairs|, PackPairs(pairs) + rest);
      ReadPairsPacked(pairs, rest);
      assert [] + pairs == pairs;
      PutNewFields([], pairs);
  }

  /** What becomes of an item across a dump and a load: a negative deadline reads as none. */
  function Stored(item: Item): Item {
    (item.0, item.1.(expireAt := LoadedDeadline(StoredDeadline(item.1.expireAt))))
  }

  function StoredAll(items: seq<Item>): (r: seq<Item>)
    ensures |r| == |items| && forall i :: 0 <= i < |r| ==> r[i] == Stored(items[i])
  {
    seq(|items|, i requires 0 <= i < |items| => Stored(items[i]))
  }

  predicate WfItem(item: Item) { item.1.content.Hash? ==> DistinctFields(item.1.content.pairs) }

  lemma ReadRecordPacked(item: Item, rest: Bytes)
    requires Packable(item) && WfItem(item)
    ensures ReadRecord(PackRecord(item) + rest) == Got(Stored(item), rest)
  {
    hide ReadBlob, PackBytes, ReadI64, PackI64, ReadContent, PackContent, TypeId;
    var content := PackContent(item.1.content) + rest;
    var deadline := PackI64(StoredDeadline(item.1.expireAt)) + content;
    var kind := [TypeId(item.1.content)] + deadline;
    assert PackRecord(item) + rest == PackBytes(item.0) + kind;
    ReadBlobPacked(item.0, kind);
    assert kind[..1] == [TypeId(item.1.content)] && kind[1..] == deadline;
    ReadI64Packed(StoredDeadline(item.1.expireAt), content);
    ReadContentPacked(item.1.content, rest);
  }

  lemma {:induction false} ReadRecordsPacked(items: seq<Item>, rest: Bytes)
    requires forall i :: 0 <= i < |items| ==> Packable(items[i]) && WfItem(items[i])
    ensures ReadRecords(PackRecords(items) + rest, |items|) == Got(StoredAll(items), rest)
    decreases |items|
  {
    hide ReadRecord, PackRecord, Packable, WfItem, Stored;
    if items == [] {
      assert PackRecords(items) + rest == rest;
    } else {
      var tail := PackRecords(items[1..]) + rest;
      assert PackRecords(items) + rest == PackRecord(items[0]) + tail;
      ReadRecordPacked(items[0], tail);
      ReadRecordsPacked(items[1..], rest);
      assert StoredAll(items) == [Stored(items[0])] + StoredAll(items[1..]);
    }
  }

  lemma ReadHeadPacked(version: nat, count: nat, rest: Bytes)
    requires version in {1, 2} && count < U32_BOUND
    ensures ReadHead(MAGIC + PackU32(version) + PackU32(count) + rest) == Got((version, count), rest)
  {
    hide ReadU32, PackU32;
    var s := MAGIC + PackU32(version) + PackU32(count) + rest;
    var r1 := PackU32(count) + rest;
    var r0 := PackU32(version) + r1;
    assert s == MAGIC + r0;
    assert s[..4] == MAGIC && s[4..] == r0;
    ReadU32Packed(version, r1);
    ReadU32Packed(count, rest);
  }

  predicate WfItems(items: seq<Item>) {
    forall i :: 0 <= i < |items| ==> WfItem(items[i])
  }

  /** A dump followed by anything reads back as its items and leaves what followed. */
  lemma ReadSnapshotPacked(items: seq<Item>, rest: Bytes, crc: Checksum)
    requires Dumpable(items) && WfItems(items)
    ensures ReadSnapshot(Dump(items, crc) + rest, crc) == Got(StoredAll(items), rest)
  {
    hide ReadU32, PackU32, ReadRecords, PackRecords, ReadHead, Stored;
    var data := Dump(items, crc) + rest;
    var footer := FOOTER + rest;
    var sum := PackU32(crc(Body(items))) + footer;
    var records := PackRecords(items) + sum;
    assert data == MAGIC + PackU32(2) + PackU32(|items|) + records;
    ReadHeadPacked(2, |items|, records);
    ReadRecordsPacked(items, sum);
    assert data[..|data| - |sum|] == Body(items);
    ReadU32Packed(crc(Body(items)), footer);
    assert footer[..4] == FOOTER && footer[4..] == rest;
  }

  // ---- from items to a keyspace --------------------------------------------

  /** A keyspace as a snapshot stores it. */
  function StoredKeyspace(ks: Keyspace): Keyspace {
    map k | k in ks :: Stored((k, ks[k])).1
  }

  predicate DistinctKeys(items: seq<Item>) {
    forall i, j :: 0 <= i < j < |items| ==> items[i].0 != items[j].0
  }

  lemma {:induction false} CollectIs(ks: Keyspace, items: seq<Item>, now: int)
    requires DistinctKeys(items)
    requires forall i :: 0 <= i < |items| ==> items[i].0 !in ks
    ensures forall k :: k in Collect(ks, items, now) <==>
              k in ks || exists i :: 0 <= i < |items| && items[i].0 == k && !IsExpired(items[i].1.expireAt, now)
    ensures forall k :: k in ks ==> k in Collect(ks, items, now) && Collect(ks, items, now)[k] == ks[k]
    ensures forall i :: 0 <= i < |items| && !IsExpired(items[i].1.expireAt, now) ==>
              items[i].0 in Collect(ks, items, now) && Collect(ks, items, now)[items[i].0] == items[i].1
    decreases |items|
  {
    if items != [] {
      var x, tail := items[0], items[1..];
      var ks' := if IsExpired(x.1.expireAt, now) then ks else ks[x.0 := x.1];
      assert forall i :: 0 <= i < |tail| ==> tail[i] == items[i + 1];
      CollectIs(ks', tail, now);
      var r := Collect(ks, items, now);
      forall i | 0 <= i < |items| && !IsExpired(items[i].1.expireAt, now)
        ensures items[i].0 in r && r[items[i].0] == items[i].1
      {
        if i > 0 {
          assert items[i] == tail[i - 1];
        } else {
          assert x.0 in ks' && r[x.0] == ks'[x.0];
        }
      }
      forall k | k in r && k !in ks
        ensures exists i :: 0 <= i < |items| && items[i].0 == k && !IsExpired(items[i].1.expireAt, now)
      {
        if k !in ks' {
          var i :| 0 <= i < |tail| && tail[i].0 == k && !IsExpired(tail[i].1.expireAt, now);
          assert items[i + 1].0 == k;
        } else {
          assert items[0].0 == k;
        }
      }
    }
  }

  /** Loading a dump gives back the keyspace it was taken from, without the entries expired
      on arrival: every string, list order, hash field order and absolute deadline. */
  lemma RoundTrip(items: seq<Item>, ks: Keyspace, now: int, maxFile: nat, crc: Checksum)
    requires Dumpable(items) && WfItems(items) && Enumerates(items, ks)
    requires |Dump(items, crc)| <= maxFile
    ensures Load(Dump(items, crc), now, maxFile, crc) == Some(Live(StoredKeyspace(ks), now))
  {
    hide PackRecords, ReadSnapshot, Collect, PackU32;
    var d := Dump(items, crc);
    ReadSnapshotPacked(items, [], crc);
    assert d + [] == d;
    var st := StoredAll(items);
    assert DistinctKeys(st);
    CollectIs(map[], st, now);
    CollectedIsLive(items, st, ks, Collect(map[], st, now), now);
  }

  lemma CollectedIsLive(items: seq<Item>, st: seq<Item>, ks: Keyspace, r: Keyspace, now: int)
    requires Enumerates(items, ks)
    requires |st| == |items| && forall i :: 0 <= i < |st| ==> st[i] == Stored(items[i]) && st[i].0 == items[i].0
    requires forall k :: k in r <==>
               exists i :: 0 <= i < |st| && st[i].0 == k && !IsExpired(st[i].1.expireAt, now)
    requires forall i :: 0 <= i < |st| && !IsExpired(st[i].1.expireAt, now) ==>
               st[i].0 in r && r[st[i].0] == st[i].1
    ensures r == Live(StoredKeyspace(ks), now)
  {
    hide IsExpired, Stored;
    var want := Live(StoredKeyspace(ks), now);
    forall k | k in r ensures k in want && want[k] == r[k] {
      var i :| 0 <= i < |st| && st[i].0 == k && !IsExpired(st[i].1.expireAt, now);
      assert items[i] == (k, ks[k]);
    }
    forall k | k in want ensures k in r {
      var i :| 0 <= i < |items| && items[i].0 == k;
      assert items[i] == (k, ks[k]) && st[i] == Stored(items[i]);
    }
  }

  predicate NoNegativeDeadline(ks: Keyspace) {
    forall k :: k in ks ==> (ks[k].expireAt.Some? ==> ks[k].expireAt.value >= 0)
  }

  /** The reload is exactly the live view of the original if and only if no deadline is
      negative: such an entry is expired, yet comes back without a deadline. */
  lemma RoundTripExactIff(items: seq<Item>, ks: Keyspace, now: int, maxFile: nat, crc: Checksum)
    requires Dumpable(items) && WfItems(items) && Enumerates(items, ks)
    requires |Dump(items, crc)| <= maxFile && now >= 0
    ensures Load(Dump(items, crc), now, maxFile, crc) == Some(Live(ks, now)) <==> NoNegativeDeadline(ks)
  {
    hide Load, Dump;
    RoundTrip(items, ks, now, maxFile, crc);
    if NoNegativeDeadline(ks) {
      assert StoredKeyspace(ks) == ks;
    } else {
      var k :| k in ks && ks[k].expireAt.Some? && ks[k].expireAt.value < 0;
      assert k in Live(StoredKeyspace(ks), now) && k !in Live(ks, now);
    }
  }

  // ---- self-delimiting -----------------------------------------------------

  lemma ReadU32Stable(s: Bytes, t: Bytes)
    requires ReadU32(s).Got?
    ensures ReadU32(s + t) == Got(ReadU32(s).value, ReadU32(s).rest + t)
  {
    assert (s + t)[..4] == s[..4] && (s + t)[4..] == s[4..] + t;
  }

  lemma ReadI64Stable(s: Bytes, t: Bytes)
    requires ReadI64(s).Got?
    ensures ReadI64(s + t) == Got(ReadI64(s).value, ReadI64(s).rest + t)
  {
    assert (s + t)[..8] == s[..8] && (s + t)[8..] == s[8..] + t;
  }

  lemma ReadExactStable(s: Bytes, n: nat, t: Bytes)
    requires ReadExact(s, n).Got?
    ensures ReadExact(s + t, n) == Got(ReadExact(s, n).value, ReadExact(s, n).rest + t)
  {
    assert (s + t)[..n] == s[..n] && (s + t)[n..] == s[n..] + t;
  }

  lemma ReadBlobStable(s: Bytes, t: Bytes)
    requires ReadBlob(s).Got?
    ensures ReadBlob(s + t) == Got(ReadBlob(s).value, ReadBlob(s).rest + t)
  {
    hide ReadU32, ReadExact;
    ReadU32Stable(s, t);
    ReadExactStable(ReadU32(s).rest, ReadU32(s).value, t);
  }

  lemma {:induction false} ReadListStable(s: Bytes, n: nat, t: Bytes)
    requires ReadList(s, n).Got?
    ensures ReadList(s + t, n) == Got(ReadList(s, n).value, ReadList(s, n).rest + t)
    decreases n
  {
    hide ReadBlob;
    if n > 0 {
      ReadBlobStable(s, t);
      ReadListStable(ReadBlob(s).rest, n - 1, t);
    }
  }

  lemma {:induction false} ReadPairsStable(s: Bytes, n: nat, t: Bytes)
    requires ReadPairs(s, n).Got?
    ensures ReadPairs(s + t, n) == Got(ReadPairs(s, n).value, ReadPairs(s, n).rest + t)
    decreases n
  {
    hide ReadBlob;
    if n > 0 {
      ReadBlobStable(s, t);
      ReadBlobStable(ReadBlob(s).rest, t);
      ReadPairsStable(ReadBlob(ReadBlob(s).rest).rest, n - 1, t);
    }
  }

  lemma ReadContentStable(kind: byte, s: Bytes, t: Bytes)
    requires ReadContent(kind, s).Got?
    ensures ReadContent(kind, s + t) == Got(ReadContent(kind, s).value, ReadContent(kind, s).rest + t)
  {
    hide ReadBlob, ReadU32, ReadList, ReadPairs, PutFields;
    if kind == 1 {
      ReadBlobStable(s, t);
    } else {
      ReadU32Stable(s, t);
      var n := ReadU32(s);
      if kind == 2 {
        ReadListStable(n.rest, n.value, t);
      } else {
        ReadPairsStable(n.rest, n.value, t);
      }
    }
  }

  lemma ReadRecordStable(s: Bytes, t: Bytes)
    requires ReadRecord(s).Got?
    ensures ReadRecord(s + t) == Got(ReadRecord(s).value, ReadRecord(s).rest + t)
  {
    hide ReadBlob, ReadExact, ReadI64, ReadContent;
    ReadBlobStable(s, t);
    var key := ReadBlob(s);
    ReadExactStable(key.rest, 1, t);
    var kind := ReadExact(key.rest, 1);
    ReadI64Stable(kind.rest, t);
    ReadContentStable(kind.value[0], ReadI64(kind.rest).rest, t);
  }

  lemma {:induction false} ReadRecordsStable(s: Bytes, n: nat, t: Bytes)
    requires ReadRecords(s, n).Got?
    ensures ReadRecords(s + t, n) == Got(ReadRecords(s, n).value, ReadRecords(s, n).rest + t)
    decreases n
  {
    hide ReadRecord;
    if n > 0 {
      ReadRecordStable(s, t);
      ReadRecordsStable(ReadRecord(s).rest, n - 1, t);
    }
  }

  lemma ReadHeadStable(s: Bytes, t: Bytes)
    requires ReadHead(s).Got?
    ensures ReadHead(s + t) == Got(ReadHead(s).value, ReadHead(s).rest + t)
  {
    hide ReadU32, ReadExact;
    ReadExactStable(s, 4, t);
    var magic := ReadExact(s, 4);
    ReadU32Stable(magic.rest, t);
    ReadU32Stable(ReadU32(magic.rest).rest, t);
  }

  lemma ReadTailStable(version: nat, body: Bytes, s: Bytes, crc: Checksum, t: Bytes)
    requires ReadTail(version, body, s, crc).Got?
    ensures ReadTail(version, body, s + t, crc) == Got((), ReadTail(version, body, s, crc).rest + t)
  {
    hide ReadU32, ReadExact;
    if version >= 2 {
      ReadU32Stable(s, t);
      ReadExactStable(ReadU32(s).rest, 4, t);
    } else {
      ReadExactStable(s, 4, t);
    }
  }

  /** Reading never looks past what it consumes. */
  lemma ReadSnapshotStable(data: Bytes, crc: Checksum, t: Bytes)
    requires ReadSnapshot(data, crc).Got?
    ensures ReadSnapshot(data + t, crc) ==
            Got(ReadSnapshot(data, crc).value, ReadSnapshot(data, crc).rest + t)
  {
    hide ReadHead, ReadRecords, ReadTail;
    ReadHeadStable(data, t);
    var head := ReadHead(data);
    ReadRecordsStable(head.rest, head.value.1, t);
    var records := ReadRecords(head.rest, head.value.1);
    var body := data[..|data| - |records.rest|];
    assert (data + t)[..|data + t| - |records.rest + t|] == body;
    ReadTailStable(head.value.0, body, records.rest, crc, t);
  }

  /** Accepted snapshots are prefix-free: no proper extension of an accepted byte string is
      accepted, at any time and for any checksum function. */
  lemma AcceptedIsPrefixFree(data: Bytes, t: Bytes, now: int, later: int, maxFile: nat, maxFile': nat, crc: Checksum)
    requires Load(data, now, maxFile, crc).Some? && t != []
    ensures Load(data + t, later, maxFile', crc) == None
  {
    hide ReadSnapshot, Collect;
    ReadSnapshotStable(data, crc, t);
  }

  /** Every proper prefix and every proper extension of a dump is rejected. */
  lemma DumpIsSelfDelimiting(items: seq<Item>, now: int, maxFile: nat, crc: Checksum)
    requires Dumpable(items) && WfItems(items)
    ensures forall cut: nat :: cut < |Dump(items, crc)| ==> Load(Dump(items, crc)[..cut], now, maxFile, crc) == None
    ensures forall t :: t != [] ==> Load(Dump(items, crc) + t, now, maxFile, crc) == None
  {
    hide Dump, ReadSnapshot, Collect;
    var d := Dump(items, crc);
    ReadSnapshotPacked(items, [], crc);
    assert d + [] == d;
    forall cut: nat | cut < |d| ensures Load(d[..cut], now, maxFile, crc) == None {
      assert d[..cut] + d[cut..] == d;
      if ReadSnapshot(d[..cut], crc).Got? {
        ReadSnapshotStable(d[..cut], crc, d[cut..]);
      }
    }
    forall t: Bytes | t != [] ensures Load(d + t, now, maxFile, crc) == None {
      ReadSnapshotStable(d, crc, t);
    }
  }

  // ---- version 1 -----------------------------------------------------------

  /** A dump rewritten as version 1: the version field is 1 and the checksum is removed. */
  function AsVersion1(d: Bytes): Bytes
    requires |d| >= 16
  {
    d[..4] + PackU32(1) + d[8..|d| - 8] + d[|d| - 4..]
  }

  /** The version 1 form of a dump loads to the same keyspace. */
  lemma Version1LoadsTheSame(items: seq<Item>, now: int, maxFile: nat, crc: Checksum)
    requires Dumpable(items) && WfItems(items)
    requires |Dump(items, crc)| <= maxFile
    ensures |Dump(items, crc)| >= 16
    ensures Load(AsVersion1(Dump(items, crc)), now, maxFile, crc) == Load(Dump(items, crc), now, maxFile, crc)
  {
    hide ReadU32, PackU32, ReadRecords, PackRecords, ReadHead, Stored, Collect;
    var d := Dump(items, crc);
    ReadSnapshotPacked(items, [], crc);
    assert d + [] == d;
    var count := PackU32(|items|);
    var records := PackRecords(items) + FOOTER;
    var v1 := MAGIC + PackU32(1) + count + records;
    assert d[8..|d| - 8] == count + PackRecords(items);
    assert AsVersion1(d) == v1;
    ReadHeadPacked(1, |items|, records);
    ReadRecordsPacked(items, FOOTER);
    assert FOOTER[..4] == FOOTER;
  }
}
