/** The dump and load loops of `persistence/rdb.py`, proved against the format. */
module SnapshotCodec {
  import opened ByteStrings
  import opened Keyspace
  import opened Snapshot

  lemma {:induction false} PackListSnoc(items: seq<Bytes>, x: Bytes)
    ensures PackList(items + [x]) == PackList(items) + PackBytes(x)
    decreases |items|
  {
    hide PackBytes;
    if items == [] {
      assert [x][1..] == [];
    } else {
      assert (items + [x])[1..] == items[1..] + [x];
      PackListSnoc(items[1..], x);
    }
  }

  lemma {:induction false} PackPairsSnoc(pairs: seq<(Bytes, Bytes)>, x: (Bytes, Bytes))
    ensures PackPairs(pairs + [x]) == PackPairs(pairs) + (PackBytes(x.0) + PackBytes(x.1))
    decreases |pairs|
  {
    hide PackBytes;
    if pairs == [] {
      assert [x][1..] == [];
      assert PackPairs([x]) == PackBytes(x.0) + PackBytes(x.1) + [];
    } else {
      assert (pairs + [x])[1..] == pairs[1..] + [x];
      PackPairsSnoc(pairs[1..], x);
    }
  }

  lemma {:induction false} PackRecordsSnoc(items: seq<Item>, x: Item)
    requires Packable(x) && forall i :: 0 <= i < |items| ==> Packable(items[i])
    ensures PackRecords(items + [x]) == PackRecords(items) + PackRecord(x)
    decreases |items|
  {
    hide PackRecord, Packable;
    if items == [] {
      assert [x][1..] == [];
    } else {
      assert (items + [x])[1..] == items[1..] + [x];
      PackRecordsSnoc(items[1..], x);
    }
  }

  /** The type-specific payload of one record; None when a length does not fit 32 bits. */
  method DumpContent(c: Content) returns (r: Option<Bytes>)
    ensures r.Some? <==> PackableContent(c)
    ensures r.Some? ==> r.value == PackContent(c)
  {
    hide PackBytes, PackU32;
    match c
    case Str(b) =>
      if |b| >= U32_BOUND { return None; }
      r := Some(PackBytes(b));
    case List(items) =>
      if |items| >= U32_BOUND { return None; }
      var parts := PackU32(|items|);
      for i := 0 to |items|
        invariant forall j :: 0 <= j < i ==> Short(items[j])
        invariant parts == PackU32(|items|) + PackList(items[..i])
      {
        if |items[i]| >= U32_BOUND { return None; }
        assert items[..i + 1] == items[..i] + [items[i]];
        PackListSnoc(items[..i], items[i]);
        parts := parts + PackBytes(items[i]);
      }
      assert items[..|items|] == items;
      r := Some(parts);
    case Hash(pairs) =>
      if |pairs| >= U32_BOUND { return None; }
      var parts := PackU32(|pairs|);
      for i := 0 to |pairs|
        invariant forall j :: 0 <= j < i ==> Short(pairs[j].0) && Short(pairs[j].1)
        invariant parts == PackU32(|pairs|) + PackPairs(pairs[..i])
      {
        if |pairs[i].0| >= U32_BOUND || |pairs[i].1| >= U32_BOUND { return None; }
        assert pairs[..i + 1] == pairs[..i] + [pairs[i]];
        PackPairsSnoc(pairs[..i], pairs[i]);
        parts := parts + (PackBytes(pairs[i].0) + PackBytes(pairs[i].1));
      }
      assert pairs[..|pairs|] == pairs;
      r := Some(parts);
  }

  /** dump_rdb_entries; None stands for struct.error. */
  method DumpRdbEntries(items: seq<Item>, crc: Checksum) returns (r: Option<Bytes>)
    ensures r.Some? <==> Dumpable(items)
    ensures r.Some? ==> r.value == Dump(items, crc)
  {
    hide PackBytes, PackU32, PackContent, PackI64, PackableContent;
    if |items| >= U32_BOUND { return None; }
    var head := MAGIC + PackU32(2) + PackU32(|items|);
    var records := [];
    for i := 0 to |items|
      invariant forall j :: 0 <= j < i ==> Packable(items[j])
      invariant records == PackRecords(items[..i])
    {
      var key, entry := items[i].0, items[i].1;
      var deadline := StoredDeadline(entry.expireAt);
      if |key| >= U32_BOUND || !(-I64_BOUND <= deadline < I64_BOUND) { return None; }
      var content := DumpContent(entry.content);
      if content.None? { return None; }
      var record := PackBytes(key) + [TypeId(entry.content)] + PackI64(deadline) + content.value;
      assert record == PackRecord(items[i]);
      assert items[..i + 1] == items[..i] + [items[i]];
      PackRecordsSnoc(items[..i], items[i]);
      records := records + record;
    }
    assert items[..|items|] == items;
    var body := head + records;
    r := Some(body + PackU32(crc(body)) + FOOTER);
  }

  function Then<T>(done: seq<T>, r: Read<seq<T>>): Read<seq<T>> {
    if r.Fail? then Fail else Got(done + r.value, r.rest)
  }

  lemma ThenNothing<T>(r: Read<seq<T>>)
    ensures Then([], r) == r
  {
    if r.Got? {
      assert [] + r.value == r.value;
    }
  }

  /** The element loop for a list. */
  method LoadList(s: Bytes, n: nat) returns (r: Read<seq<Bytes>>)
    ensures r == ReadList(s, n)
  {
    hide ReadBlob;
    var items := [];
    var rest := s;
    ThenNothing(ReadList(s, n));
    for i := 0 to n
      invariant ReadList(s, n) == Then(items, ReadList(rest, n - i))
    {
      var b := ReadBlob(rest);
      if b.Fail? { return Fail; }
      ghost var more := ReadList(b.rest, n - i - 1);
      assert more.Got? ==> items + ([b.value] + more.value) == (items + [b.value]) + more.value;
      items := items + [b.value];
      rest := b.rest;
    }
    assert items + [] == items;
    r := Got(items, rest);
  }

  /** The field loop for a hash: `mapping[field] = value` as the pairs are read. */
  method LoadHash(s: Bytes, n: nat) returns (r: Read<Content>)
    ensures r == var p := ReadPairs(s, n); if p.Fail? then Fail else Got(Hash(PutFields([], p.value)), p.rest)
  {
    hide ReadBlob, PutField;
    var pairs: seq<(Bytes, Bytes)> := [];
    ghost var done: seq<(Bytes, Bytes)> := [];
    var rest := s;
    ThenNothing(ReadPairs(s, n));
    for i := 0 to n
      invariant pairs == PutFields([], done)
      invariant ReadPairs(s, n) == Then(done, ReadPairs(rest, n - i))
    {
      var f := ReadBlob(rest);
      if f.Fail? { return Fail; }
      var v := ReadBlob(f.rest);
      if v.Fail? { return Fail; }
      ghost var x := (f.value, v.value);
      ghost var more := ReadPairs(v.rest, n - i - 1);
      assert more.Got? ==> done + ([x] + more.value) == (done + [x]) + more.value;
      PutFieldsSnoc([], done, x);
      pairs := PutField(pairs, f.value, v.value);
      done := done + [x];
      rest := v.rest;
    }
    assert done + [] == done;
    r := Got(Hash(pairs), rest);
  }

  lemma {:induction false} PutFieldsSnoc(pairs: seq<(Bytes, Bytes)>, news: seq<(Bytes, Bytes)>, x: (Bytes, Bytes))
    ensures PutFields(pairs, news + [x]) == PutField(PutFields(pairs, news), x.0, x.1)
    decreases |news|
  {
    hide PutField;
    if news == [] {
      assert (news + [x])[1..] == [];
      assert PutFields(PutField(pairs, x.0, x.1), []) == PutField(pairs, x.0, x.1);
    } else {
      assert (news + [x])[1..] == news[1..] + [x];
      PutFieldsSnoc(PutField(pairs, news[0].0, news[0].1), news[1..], x);
    }
  }

  /** One key record. */
  method LoadRecord(s: Bytes) returns (r: Read<Item>)
    ensures r == ReadRecord(s)
  {
    hide ReadBlob, ReadI64, ReadU32, ReadList, ReadPairs, PutFields;
    var key := ReadBlob(s);
    if key.Fail? { return Fail; }
    var kind := ReadExact(key.rest, 1);
    if kind.Fail? { return Fail; }
    var d := ReadI64(kind.rest);
    if d.Fail? { return Fail; }
    var content: Read<Content> := Fail;
    if kind.value[0] == 1 {
      var b := ReadBlob(d.rest);
      if b.Got? { content := Got(Str(b.value), b.rest); }
    } else if kind.value[0] == 2 || kind.value[0] == 3 {
      var n := ReadU32(d.rest);
      if n.Got? {
        if kind.value[0] == 2 {
          var items := LoadList(n.rest, n.value);
          if items.Got? { content := Got(List(items.value), items.rest); }
        } else {
          content := LoadHash(n.rest, n.value);
        }
      }
    }
    if content.Fail? { return Fail; }
    r := Got((key.value, Entry(content.value, LoadedDeadline(d.value))), content.rest);
  }

  lemma {:induction false} CollectSnoc(ks: Keyspace, items: seq<Item>, x: Item, now: int)
    ensures Collect(ks, items + [x], now) ==
            if IsExpired(x.1.expireAt, now) then Collect(ks, items, now) else Collect(ks, items, now)[x.0 := x.1]
    decreases |items|
  {
    if items == [] {
      assert (items + [x])[1..] == [];
    } else {
      assert (items + [x])[1..] == items[1..] + [x];
      CollectSnoc(if IsExpired(items[0].1.expireAt, now) then ks else ks[items[0].0 := items[0].1],
                  items[1..], x, now);
    }
  }

  /** load_rdb_bytes; None stands for RdbError. */
  method LoadRdbBytes(data: Bytes, now: int, maxFile: nat, crc: Checksum) returns (r: Option<Keyspace>)
    ensures r == Load(data, now, maxFile, crc)
  {
    hide ReadRecord, ReadHead, ReadTail;
    if |data| > maxFile || |data| < 12 { return None; }
    var head := ReadHead(data);
    if head.Fail? { return None; }
    var entries: Keyspace := map[];
    var rest := head.rest;
    ghost var done: seq<Item> := [];
    ThenNothing(ReadRecords(head.rest, head.value.1));
    for i := 0 to head.value.1
      invariant |rest| <= |data|
      invariant ReadRecords(head.rest, head.value.1) == Then(done, ReadRecords(rest, head.value.1 - i))
      invariant entries == Collect(map[], done, now)
    {
      var record := LoadRecord(rest);
      if record.Fail? { return None; }
      ghost var more := ReadRecords(record.rest, head.value.1 - i - 1);
      assert more.Got? ==> done + ([record.value] + more.value) == (done + [record.value]) + more.value;
      CollectSnoc(map[], done, record.value, now);
      if !IsExpired(record.value.1.expireAt, now) {
        entries := entries[record.value.0 := record.value.1];
      }
      done := done + [record.value];
      rest := record.rest;
    }
    assert done + [] == done;
    var tail := ReadTail(head.value.0, data[..|data| - |rest|], rest, crc);
    if tail.Fail? || tail.rest != [] { return None; }
    r := Some(entries);
  }
}
