/** Laws of the commands that a client observes across calls. */
module CommandLaws {
  import opened ByteStrings
  import opened Keyspace
  import opened Commands

  // ---- strings and deadlines -----------------------------------------------

  /** GET after SET gives the value, up to the deadline and not beyond it. */
  lemma SetThenGet(ks: Keyspace, key: Bytes, value: Bytes, ex: Option<int>, t: int, u: int)
    requires t <= u
    ensures var ks' := Run(Set(key, value, ex), t, ks).ks;
            Run(Get(key), u, ks').reply == if ex.Some? && u >= t + ex.value * 1000 then Nil else Data(value)
  {
  }

  /** EXPIRE on a live key: it stays exactly until the deadline, TTL counts whole seconds
      down to it, and nothing else about the key changes. */
  lemma ExpireThenTtl(ks: Keyspace, key: Bytes, seconds: int, t: int, u: int)
    requires key in Live(ks, t) && seconds > 0 && t <= u
    ensures var o := Run(Expire(key, seconds), t, ks);
            && o.reply == Count(1)
            && (key in Live(o.ks, u) <==> u < t + seconds * 1000)
            && (key in Live(o.ks, u) ==> o.ks[key].content == ks[key].content)
            && Run(Ttl(key), u, o.ks).reply ==
               Count(if u < t + seconds * 1000 then (t + seconds * 1000 - u) / 1000 else -2)
            && o.ks - {key} == ks - {key}
  {
  }

  /** TTL of a key with a deadline answers 0 exactly during its last second, and -2 exactly
      once the deadline has passed. */
  lemma TtlZeroIff(ks: Keyspace, key: Bytes, t: int)
    requires key in ks && ks[key].expireAt.Some?
    ensures Run(Ttl(key), t, ks).reply == Count(0) <==> 0 < ks[key].expireAt.value - t < 1000
    ensures Run(Ttl(key), t, ks).reply == Count(-2) <==> ks[key].expireAt.value <= t
  {
    var left := ks[key].expireAt.value - t;
    if left > 0 {
      assert left / 1000 == 0 <==> left < 1000;
    }
  }

  /** What TTL answers: -2 without a live key, -1 without a deadline, else the whole seconds
      left. */
  lemma TtlMeaning(ks: Keyspace, key: Bytes, t: int)
    ensures var r := Run(Ttl(key), t, ks).reply;
            && r.Count?
            && (r.n == -2 <==> key !in Live(ks, t))
            && (r.n == -1 <==> key in Live(ks, t) && ks[key].expireAt.None?)
            && (r.n >= 0 <==> key in Live(ks, t) && ks[key].expireAt.Some?)
            && (r.n >= 0 ==> r.n * 1000 <= ks[key].expireAt.value - t < (r.n + 1) * 1000)
  {
  }

  /** What GET answers: the string of a live key, nothing without one, an error otherwise. */
  lemma GetMeaning(ks: Keyspace, key: Bytes, t: int)
    ensures var r := Run(Get(key), t, ks).reply;
            && (r == Nil <==> key !in Live(ks, t))
            && (forall b :: r == Data(b) <==> key in Live(ks, t) && ks[key].content == Str(b))
            && (r == Err(WrongType) <==> key in Live(ks, t) && !ks[key].content.Str?)
            && (r.Nil? || r.Data? || r.Err?)
  {
  }

  /** EXPIRE answers 1 exactly for a live key; a time that is not positive deletes it. */
  lemma ExpireMeaning(ks: Keyspace, key: Bytes, seconds: int, t: int)
    ensures var o := Run(Expire(key, seconds), t, ks);
            && (o.reply == Count(1) <==> key in Live(ks, t)) && (o.reply == Count(0) <==> key !in Live(ks, t))
            && (seconds <= 0 ==> key !in Live(o.ks, t))
            && (key !in Live(ks, t) ==> key !in o.ks)
  {
  }

  // ---- deleting and counting -----------------------------------------------

  /** The live ones among these keys. */
  function Hit(keys: seq<Bytes>, live: Keyspace): set<Bytes> { set k | k in keys && k in live }

  lemma HitCons(keys: seq<Bytes>, live: Keyspace)
    requires keys != []
    ensures |Hit(keys, live)| == |Hit(keys[1..], live - {keys[0]})| + if keys[0] in live then 1 else 0
  {
    var first, rest := keys[0], keys[1..];
    var later := Hit(rest, live - {first});
    assert keys == [first] + rest;
    assert first !in later;
    assert Hit(keys, live) == later + (if first in live then {first} else {});
  }

  /** DEL answers how many different live keys it was given. */
  lemma {:induction false} DeleteCounts(ks: Keyspace, keys: seq<Bytes>, t: int)
    ensures Delete(ks, keys, t).1 == |Hit(keys, Live(ks, t))|
    decreases |keys|
  {
    hide Live, IsExpired, Hit;
    if keys == [] {
      assert Hit(keys, Live(ks, t)) == {} by { NoneHit(Live(ks, t)); }
    } else {
      DeleteCounts(ks - {keys[0]}, keys[1..], t);
      LiveWithout(ks, keys[0], t);
      HitCons(keys, Live(ks, t));
    }
  }

  lemma NoneHit(live: Keyspace)
    ensures Hit([], live) == {}
  {
  }

  lemma LiveWithout(ks: Keyspace, key: Bytes, t: int)
    ensures Live(ks - {key}, t) == Live(ks, t) - {key}
    ensures key in Live(ks, t) <==> key in ks && !IsExpired(ks[key].expireAt, t)
  {
  }

  /** DBSIZE counts the live keys: DEL lowers it by its own answer. */
  lemma DbSizeAfterDelete(ks: Keyspace, keys: seq<Bytes>, t: int)
    ensures var o := Run(Del(keys), t, ks);
            && o.reply.Count?
            && Run(DbSize, t, o.ks).reply == Count(|Live(ks, t)| - o.reply.n)
            && Run(DbSize, t, ks).reply == Count(|Live(ks, t)|)
  {
    hide Delete, Live, Hit;
    DeleteCounts(ks, keys, t);
    DeleteKeys(ks, keys, t);
    LiveMinusKeys(ks, keys, t);
    Fewer(Live(ks, t), keys);
  }

  lemma LiveMinusKeys(ks: Keyspace, keys: seq<Bytes>, t: int)
    ensures Live(ks - (set k | k in keys), t) == Live(ks, t) - (set k | k in keys)
  {
  }

  lemma Fewer(live: Keyspace, keys: seq<Bytes>)
    ensures |live - (set k | k in keys)| == |live| - |Hit(keys, live)|
  {
    var less := live - (set k | k in keys);
    assert less.Keys == live.Keys - Hit(keys, live) && Hit(keys, live) <= live.Keys;
    assert |less| == |less.Keys| && |live| == |live.Keys|;
  }

  /** A new key raises it by one, a known one leaves it. */
  lemma DbSizeAfterSet(ks: Keyspace, key: Bytes, value: Bytes, t: int)
    ensures Run(DbSize, t, Run(Set(key, value, None), t, ks).ks).reply ==
            Count(|Live(ks, t)| + if key in Live(ks, t) then 0 else 1)
  {
    hide Live;
    LiveAfterSet(ks, key, value, t);
    var live := Live(ks, t);
    var after := live[key := Entry(Str(value), None)];
    assert after.Keys == live.Keys + {key};
    assert |after| == |after.Keys| && |live| == |live.Keys|;
  }

  lemma LiveAfterSet(ks: Keyspace, key: Bytes, value: Bytes, t: int)
    ensures Live(ks[key := Entry(Str(value), None)], t) == Live(ks, t)[key := Entry(Str(value), None)]
  {
  }

  // ---- lists ---------------------------------------------------------------

  /** The replies of RPOP repeated `n` times. */
  function PopReplies(ks: Keyspace, key: Bytes, n: nat, t: int): seq<Reply> {
    if n == 0 then []
    else var o := Run(RPop(key), t, ks); [o.reply] + PopReplies(o.ks, key, n - 1, t)
  }

  function AsData(els: seq<Bytes>): (r: seq<Reply>)
    ensures |r| == |els| && forall i :: 0 <= i < |r| ==> r[i] == Data(els[i])
  {
    seq(|els|, i requires 0 <= i < |els| => Data(els[i]))
  }

  /** The first element pushed ends up last. */
  lemma {:induction false} PushedFirstIsLast(items: seq<Bytes>, els: seq<Bytes>)
    requires els != []
    ensures PushLeft(items, els) == PushLeft([], els[1..]) + ([els[0]] + items)
    decreases |els|
  {
    PushOnto([els[0]] + items, els[1..]);
  }

  lemma {:induction false} PushOnto(items: seq<Bytes>, els: seq<Bytes>)
    ensures PushLeft(items, els) == PushLeft([], els) + items
    decreases |els|
  {
    if els != [] {
      PushOnto([els[0]] + items, els[1..]);
      PushOnto([els[0]], els[1..]);
      assert [els[0]] + [] == [els[0]];
      assert PushLeft([], els[1..]) + ([els[0]] + items) == (PushLeft([], els[1..]) + [els[0]]) + items;
    }
  }

  /** LPUSH and RPOP make a queue: elements come out in the order they were pushed, after
      which the key is gone. */
  lemma {:induction false} PopsInPushOrder(ks: Keyspace, key: Bytes, els: seq<Bytes>, t: int)
    requires key in ks && ks[key] == Entry(List(PushLeft([], els)), None) && els != []
    ensures PopReplies(ks, key, |els|, t) == AsData(els)
    ensures Run(RPop(key), t, AfterPops(ks, key, |els|, t)).reply == Nil && key !in AfterPops(ks, key, |els|, t)
    decreases |els|
  {
    hide PushLeft;
    PushedFirstIsLast([], els);
    var items := PushLeft([], els);
    assert [els[0]] + [] == [els[0]];
    assert items[|items| - 1] == els[0] && items[..|items| - 1] == PushLeft([], els[1..]);
    var o := Run(RPop(key), t, ks);
    assert o.reply == Data(els[0]);
    if |els| > 1 {
      PopsInPushOrder(o.ks, key, els[1..], t);
      assert AsData(els) == [Data(els[0])] + AsData(els[1..]);
    } else {
      assert PopReplies(ks, key, 1, t) == [o.reply] + PopReplies(o.ks, key, 0, t);
      assert AfterPops(ks, key, 1, t) == AfterPops(o.ks, key, 0, t) == o.ks;
    }
  }

  function AfterPops(ks: Keyspace, key: Bytes, n: nat, t: int): Keyspace {
    if n == 0 then ks else AfterPops(Run(RPop(key), t, ks).ks, key, n - 1, t)
  }

  lemma PushThenPops(ks: Keyspace, key: Bytes, els: seq<Bytes>, t: int)
    requires key !in Live(ks, t) && els != []
    ensures PopReplies(Run(LPush(key, els), t, ks).ks, key, |els|, t) == AsData(els)
  {
    hide PushLeft;
    PopsInPushOrder(Run(LPush(key, els), t, ks).ks, key, els, t);
  }

  // ---- hashes --------------------------------------------------------------

  /** The value of a field. */
  function Field(pairs: seq<(Bytes, Bytes)>, f: Bytes): Option<Bytes> {
    var i := FieldIndex(pairs, f);
    if i < |pairs| then Some(pairs[i].1) else None
  }

  lemma FieldIndexIs(pairs: seq<(Bytes, Bytes)>, f: Bytes, i: nat)
    requires i < |pairs| && pairs[i].0 == f && forall j :: 0 <= j < i ==> pairs[j].0 != f
    ensures FieldIndex(pairs, f) == i
  {
    hide FieldIndex;
  }

  /** Writing a field changes that field only, and never reorders the others. */
  lemma PutFieldLaw(pairs: seq<(Bytes, Bytes)>, f: Bytes, v: Bytes, g: Bytes)
    ensures Field(PutField(pairs, f, v), g) == if g == f then Some(v) else Field(pairs, g)
    ensures |PutField(pairs, f, v)| == if Field(pairs, f).Some? then |pairs| else |pairs| + 1
    ensures forall i :: 0 <= i < |pairs| ==> PutField(pairs, f, v)[i].0 == pairs[i].0
  {
    hide FieldIndex;
    var r := PutField(pairs, f, v);
    var i := FieldIndex(pairs, g);
    if g == f {
      FieldIndexIs(r, f, i);
    } else if i < |pairs| {
      FieldIndexIs(r, g, i);
    } else {
      assert forall k :: 0 <= k < |r| ==> r[k].0 != g;
    }
  }

  /** The last value written to a field in one HSET. */
  function LastWritten(news: seq<(Bytes, Bytes)>, f: Bytes): Option<Bytes>
    decreases |news|
  {
    if news == [] then None
    else if news[|news| - 1].0 == f then Some(news[|news| - 1].1)
    else LastWritten(news[..|news| - 1], f)
  }

  lemma {:induction false} LastWrittenCons(news: seq<(Bytes, Bytes)>, f: Bytes)
    requires news != []
    ensures LastWritten(news, f) ==
            if LastWritten(news[1..], f).Some? then LastWritten(news[1..], f)
            else if news[0].0 == f then Some(news[0].1) else None
    decreases |news|
  {
    if |news| > 1 {
      var init := news[..|news| - 1];
      LastWrittenCons(init, f);
      assert news[1..][..|news| - 2] == init[1..];
    } else {
      assert news[..0] == [];
    }
  }

  /** After HSET every field holds the last value written to it, or what it held before. */
  lemma {:induction false} HSetLaw(pairs: seq<(Bytes, Bytes)>, news: seq<(Bytes, Bytes)>, f: Bytes)
    ensures Field(PutFields(pairs, news), f) ==
            if LastWritten(news, f).Some? then LastWritten(news, f) else Field(pairs, f)
    decreases |news|
  {
    hide Field, PutField;
    if news != [] {
      PutFieldLaw(pairs, news[0].0, news[0].1, f);
      HSetLaw(PutField(pairs, news[0].0, news[0].1), news[1..], f);
      LastWrittenCons(news, f);
    }
  }

  /** HSET reports how many fields are new. */
  lemma HSetCountsNewFields(ks: Keyspace, key: Bytes, fields: seq<(Bytes, Bytes)>, t: int)
    requires key in ks && ks[key].content.Hash? && !IsExpired(ks[key].expireAt, t)
    ensures var o := Run(HSet(key, fields), t, ks);
            && key in o.ks && o.ks[key].content.Hash?
            && o.reply == Count(|o.ks[key].content.pairs| - |ks[key].content.pairs|)
  {
    hide PutFields, AddedFields;
    AddedFieldsIsGrowth(ks[key].content.pairs, fields);
  }

  /** HGETALL after HSET of different fields on an absent or expired key lists exactly these,
      in order. */
  lemma HSetThenList(ks: Keyspace, key: Bytes, fields: seq<(Bytes, Bytes)>, t: int)
    requires key !in Live(ks, t) && DistinctFields(fields)
    ensures Run(HGetAll(key), t, Run(HSet(key, fields), t, ks).ks).reply == Listing(Flatten(fields))
  {
    hide AddedFields, PutFields, Flatten;
    assert [] + fields == fields;
    PutNewFields([], fields);
  }

  /** HGETALL of a live hash lists every field once with the value it holds. */
  lemma ListedFields(ks: Keyspace, key: Bytes, t: int, i: nat)
    requires key in Live(ks, t) && ks[key].content.Hash? && DistinctFields(ks[key].content.pairs)
    requires i < |ks[key].content.pairs|
    ensures var r := Run(HGetAll(key), t, ks).reply;
            var pairs := ks[key].content.pairs;
            && r.Listing? && |r.items| == 2 * |pairs|
            && Field(pairs, r.items[2 * i]) == Some(r.items[2 * i + 1])
  {
    hide Flatten;
    var pairs := ks[key].content.pairs;
    FieldIndexIs(pairs, pairs[i].0, i);
  }

  // ---- updates in place ----------------------------------------------------

  /** LPUSH, RPOP and HSET on a live key of the right kind keep its deadline, and the answer
      tells the new length, the popped element, or the growth. */
  lemma UpdatesInPlace(ks: Keyspace, key: Bytes, els: seq<Bytes>, fields: seq<(Bytes, Bytes)>, t: int)
    requires key in Live(ks, t)
    ensures ks[key].content.List? ==>
              var o := Run(LPush(key, els), t, ks);
              && key in o.ks && o.ks[key].expireAt == ks[key].expireAt && o.ks[key].content.List?
              && o.reply == Count(|ks[key].content.items| + |els|) == Count(|o.ks[key].content.items|)
    ensures ks[key].content.List? && |ks[key].content.items| > 1 ==>
              var o := Run(RPop(key), t, ks);
              && key in o.ks && o.ks[key].expireAt == ks[key].expireAt && o.ks[key].content.List? && o.reply.Data?
              && o.ks[key].content.items + [o.reply.bytes] == ks[key].content.items
    ensures ks[key].content.Hash? ==>
              var o := Run(HSet(key, fields), t, ks);
              && key in o.ks && o.ks[key].expireAt == ks[key].expireAt && o.ks[key].content.Hash?
              && o.reply == Count(|o.ks[key].content.pairs| - |ks[key].content.pairs|)
  {
    hide PushLeft, PutFields, AddedFields;
    if ks[key].content.Hash? {
      AddedFieldsIsGrowth(ks[key].content.pairs, fields);
    }
  }

  /** On a live key of another kind they answer WRONGTYPE and change nothing. */
  lemma WrongTypeChangesNothing(ks: Keyspace, key: Bytes, els: seq<Bytes>, fields: seq<(Bytes, Bytes)>, t: int)
    requires key in Live(ks, t)
    ensures !ks[key].content.List? ==>
              Run(LPush(key, els), t, ks) == Outcome(ks, Err(WrongType)) == Run(RPop(key), t, ks)
    ensures !ks[key].content.Hash? ==>
              Run(HSet(key, fields), t, ks) == Outcome(ks, Err(WrongType)) == Run(HGetAll(key), t, ks)
    ensures !ks[key].content.Str? ==> Run(Get(key), t, ks) == Outcome(ks, Err(WrongType))
  {
  }
}
