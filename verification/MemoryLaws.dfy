/** What writes cost: how the store's memory accounting moves with single commands. */
module MemoryLaws {
  import opened ByteStrings
  import opened Keyspace
  import opened Commands
  import opened Memory

  /** One entry more, or in place of another: its key, 64 bytes, and its content. */
  lemma UsagePut(ks: Keyspace, k: Bytes, e: Entry)
    ensures Usage(ks[k := e]) == Usage(ks - {k}) + |k| + 64 + ContentCost(e.content)
    ensures k in ks ==> Usage(ks[k := e]) + ContentCost(ks[k].content) == Usage(ks) + ContentCost(e.content)
  {
    hide Usage, ContentCost;
    var ks' := ks[k := e];
    UsageWithout(ks', k);
    assert ks' - {k} == ks - {k};
    if k in ks {
      UsageWithout(ks, k);
    }
  }

  /** Every pushed element costs its length and 16 bytes. */
  lemma {:induction false} PushCost(items: seq<Bytes>, els: seq<Bytes>)
    ensures ListCost(PushLeft(items, els)) == ListCost(items) + TotalLength(els) + 16 * |els|
    decreases |els|
  {
    if els != [] {
      PushCost([els[0]] + items, els[1..]);
      assert ([els[0]] + items)[1..] == items;
    }
  }

  lemma {:induction false} HashCostAppend(a: seq<(Bytes, Bytes)>, b: seq<(Bytes, Bytes)>)
    ensures HashCost(a + b) == HashCost(a) + HashCost(b)
  {
    if a == [] {
      assert a + b == b;
    } else {
      assert (a + b)[1..] == a[1..] + b;
      HashCostAppend(a[1..], b);
    }
  }

  /** A new field costs its name, its value and 32 bytes; an old one the difference of the
      values. */
  lemma PutFieldCost(pairs: seq<(Bytes, Bytes)>, f: Bytes, v: Bytes)
    ensures var i := FieldIndex(pairs, f);
            HashCost(PutField(pairs, f, v)) ==
            HashCost(pairs) + if i < |pairs| then |v| - |pairs[i].1| else |f| + |v| + 32
  {
    hide FieldIndex;
    var i := FieldIndex(pairs, f);
    assert HashCost([(f, v)]) == |f| + |v| + 32 by { OneField(f, v); }
    if i < |pairs| {
      var a, old_, b := pairs[..i], pairs[i], pairs[i + 1..];
      assert pairs == a + ([old_] + b) && pairs[i := (f, v)] == a + ([(f, v)] + b);
      HashCostAppend(a, [old_] + b);
      HashCostAppend([old_], b);
      HashCostAppend(a, [(f, v)] + b);
      HashCostAppend([(f, v)], b);
      OneField(old_.0, old_.1);
      assert old_ == (old_.0, old_.1);
    } else {
      HashCostAppend(pairs, [(f, v)]);
    }
  }

  lemma OneField(f: Bytes, v: Bytes)
    ensures HashCost([(f, v)]) == |f| + |v| + 32
  {
    assert [(f, v)][1..] == [];
  }

  /** SET of a new key costs 64 bytes, the key and the value. */
  lemma SetCost(ks: Keyspace, key: Bytes, value: Bytes, ex: Option<int>, t: int)
    requires key !in ks
    ensures Usage(Run(Set(key, value, ex), t, ks).ks) == Usage(ks) + |key| + 64 + |value|
  {
    hide Usage;
    UsagePut(ks, key, Entry(Str(value), if ex.None? then None else Some(t + ex.value * 1000)));
    assert ks - {key} == ks;
  }

  /** LPUSH costs its elements and 16 bytes each, and on a new key the key and 64 bytes. */
  lemma LPushCost(ks: Keyspace, key: Bytes, els: seq<Bytes>, t: int)
    requires key in ks ==> ks[key].content.List? && !IsExpired(ks[key].expireAt, t)
    ensures Usage(Run(LPush(key, els), t, ks).ks) ==
            Usage(ks) + TotalLength(els) + 16 * |els| + if key in ks then 0 else |key| + 64
  {
    hide Usage, PushLeft, TotalLength, ListCost;
    if key in ks {
      var items := ks[key].content.items;
      PushCost(items, els);
      UsagePut(ks, key, ks[key].(content := List(PushLeft(items, els))));
    } else {
      PushCost([], els);
      assert ListCost([]) == 0 by { NothingListed(); }
      UsagePut(ks, key, Entry(List(PushLeft([], els)), None));
      assert ks - {key} == ks;
    }
  }

  lemma NothingListed()
    ensures ListCost([]) == 0
  {
  }

  /** HSET of one field on a live hash. */
  lemma HSetCost(ks: Keyspace, key: Bytes, f: Bytes, v: Bytes, t: int)
    requires key in ks && ks[key].content.Hash? && !IsExpired(ks[key].expireAt, t)
    ensures var pairs := ks[key].content.pairs;
            var i := FieldIndex(pairs, f);
            Usage(Run(HSet(key, [(f, v)]), t, ks).ks) ==
            Usage(ks) + if i < |pairs| then |v| - |pairs[i].1| else |f| + |v| + 32
  {
    hide Usage, PutField, FieldIndex, HashCost, AddedFields;
    var pairs := ks[key].content.pairs;
    assert [(f, v)][1..] == [];
    assert PutFields(pairs, [(f, v)]) == PutFields(PutField(pairs, f, v), []) == PutField(pairs, f, v);
    PutFieldCost(pairs, f, v);
    UsagePut(ks, key, ks[key].(content := Hash(PutField(pairs, f, v))));
  }
}
