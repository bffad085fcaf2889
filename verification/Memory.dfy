/** The store's approximate memory accounting (`Store.memory_usage`). */
module Memory {
  import opened ByteStrings
  import opened Keyspace

  function ListCost(items: seq<Bytes>): nat {
    if items == [] then 0 else |items[0]| + 16 + ListCost(items[1..])
  }

  function HashCost(pairs: seq<(Bytes, Bytes)>): nat {
    if pairs == [] then 0 else |pairs[0].0| + |pairs[0].1| + 32 + HashCost(pairs[1..])
  }

  function ContentCost(c: Content): nat {
    match c
    case Str(b) => |b|
    case List(items) => ListCost(items)
    case Hash(pairs) => HashCost(pairs)
  }

  function EntryCost(k: Bytes, e: Entry): nat {
    |k| + 64 + ContentCost(e.content)
  }

  /** Sum of the costs of all entries. */
  ghost function Usage(ks: Keyspace): nat
    decreases |ks|
  {
    if ks == map[] then 0
    else
      var k :| k in ks;
      SmallerWithout(ks, k);
      EntryCost(k, ks[k]) + Usage(ks - {k})
  }

  lemma SmallerWithout(ks: Keyspace, k: Bytes)
    requires k in ks
    ensures |ks - {k}| < |ks|
  {
    assert (ks - {k}).Keys == ks.Keys - {k};
    assert |(ks - {k}).Keys| == |ks - {k}| && |ks.Keys| == |ks|;
  }

  /** The order of summation does not matter. */
  lemma {:induction false} UsageWithout(ks: Keyspace, k: Bytes)
    requires k in ks
    ensures Usage(ks) == EntryCost(k, ks[k]) + Usage(ks - {k})
    decreases |ks|
  {
    hide EntryCost;
    var j :| j in ks && Usage(ks) == EntryCost(j, ks[j]) + Usage(ks - {j});
    if j != k {
      SmallerWithout(ks, j);
      SmallerWithout(ks, k);
      UsageWithout(ks - {j}, k);
      UsageWithout(ks - {k}, j);
      assert (ks - {j}) - {k} == (ks - {k}) - {j};
    }
  }

  lemma UsagePositive(ks: Keyspace)
    requires Usage(ks) > 0
    ensures ks != map[]
  {
  }

  /** Fewer entries never cost more. */
  lemma {:induction false} UsageMonotone(small: Keyspace, big: Keyspace)
    requires small.Keys <= big.Keys && forall k :: k in small ==> small[k].content == big[k].content
    ensures Usage(small) <= Usage(big)
    decreases |big|
  {
    if big != map[] {
      var k :| k in big;
      SmallerWithout(big, k);
      UsageWithout(big, k);
      if k in small {
        UsageWithout(small, k);
        UsageMonotone(small - {k}, big - {k});
      } else {
        UsageMonotone(small, big - {k});
      }
    } else {
      assert small == map[];
    }
  }
}
