/** What it means for a list of evictions to be the right one. */
module Eviction {
  import opened ByteStrings
  import opened Keyspace
  import opened Memory
  import opened Recency

  datatype Policy = NoEviction | AllKeysLru | VolatileTtl

  /** What a policy can never remove. */
  function Unevictable(policy: Policy, ks: Keyspace): Keyspace {
    match policy
    case NoEviction => ks
    case VolatileTtl => map k | k in ks && ks[k].expireAt.None? :: ks[k]
    case AllKeysLru => map[]
  }

  function KeySet(s: seq<Bytes>): set<Bytes> { set k | k in s }

  /** Every eviction was needed: usage was over the limit just before it. */
  ghost predicate NeededEvictions(ks: Keyspace, evicted: seq<Bytes>, limit: int) {
    forall i :: 0 <= i < |evicted| ==> Usage(ks - KeySet(evicted[..i])) > limit
  }

  /** This key's deadline is the earliest of all. */
  predicate Soonest(ks: Keyspace, key: Bytes)
    requires key in ks
  {
    && ks[key].expireAt.Some?
    && forall x :: x in ks && ks[x].expireAt.Some? ==> ks[key].expireAt.value <= ks[x].expireAt.value
  }

  /** Each victim had the earliest deadline among the keys left at its turn. */
  predicate SoonestFirst(ks: Keyspace, evicted: seq<Bytes>) {
    forall i :: 0 <= i < |evicted| ==>
      evicted[i] in ks - KeySet(evicted[..i]) && Soonest(ks - KeySet(evicted[..i]), evicted[i])
  }

  /** The evictions so far: each was needed, and the policy's choice. */
  ghost predicate Chosen(policy: Policy, ks: Keyspace, evicted: seq<Bytes>, limit: int) {
    && NeededEvictions(ks, evicted, limit)
    && (policy.VolatileTtl? ==> SoonestFirst(ks, evicted))
    && (policy.NoEviction? ==> evicted == [])
  }

  lemma KeySetSnoc(s: seq<Bytes>, k: Bytes)
    ensures KeySet(s + [k]) == KeySet(s) + {k}
  {
  }

  lemma NoEvictions(policy: Policy, ks: Keyspace, limit: int)
    ensures Chosen(policy, ks, [], limit)
  {
  }

  /** One more eviction from a keyspace that is over the limit. */
  lemma MoreEvictions(policy: Policy, ks: Keyspace, evicted: seq<Bytes>, key: Bytes, limit: int)
    requires Chosen(policy, ks, evicted, limit) && Usage(ks - KeySet(evicted)) > limit && !policy.NoEviction?
    requires policy.VolatileTtl? ==> key in ks - KeySet(evicted) && Soonest(ks - KeySet(evicted), key)
    ensures Chosen(policy, ks, evicted + [key], limit)
    ensures ks - KeySet(evicted + [key]) == (ks - KeySet(evicted)) - {key}
  {
    hide Usage, Soonest;
    var next := evicted + [key];
    KeySetSnoc(evicted, key);
    assert forall i :: 0 <= i <= |evicted| ==> next[..i] == evicted[..i];
    assert evicted[..|evicted|] == evicted;
  }

  lemma VictimsHaveDeadlines(ks: Keyspace, evicted: seq<Bytes>)
    requires SoonestFirst(ks, evicted)
    ensures forall k :: k in KeySet(evicted) ==> k in ks && ks[k].expireAt.Some?
  {
    forall k | k in KeySet(evicted) ensures k in ks && ks[k].expireAt.Some? {
      var i :| 0 <= i < |evicted| && evicted[i] == k;
      assert Soonest(ks - KeySet(evicted[..i]), evicted[i]);
    }
  }

  /** The limit can be met exactly if what the policy cannot remove is within it. */
  lemma MetIffUnevictableFits(policy: Policy, ks: Keyspace, evicted: seq<Bytes>, limit: int, ok: bool)
    requires limit > 0 && (ok <==> Usage(ks - KeySet(evicted)) <= limit) && Chosen(policy, ks, evicted, limit)
    requires policy.AllKeysLru? ==> ok
    requires policy.VolatileTtl? && !ok ==> TtlFree(ks - KeySet(evicted))
    ensures ok <==> Usage(Unevictable(policy, ks)) <= limit
  {
    hide SoonestFirst, Usage;
    var rest, fixed := ks - KeySet(evicted), Unevictable(policy, ks);
    match policy
    case NoEviction =>
      assert rest == ks;
    case AllKeysLru =>
      NothingCosts();
    case VolatileTtl =>
      VictimsHaveDeadlines(ks, evicted);
      if ok {
        UsageMonotone(fixed, rest);
      } else {
        assert rest == fixed;
      }
  }

  lemma NothingCosts()
    ensures Usage(map[]) == 0
  {
  }

  lemma StillLive(ks: Keyspace, gone: set<Bytes>, original: Keyspace, now: int)
    requires ks == Live(original, now)
    ensures Live(ks - gone, now) == ks - gone
  {
  }

  lemma WithoutHeadOf(keys: set<Bytes>, last: map<Bytes, nat>, clock: nat, recency: seq<Bytes>)
    requires LruOk(keys, last, clock, recency) && recency != []
    ensures Without(recency, recency[0]) == recency[1..]
  {
    WithoutHead(recency, last);
  }

  lemma KeepOwn(keys: set<Bytes>, last: map<Bytes, nat>, clock: nat, recency: seq<Bytes>)
    requires LruOk(keys, last, clock, recency)
    ensures Keep(recency, keys) == recency
  {
    KeepAll(recency, keys);
  }

  lemma LastIsTotal(keys: set<Bytes>, last: map<Bytes, nat>, clock: nat, recency: seq<Bytes>)
    requires LruOk(keys, last, clock, recency)
    ensures last.Keys == keys
  {
  }

  /** When the evicted keys are the front of the live recency list, every one of them was
      touched before every survivor, and together they are exactly the live keys. */
  lemma EvictedAreOldest(keys: set<Bytes>, last: map<Bytes, nat>, clock: nat, recency: seq<Bytes>,
                         live: set<Bytes>, evicted: seq<Bytes>, survivors: seq<Bytes>)
    requires LruOk(keys, last, clock, recency) && live <= keys
    requires evicted + survivors == Keep(recency, live)
    ensures forall e, k :: e in evicted && k in survivors ==> e in last && k in last && last[e] < last[k]
    ensures KeySet(evicted) + KeySet(survivors) == live && KeySet(evicted) !! KeySet(survivors)
  {
    var all := evicted + survivors;
    KeepAscending(recency, live, last);
    KeepIs(recency, live);
    forall e, k | e in evicted && k in survivors ensures e in last && k in last && last[e] < last[k] {
      var i :| 0 <= i < |evicted| && evicted[i] == e;
      var j :| 0 <= j < |survivors| && survivors[j] == k;
      assert all[i] == e && all[|evicted| + j] == k;
    }
    forall k | k in live ensures k in evicted || k in survivors {
      assert k in all;
    }
    forall k | k in evicted || k in survivors ensures k in live {
      assert k in all;
    }
  }
}
