/** The access clock of the store as a recency list, oldest key first. */
module Recency {
  import opened ByteStrings

  /** The list without one key. */
  function Without(s: seq<Bytes>, k: Bytes): seq<Bytes> {
    if s == [] then []
    else if s[0] == k then Without(s[1..], k)
    else [s[0]] + Without(s[1..], k)
  }

  /** Where one key ends up after a command on it: last, or nowhere. */
  function Moved(s: seq<Bytes>, k: Bytes, present: bool): seq<Bytes> {
    Without(s, k) + (if present then [k] else [])
  }

  /** The list restricted to some keys. */
  function Keep(s: seq<Bytes>, keys: set<Bytes>): seq<Bytes> {
    if s == [] then []
    else if s[0] in keys then [s[0]] + Keep(s[1..], keys)
    else Keep(s[1..], keys)
  }

  predicate Ascending(s: seq<Bytes>, last: map<Bytes, nat>) {
    && (forall i :: 0 <= i < |s| ==> s[i] in last)
    && (forall i, j :: 0 <= i < j < |s| ==> last[s[i]] < last[s[j]])
  }

  /** `last` has exactly the stored keys, its values are pairwise distinct and at most the
      clock, and sorting the keys by it gives `recency`. */
  ghost predicate LruOk(keys: set<Bytes>, last: map<Bytes, nat>, clock: nat, recency: seq<Bytes>) {
    && last.Keys == keys
    && (forall k :: k in last ==> last[k] <= clock)
    && (forall k :: k in keys <==> k in recency)
    && Ascending(recency, last)
  }

  lemma {:induction false} WithoutIs(s: seq<Bytes>, k: Bytes)
    ensures forall x :: x in Without(s, k) <==> x in s && x != k
    ensures |Without(s, k)| <= |s|
  {
    if s != [] {
      WithoutIs(s[1..], k);
      assert s == [s[0]] + s[1..];
    }
  }

  lemma {:induction false} WithoutAscending(s: seq<Bytes>, k: Bytes, last: map<Bytes, nat>)
    requires Ascending(s, last)
    ensures Ascending(Without(s, k), last)
  {
    hide Ascending;
    if s == [] {
      assert Without(s, k) == s;
    } else {
      var t := s[1..];
      AscendingTail(s, last);
      WithoutAscending(t, k, last);
      WithoutIs(t, k);
      AscendingCons(s[0], Without(t, k), last);
    }
  }

  lemma AscendingTail(s: seq<Bytes>, last: map<Bytes, nat>)
    requires s != [] && Ascending(s, last)
    ensures Ascending(s[1..], last) && s[0] in last
    ensures forall x :: x in s[1..] ==> x in last && last[s[0]] < last[x]
  {
    assert forall i :: 0 <= i < |s[1..]| ==> s[1..][i] == s[i + 1];
  }

  lemma AscendingCons(k: Bytes, s: seq<Bytes>, last: map<Bytes, nat>)
    requires Ascending(s, last) && k in last && forall x :: x in s ==> x in last && last[k] < last[x]
    ensures Ascending([k] + s, last)
  {
    assert forall i :: 0 <= i < |s| ==> s[i] in s;
  }

  lemma AscendingAgrees(s: seq<Bytes>, last: map<Bytes, nat>, last': map<Bytes, nat>)
    requires Ascending(s, last)
    requires forall i :: 0 <= i < |s| ==> s[i] in last' && last'[s[i]] == last[s[i]]
    ensures Ascending(s, last')
  {
  }

  /** _touch_access: the key becomes the most recent one. */
  lemma TouchLru(keys: set<Bytes>, last: map<Bytes, nat>, clock: nat, recency: seq<Bytes>, k: Bytes)
    requires LruOk(keys, last, clock, recency)
    ensures LruOk(keys + {k}, last[k := clock + 1], clock + 1, Without(recency, k) + [k])
  {
    hide Without;
    var r := Without(recency, k);
    var last' := last[k := clock + 1];
    WithoutIs(recency, k);
    WithoutAscending(recency, k, last);
    forall i | 0 <= i < |r| ensures r[i] in last && r[i] != k {
      assert r[i] in r;
    }
    AscendingAgrees(r, last, last');
    AscendingSnoc(r, last', k, clock);
  }

  lemma AscendingSnoc(s: seq<Bytes>, last: map<Bytes, nat>, k: Bytes, clock: nat)
    requires Ascending(s, last) && k in last && last[k] > clock
    requires forall i :: 0 <= i < |s| ==> last[s[i]] <= clock
    ensures Ascending(s + [k], last)
  {
  }

  lemma RemoveLru(keys: set<Bytes>, last: map<Bytes, nat>, clock: nat, recency: seq<Bytes>, k: Bytes)
    requires LruOk(keys, last, clock, recency)
    ensures LruOk(keys - {k}, last - {k}, clock, Without(recency, k))
  {
    hide Without;
    var r := Without(recency, k);
    WithoutIs(recency, k);
    WithoutAscending(recency, k, last);
    assert forall i :: 0 <= i < |r| ==> r[i] in r;
    AscendingAgrees(r, last, last - {k});
  }

  /** The key with the least access value is the head of the list. */
  lemma OldestIsHead(keys: set<Bytes>, last: map<Bytes, nat>, clock: nat, recency: seq<Bytes>, k: Bytes)
    requires LruOk(keys, last, clock, recency)
    requires k in keys && forall x :: x in keys ==> last[k] <= last[x]
    ensures recency != [] && recency[0] == k
  {
    var i :| 0 <= i < |recency| && recency[i] == k;
    assert recency[0] in recency;
  }

  lemma NotRecent(keys: set<Bytes>, last: map<Bytes, nat>, clock: nat, recency: seq<Bytes>, k: Bytes)
    requires LruOk(keys, last, clock, recency) && k !in keys
    ensures k !in recency
  {
  }

  lemma {:induction false} WithoutAbsent(s: seq<Bytes>, k: Bytes)
    requires k !in s
    ensures Without(s, k) == s
  {
    if s != [] {
      WithoutAbsent(s[1..], k);
    }
  }

  /** Of several moves of one key only the last counts. */
  lemma WithoutMoved(s: seq<Bytes>, k: Bytes)
    ensures Without(Without(s, k), k) == Without(Without(s, k) + [k], k) == Without(s, k)
    ensures Moved(s, k, true) == Without(s, k) + [k] && Moved(s, k, false) == Without(s, k)
  {
    hide Without;
    WithoutIs(s, k);
    WithoutAbsent(Without(s, k), k);
    WithoutSnoc(Without(s, k), k);
  }

  lemma {:induction false} WithoutSnoc(s: seq<Bytes>, k: Bytes)
    ensures Without(s + [k], k) == Without(s, k)
  {
    if s == [] {
      assert Without([k], k) == Without([k][1..], k) == [];
    } else {
      assert (s + [k])[1..] == s[1..] + [k];
      WithoutSnoc(s[1..], k);
    }
  }

  lemma {:induction false} WithoutAppend(a: seq<Bytes>, b: seq<Bytes>, k: Bytes)
    ensures Without(a + b, k) == Without(a, k) + Without(b, k)
  {
    if a == [] {
      assert a + b == b;
    } else {
      assert (a + b)[1..] == a[1..] + b;
      WithoutAppend(a[1..], b, k);
    }
  }

  lemma {:induction false} KeepAppend(a: seq<Bytes>, b: seq<Bytes>, keys: set<Bytes>)
    ensures Keep(a + b, keys) == Keep(a, keys) + Keep(b, keys)
  {
    if a == [] {
      assert a + b == b;
    } else {
      assert (a + b)[1..] == a[1..] + b;
      KeepAppend(a[1..], b, keys);
    }
  }

  /** The list of live keys when the last one is live and another one is then moved: the last
      one comes right after all others but that. */
  lemma LastBehindOthers(init: seq<Bytes>, key: Bytes, keys: set<Bytes>, other: Bytes)
    requires key in keys && other != key
    ensures Without(Keep(init + [key], keys), other) == Without(Keep(init, keys), other) + [key]
  {
    KeepAppend(init, [key], keys);
    assert [key][1..] == [];
    assert Keep([key], keys) == [key];
    WithoutAppend(Keep(init, keys), [key], other);
    assert Without([key], other) == [key];
  }

  /** Removing the head of a duplicate-free list leaves its tail. */
  lemma WithoutHead(s: seq<Bytes>, last: map<Bytes, nat>)
    requires s != [] && Ascending(s, last)
    ensures Without(s, s[0]) == s[1..]
  {
    forall x | x in s[1..] ensures x != s[0] {
      var i :| 0 <= i < |s[1..]| && s[1..][i] == x;
      assert last[s[0]] < last[s[i + 1]];
    }
    WithoutAbsent(s[1..], s[0]);
  }

  lemma {:induction false} KeepAll(s: seq<Bytes>, keys: set<Bytes>)
    requires forall k :: k in s ==> k in keys
    ensures Keep(s, keys) == s
  {
    if s != [] {
      KeepAll(s[1..], keys);
    }
  }

  /** Removing keys one by one ends with the list restricted to the others. */
  lemma {:induction false} KeepWithout(s: seq<Bytes>, k: Bytes, keys: set<Bytes>)
    ensures Keep(Without(s, k), keys) == Keep(s, keys - {k})
  {
    if s != [] {
      KeepWithout(s[1..], k, keys);
    }
  }

  lemma {:induction false} KeepIs(s: seq<Bytes>, keys: set<Bytes>)
    ensures forall x :: x in Keep(s, keys) <==> x in s && x in keys
  {
    if s != [] {
      KeepIs(s[1..], keys);
      assert s == [s[0]] + s[1..];
    }
  }

  lemma {:induction false} KeepAscending(s: seq<Bytes>, keys: set<Bytes>, last: map<Bytes, nat>)
    requires Ascending(s, last)
    ensures Ascending(Keep(s, keys), last)
  {
    hide Ascending;
    if s == [] {
      assert Keep(s, keys) == s;
    } else {
      var t := s[1..];
      AscendingTail(s, last);
      KeepAscending(t, keys, last);
      KeepIs(t, keys);
      AscendingCons(s[0], Keep(t, keys), last);
    }
  }
}
