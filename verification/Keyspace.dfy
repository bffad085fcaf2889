/** Keys, entries and expiry (`storage/types.py`, `storage/expiry.py`) as values. */
module Keyspace {
  import opened ByteStrings

  /** A stored value. A hash keeps its fields in insertion order, as a Python dict does. */
  datatype Content =
    | Str(bytes: Bytes)
    | List(items: seq<Bytes>)
    | Hash(pairs: seq<(Bytes, Bytes)>)

  datatype Entry = Entry(content: Content, expireAt: Option<int>)

  type Keyspace = map<Bytes, Entry>

  predicate IsExpired(deadline: Option<int>, now: int) {
    deadline.Some? && now >= deadline.value
  }

  /** ttl_seconds: -1 without deadline, -2 once it has passed, else whole seconds left. */
  function TtlSeconds(deadline: Option<int>, now: int): int {
    if deadline.None? then -1
    else if deadline.value - now <= 0 then -2
    else (deadline.value - now) / 1000
  }

  /** The live view of a keyspace: what remains once expired entries are gone. */
  function Live(ks: Keyspace, now: int): Keyspace {
    map k | k in ks && !IsExpired(ks[k].expireAt, now) :: ks[k]
  }

  predicate TtlFree(ks: Keyspace) {
    forall k :: k in ks ==> ks[k].expireAt.None?
  }

  lemma LiveOfLive(ks: Keyspace, t: int, u: int)
    requires t <= u
    ensures Live(Live(ks, t), u) == Live(ks, u)
  {
  }

  // ---- hash fields ---------------------------------------------------------

  /** Position of a field, or the number of fields when it is absent. */
  function FieldIndex(pairs: seq<(Bytes, Bytes)>, f: Bytes): (r: nat)
    ensures r <= |pairs|
    ensures r < |pairs| ==> pairs[r].0 == f
    ensures forall j :: 0 <= j < r ==> pairs[j].0 != f
  {
    if pairs == [] || pairs[0].0 == f then 0 else 1 + FieldIndex(pairs[1..], f)
  }

  /** `mapping[field] = value`: an existing field keeps its place, a new one goes last. */
  function PutField(pairs: seq<(Bytes, Bytes)>, f: Bytes, v: Bytes): seq<(Bytes, Bytes)> {
    var i := FieldIndex(pairs, f);
    if i < |pairs| then pairs[i := (f, v)] else pairs + [(f, v)]
  }

  function PutFields(pairs: seq<(Bytes, Bytes)>, news: seq<(Bytes, Bytes)>): seq<(Bytes, Bytes)>
    decreases |news|
  {
    if news == [] then pairs else PutFields(PutField(pairs, news[0].0, news[0].1), news[1..])
  }

  predicate DistinctFields(pairs: seq<(Bytes, Bytes)>) {
    forall i, j :: 0 <= i < j < |pairs| ==> pairs[i].0 != pairs[j].0
  }

  lemma PutFieldDistinct(pairs: seq<(Bytes, Bytes)>, f: Bytes, v: Bytes)
    requires DistinctFields(pairs)
    ensures DistinctFields(PutField(pairs, f, v))
    ensures PutField(pairs, f, v) != []
  {
  }

  lemma {:induction false} PutFieldsDistinct(pairs: seq<(Bytes, Bytes)>, news: seq<(Bytes, Bytes)>)
    requires DistinctFields(pairs)
    ensures DistinctFields(PutFields(pairs, news))
    ensures pairs != [] || news != [] ==> PutFields(pairs, news) != []
    decreases |news|
  {
    if news != [] {
      PutFieldDistinct(pairs, news[0].0, news[0].1);
      PutFieldsDistinct(PutField(pairs, news[0].0, news[0].1), news[1..]);
    }
  }

  /** Writing fields that are all new, in order, appends them. */
  lemma {:induction false} PutNewFields(pairs: seq<(Bytes, Bytes)>, news: seq<(Bytes, Bytes)>)
    requires DistinctFields(pairs + news)
    ensures PutFields(pairs, news) == pairs + news
    decreases |news|
  {
    if news == [] {
      assert pairs + news == pairs;
    } else {
      var all := pairs + news;
      assert forall j :: 0 <= j < |pairs| ==> pairs[j].0 == all[j].0 != all[|pairs|].0;
      assert news[0] == (news[0].0, news[0].1);
      assert (pairs + [news[0]]) + news[1..] == all;
      PutNewFields(pairs + [news[0]], news[1..]);
    }
  }

  // ---- well-formed keyspaces -----------------------------------------------

  /** No command leaves an empty list or hash, or a repeated field, behind. */
  predicate WfContent(c: Content) {
    match c
    case Str(_) => true
    case List(items) => items != []
    case Hash(pairs) => pairs != [] && DistinctFields(pairs)
  }

  predicate Wf(ks: Keyspace) {
    forall k :: k in ks ==> WfContent(ks[k].content)
  }

  /** The pairs of a dict in iteration order: every key exactly once. */
  predicate Enumerates(items: seq<(Bytes, Entry)>, ks: Keyspace) {
    && (forall i :: 0 <= i < |items| ==> items[i].0 in ks && ks[items[i].0] == items[i].1)
    && (forall i, j :: 0 <= i < j < |items| ==> items[i].0 != items[j].0)
    && (forall k :: k in ks ==> exists i :: 0 <= i < |items| && items[i].0 == k)
  }
}
