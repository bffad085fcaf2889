/** Executing commands on the store object: dispatch, and the write barrier of
    `server.py` with its before-snapshot, memory limit and rollback. */
module WritePath {
  import opened ByteStrings
  import opened Keyspace
  import opened Commands
  import opened StoreObject
  import opened Eviction
  import Memory
  import Primary
  import TimedLog
  import Restart
  import opened Recency

  /** The recency list after a command that leaves these keys. Every command on one key
      makes it the most recently used, except TTL, which only drops it when expired. */
  function RecencyAfter(c: Command, recency: seq<Bytes>, keys: set<Bytes>): seq<Bytes> {
    match c
    case Invalid(_) => recency
    case DbSize => Keep(recency, keys)
    case Del(_) => Keep(recency, keys)
    case Ttl(key) => if key in keys then recency else Without(recency, key)
    case _ => Moved(recency, c.key, c.key in keys)
  }

  /** The commands after which a key is the most recently used one. */
  predicate UsesKey(c: Command) {
    c.Set? || c.Expire? || c.LPush? || c.RPop? || c.HSet? || c.Get? || c.HGetAll?
  }

  /** GET, TTL and HGETALL; only TTL leaves the access clock alone. */
  method PerformRead(store: Store, c: Command, now: int) returns (r: Reply)
    requires store.Valid() && (c.Get? || c.Ttl? || c.HGetAll?)
    modifies store
    ensures store.Valid() && store.Repr == old(store.Repr) && store.evictedKeys == old(store.evictedKeys)
    ensures Outcome(store.View(), r) == Run(c, now, old(store.View()))
    ensures store.recency == RecencyAfter(c, old(store.recency), store.View().Keys)
    ensures !c.Ttl? && c.key in store.View() ==> store.recency == Without(old(store.recency), c.key) + [c.key]
    ensures c.Ttl? && c.key in store.View() ==> store.recency == old(store.recency)
    ensures c.key !in store.View() ==> store.recency == Without(old(store.recency), c.key)
  {
    hide LruOk, Without, Moved, Store.View, Store.Shape, KeyEntry.Cells, Flatten;
    WithoutMoved(store.recency, c.key);
    store.ViewKeys();
    var found;
    if c.Ttl? {
      found := c.key in store.entries;
      if found {
        store.ViewAt(c.key);
        if IsExpired(store.entries[c.key].expireAt, now) {
          store.Remove(c.key);
          found := false;
        }
      } else {
        store.AbsentNotRecent(c.key);
      }
    } else {
      found := store.Touch(c.key, now);
    }
    store.ViewKeys();
    if !found {
      return if c.Get? then Nil else if c.Ttl? then Count(-2) else Listing([]);
    }
    store.ViewAt(c.key);
    var e := store.entries[c.key];
    if c.Ttl? {
      return Count(TtlSeconds(e.expireAt, now));
    }
    match e.Contents() {
      case Str(b) => return if c.Get? then Data(b) else Err(WrongType);
      case List(_) => return Err(WrongType);
      case Hash(pairs) => return if c.Get? then Err(WrongType) else Listing(Flatten(pairs));
    }
  }

  /** One command on the store object is one step of the value semantics. */
  method Perform(store: Store, c: Command, now: int) returns (r: Reply)
    requires store.Valid() && Sane(c)
    modifies store, store.Repr
    ensures store.Valid() && fresh(store.Repr - old(store.Repr)) && store.evictedKeys == old(store.evictedKeys)
    ensures Outcome(store.View(), r) == Run(c, now, old(store.View()))
    ensures store.recency == RecencyAfter(c, old(store.recency), store.View().Keys)
    ensures UsesKey(c) && c.key in store.View() ==> store.recency == Without(old(store.recency), c.key) + [c.key]
    ensures c.Ttl? && c.key in store.View() ==> store.recency == old(store.recency)
  {
    hide LruOk, Without, Moved, Keep, Store.View, Store.Shape, RunExpire, RunLPush, RunRPop, RunHSet, RunRead,
      KeyEntry.Cells;
    if UsesKey(c) {
      WithoutMoved(store.recency, c.key);
    }
    match c {
      case Set(key, value, ex) =>
        store.SetString(key, value, ex, now);
        r := Okay;
      case Expire(key, seconds) =>
        var n := store.Expire(key, seconds, now);
        r := Count(n);
      case LPush(key, elements) =>
        var n := store.LPush(key, elements, now);
        r := if n.None? then Err(WrongType) else Count(n.value);
      case RPop(key) =>
        r := store.RPop(key, now);
      case HSet(key, fields) =>
        var n := store.HSet(key, fields, now);
        r := if n.None? then Err(WrongType) else Count(n.value);
      case Del(keys) =>
        var n := store.Delete(keys, now);
        r := Count(n);
      case DbSize =>
        store.PurgeExpired(now);
        store.ViewKeys();
        SameSize(store.entries, store.View());
        r := Count(|store.entries|);
      case Invalid(fault) =>
        r := Err(fault);
      case Get(_) => r := PerformRead(store, c, now);
      case Ttl(_) => r := PerformRead(store, c, now);
      case HGetAll(_) => r := PerformRead(store, c, now);
    }
    store.ViewKeys();
  }

  lemma SameSize<A, B, C>(m: map<A, B>, n: map<A, C>)
    requires m.Keys == n.Keys
    ensures |m| == |n|
  {
    assert |m.Keys| == |m| && |n.Keys| == |n|;
  }

  datatype WriteResult = Failed(fault: Fault) | OutOfMemory | Written(reply: Reply, evicted: seq<Bytes>)

  /** The state a write may leave behind: an error leaves what the command itself left, an
      OOM answer exactly the live keyspace from before, success the command's effect
      without the evicted keys. */
  predicate WriteOutcome(ks: Keyspace, argv: Argv, now: int, w: WriteResult, ks': Keyspace) {
    var before := Live(ks, now);
    var o := Apply(argv, now, before);
    match w
    case Failed(fault) => o.reply == Err(fault) && ks' == o.ks
    case OutOfMemory => !o.reply.Err? && ks' == before
    case Written(reply, evicted) => o.reply == reply && !reply.Err? && ks' == o.ks - KeySet(evicted)
  }

  /** What the memory limit does to a write that left `ks`: it is refused exactly if what
      the policy cannot remove is over the limit; otherwise every eviction was needed, they
      suffice, and they follow the policy. */
  ghost predicate Enforced(policy: Policy, limit: int, ks: Keyspace, w: WriteResult) {
    match w
    case Failed(_) => true
    case OutOfMemory => limit > 0 && Memory.Usage(Unevictable(policy, ks)) > limit
    case Written(_, evicted) =>
      && (limit <= 0 ==> evicted == [])
      && (limit > 0 ==>
            && Memory.Usage(Unevictable(policy, ks)) <= limit
            && Memory.Usage(ks - KeySet(evicted)) <= limit
            && Chosen(policy, ks, evicted, limit))
  }

  /** The part of _execute_inner that works on the store. */
  method ExecuteWrite(store: Store, argv: Argv, now: int) returns (w: WriteResult)
    requires store.Valid()
    modifies store, store.Repr
    ensures store.Valid() && fresh(store.Repr - old(store.Repr))
    ensures WriteOutcome(old(store.View()), argv, now, w, store.View())
    ensures Enforced(store.policy, store.maxMemory, Apply(argv, now, Live(old(store.View()), now)).ks, w)
    ensures w.Written? && (store.policy.AllKeysLru? || store.maxMemory <= 0) ==>
              var before := Live(old(store.View()), now);
              w.evicted + store.recency ==
              RecencyAfter(Understand(argv), Keep(old(store.recency), before.Keys), Apply(argv, now, before).ks.Keys)
  {
    hide LruOk, Without, Moved, Keep, Store.View, Store.Shape, KeyEntry.Cells, KeyEntry.View, RecencyAfter,
      Understand, Run, Memory.Usage, Chosen, Live, Unevictable;
    var snap, cells := store.Snapshot(now);
    store.ViewKeys();
    ghost var before := store.View();
    ghost var o := Apply(argv, now, before);
    UnderstandSane(argv);
    TimedLog.LiveOutcome(argv, now, old(store.View()));
    var reply := Perform(store, Understand(argv), now);
    assert Outcome(store.View(), reply) == o;
    if reply.Err? {
      return Failed(reply.fault);
    }
    store.KeepsOwn();
    store.ViewKeys();
    var ok, evicted := store.EnforceMemoryLimit(now);
    if !ok {
      RollBack(store, snap, cells, before);
      return OutOfMemory;
    }
    assert o.ks - KeySet([]) == o.ks;
    return Written(reply, evicted);
  }

  /** A key that was read is the last to go: when a write under allkeys-lru that follows the
      GET evicts it, every other live key but the write's own has been evicted before. */
  method ReadThenWrite(store: Store, key: Bytes, argv: Argv, t: int, u: int) returns (r: Reply, w: WriteResult)
    requires store.Valid() && t <= u && UsesKey(Understand(argv)) && Understand(argv).key != key
    modifies store, store.Repr
    ensures store.Valid()
    ensures var after := Apply(argv, u, Live(old(store.View()), u)).ks;
            w.Written? && store.policy.AllKeysLru? && key in w.evicted ==>
              forall k :: k in after && k != key && k != Understand(argv).key ==> Before(w.evicted, k, key)
  {
    hide LruOk, Without, Moved, Keep, Store.View, Store.Shape, KeyEntry.Cells, KeyEntry.View, RecencyAfter, Understand,
      Run, Live, WriteOutcome, Enforced, Apply;
    ghost var c := Understand(argv);
    ghost var start := store.View();
    r := PerformRead(store, Get(key), t);
    ghost var order, mid := store.recency, store.View();
    assert Live(mid, u) == Live(start, u) by { ReadShows(key, t, u, start); }
    assert LruOk(mid.Keys, store.lastAccess, store.accessClock, order) by { store.ViewKeys(); }
    ghost var last, clock := store.lastAccess, store.accessClock;
    w := ExecuteWrite(store, argv, u);
    if w.Written? && store.policy.AllKeysLru? && key in w.evicted {
      LastReadLastEvicted(mid, order, last, clock, key, c, argv, u, w.evicted, store.recency);
    }
  }

  lemma ReadShows(key: Bytes, t: int, u: int, ks: Keyspace)
    requires t <= u
    ensures Live(Run(Get(key), t, ks).ks, u) == Live(ks, u)
  {
  }

  /** Both are in the list, the first before the second. */
  predicate Before(s: seq<Bytes>, a: Bytes, b: Bytes) {
    exists i, j :: 0 <= i < j < |s| && s[i] == a && s[j] == b
  }

  lemma LastReadLastEvicted(ks: Keyspace, order: seq<Bytes>, last: map<Bytes, nat>, clock: nat, key: Bytes,
                            c: Command, argv: Argv, u: int, evicted: seq<Bytes>, survivors: seq<Bytes>)
    requires LruOk(ks.Keys, last, clock, order) && c == Understand(argv) && UsesKey(c) && c.key != key
    requires key in ks ==> order != [] && order[|order| - 1] == key
    requires var before := Live(ks, u);
             evicted + survivors == RecencyAfter(c, Keep(order, before.Keys), Apply(argv, u, before).ks.Keys)
    requires key in evicted
    ensures forall k :: k in Apply(argv, u, Live(ks, u)).ks && k != key && k != c.key ==> Before(evicted, k, key)
  {
    hide LruOk, Keep, Without, Understand, Run, Live;
    var before := Live(ks, u);
    var after := Apply(argv, u, before).ks;
    var all := evicted + survivors;
    var kept := Keep(order, before.Keys);
    RecentKeys(ks, last, clock, order);
    KeepIs(order, before.Keys);
    WithoutIs(kept, c.key);
    assert key in all;
    assert key in kept;
    var init := order[..|order| - 1];
    assert order == init + [key];
    LastBehindOthers(init, key, before.Keys, c.key);
    var p := Without(Keep(init, before.Keys), c.key);
    KeepIs(init, before.Keys);
    WithoutIs(Keep(init, before.Keys), c.key);
    assert p + [key] <= all;
    var j :| 0 <= j < |evicted| && evicted[j] == key;
    assert all[j] == key;
    assert key !in p by { LastOnce(ks, last, clock, order); }
    assert forall i :: 0 <= i < |p| ==> all[i] == p[i];
    assert j >= |p|;
    forall k | k in after && k != key && k != c.key ensures Before(evicted, k, key) {
      assert k in before by { OthersStay(c, u, before, k); }
      assert k in order && k in init;
      var i :| 0 <= i < |p| && p[i] == k;
      assert evicted[i] == all[i] == k;
    }
  }

  lemma RecentKeys(ks: Keyspace, last: map<Bytes, nat>, clock: nat, order: seq<Bytes>)
    requires LruOk(ks.Keys, last, clock, order)
    ensures forall k :: k in order <==> k in ks
    ensures forall t, k :: k in Live(ks, t) ==> k in order
  {
  }

  lemma LastOnce(ks: Keyspace, last: map<Bytes, nat>, clock: nat, order: seq<Bytes>)
    requires LruOk(ks.Keys, last, clock, order) && order != []
    ensures order[|order| - 1] !in order[..|order| - 1]
  {
    var n := |order| - 1;
    forall i | 0 <= i < n ensures order[..n][i] != order[n] {
      assert last[order[i]] < last[order[n]];
    }
  }

  /** A command on one key leaves the others where they are. */
  lemma OthersStay(c: Command, t: int, ks: Keyspace, k: Bytes)
    requires UsesKey(c) && k != c.key
    ensures k in Run(c, t, ks).ks <==> k in ks
  {
    hide PushLeft, PutFields, AddedFields, Flatten;
  }

  /** load_entries of the before-snapshot. */
  method RollBack(store: Store, snap: map<Bytes, KeyEntry>, ghost cells: set<object>, ghost before: Keyspace)
    requires Separate(snap, cells) && store !in cells && ViewOf(snap) == before
    modifies store
    ensures store.Valid() && fresh(store.Repr) && store.View() == before
  {
    store.LoadEntries(snap);
  }

  /** A snapshot is isolated: whatever writes follow it, it still shows the keyspace it was
      taken from. */
  method SnapshotThenWrites(store: Store, now: int, writes: seq<TimedLog.Timed>)
    returns (snap: map<Bytes, KeyEntry>, results: seq<WriteResult>)
    requires store.Valid()
    modifies store, store.Repr
    ensures store.Valid() && fresh(store.Repr - old(store.Repr))
    ensures ViewOf(snap) == Live(old(store.View()), now)
    ensures forall k :: k in snap ==> fresh(snap[k].Cells()) && snap[k].Cells() !! store.Repr
    ensures WritesOutcome(Live(old(store.View()), now), writes, results, store.View())
  {
    hide LruOk, Store.View, Store.Shape, KeyEntry.Cells, KeyEntry.View, WriteOutcome, Live, WritesOutcome, Enforced;
    ghost var cells;
    snap, cells := store.Snapshot(now);
    ghost var start := store.View();
    results := [];
    NoWrites(start);
    for i := 0 to |writes|
      invariant store.Valid() && fresh(store.Repr - old(store.Repr)) && cells !! store.Repr && store !in cells
      invariant Separate(snap, cells) && ViewOf(snap) == start
      invariant WritesOutcome(start, writes[..i], results, store.View())
    {
      ghost var ks := store.View();
      var w := ExecuteWrite(store, writes[i].argv, writes[i].at);
      MoreWrites(start, writes[..i], results, ks, writes[i], w, store.View());
      assert writes[..i + 1] == writes[..i] + [writes[i]];
      results := results + [w];
    }
    assert writes[..|writes|] == writes;
  }

  /** The outcomes of several writes, one after the other. */
  ghost predicate WritesOutcome(ks: Keyspace, writes: seq<TimedLog.Timed>, results: seq<WriteResult>, ks': Keyspace)
    decreases |writes|
  {
    && |results| == |writes|
    && if writes == [] then ks' == ks
       else
         var n := |writes| - 1;
         exists mid :: WritesOutcome(ks, writes[..n], results[..n], mid) &&
                       WriteOutcome(mid, writes[n].argv, writes[n].at, results[n], ks')
  }

  lemma NoWrites(ks: Keyspace)
    ensures WritesOutcome(ks, [], [], ks)
  {
  }

  lemma MoreWrites(ks: Keyspace, writes: seq<TimedLog.Timed>, results: seq<WriteResult>, mid: Keyspace,
                   c: TimedLog.Timed, w: WriteResult, ks': Keyspace)
    requires WritesOutcome(ks, writes, results, mid) && WriteOutcome(mid, c.argv, c.at, w, ks')
    ensures WritesOutcome(ks, writes + [c], results + [w], ks')
  {
    hide WriteOutcome;
    assert (writes + [c])[..|writes|] == writes && (results + [w])[..|writes|] == results;
  }

  /** What the method does is what the write step of the interleaved machine does. */
  lemma WriteIsMutate(s: Primary.State, w: WriteResult, ks': Keyspace)
    requires s.phase.Ready? && (s.cfg.aofEnabled ==> s.healthy)
    requires WriteOutcome(s.store, s.phase.argv, s.clock, w, ks')
    ensures var evicted := if w.Written? then w.evicted else [];
            var s' := Primary.DoMutate(s, w.OutOfMemory?, evicted);
            s'.store == ks' && (s'.phase.Append? <==> w.Written?)
  {
    hide Apply, Live;
  }

  /** Under noeviction the method's outcome is one that obeys the limit of the machine. */
  lemma NoEvictionObeys(s: Primary.State, w: WriteResult, ks': Keyspace, limit: int)
    requires s.phase.Ready? && WriteOutcome(s.store, s.phase.argv, s.clock, w, ks')
    requires Enforced(NoEviction, limit, Apply(s.phase.argv, s.clock, Live(s.store, s.clock)).ks, w)
    ensures Restart.Obeys(s, Primary.Mutate(w.OutOfMemory?, if w.Written? then w.evicted else []), limit)
  {
    hide Apply, Live, Memory.Usage, NeededEvictions;
  }

  /** Under noeviction, or without a limit, the method's outcome is one step of loading. */
  lemma WriteIsLoadStep(ks: Keyspace, c: TimedLog.Timed, w: WriteResult, ks': Keyspace, limit: int)
    requires WriteOutcome(ks, c.argv, c.at, w, ks')
    requires Enforced(NoEviction, limit, Apply(c.argv, c.at, Live(ks, c.at)).ks, w)
    ensures ks' == Restart.LoadStep(ks, c, limit)
  {
    hide Apply, Live, Memory.Usage, NeededEvictions;
    var o := Apply(c.argv, c.at, Live(ks, c.at));
    assert o.ks - KeySet([]) == o.ks;
  }
}
