/** The in-memory store (`storage/store.py`) as an object: entries and their containers are
    heap objects mutated in place, beside the access clock used for LRU eviction. Every
    method is proved against the value semantics of module Commands. */
module StoreObject {
  import opened ByteStrings
  import opened Keyspace
  import opened Commands
  import opened Recency
  import opened LazyExpiry
  import opened Memory
  import opened Eviction

  /** collections.deque */
  class Deque {
    var items: seq<Bytes>

    constructor (items: seq<Bytes>)
      ensures this.items == items
    {
      this.items := items;
    }

    method AppendLeft(x: Bytes)
      modifies this
      ensures items == [x] + old(items)
    {
      items := [x] + items;
    }

    method Pop() returns (x: Bytes)
      requires items != []
      modifies this
      ensures items == old(items)[..|old(items)| - 1] && x == old(items)[|old(items)| - 1]
    {
      x := items[|items| - 1];
      items := items[..|items| - 1];
    }
  }

  /** A dict of fields. */
  class FieldDict {
    var pairs: seq<(Bytes, Bytes)>

    constructor (pairs: seq<(Bytes, Bytes)>)
      ensures this.pairs == pairs
    {
      this.pairs := pairs;
    }

    method Put(f: Bytes, v: Bytes)
      modifies this
      ensures pairs == PutField(old(pairs), f, v)
    {
      pairs := PutField(pairs, f, v);
    }
  }

  datatype Slot = StrSlot(bytes: Bytes) | ListSlot(deque: Deque) | HashSlot(dict: FieldDict)

  class KeyEntry {
    const slot: Slot
    var expireAt: Option<int>

    constructor (slot: Slot, expireAt: Option<int>)
      ensures this.slot == slot && this.expireAt == expireAt
    {
      this.slot := slot;
      this.expireAt := expireAt;
    }

    /** The entry and its container. */
    ghost function Cells(): set<object> {
      match slot
      case StrSlot(_) => {this}
      case ListSlot(d) => {this, d}
      case HashSlot(d) => {this, d}
    }

    function Contents(): Content
      reads Cells()
    {
      match slot
      case StrSlot(b) => Str(b)
      case ListSlot(d) => List(d.items)
      case HashSlot(d) => Hash(d.pairs)
    }

    function View(): Entry
      reads Cells()
    {
      Entry(Contents(), expireAt)
    }

    /** A copy that shares no mutable container with the original. */
    method Copy() returns (c: KeyEntry)
      ensures fresh(c.Cells()) && c.View() == View()
    {
      match slot
      case StrSlot(b) => c := new KeyEntry(StrSlot(b), expireAt);
      case ListSlot(d) =>
        var d' := new Deque(d.items);
        c := new KeyEntry(ListSlot(d'), expireAt);
      case HashSlot(d) =>
        var d' := new FieldDict(d.pairs);
        c := new KeyEntry(HashSlot(d'), expireAt);
    }
  }

  /** No two entries share an object, and all of them lie in `repr`. */
  ghost predicate Separate(entries: map<Bytes, KeyEntry>, repr: set<object>) {
    && (forall k :: k in entries ==> entries[k].Cells() <= repr)
    && (forall j, k :: j in entries && k in entries && j != k ==> entries[j].Cells() !! entries[k].Cells())
  }

  lemma SeparatePut(entries: map<Bytes, KeyEntry>, repr: set<object>, key: Bytes, e: KeyEntry)
    requires Separate(entries, repr) && e.Cells() !! repr
    ensures Separate(entries[key := e], repr + e.Cells())
  {
    hide KeyEntry.Cells;
  }

  /** The keyspace a map of entry objects stands for. */
  ghost function ViewOf(entries: map<Bytes, KeyEntry>): Keyspace
    reads set k, o | k in entries && o in entries[k].Cells() :: o
  {
    map k | k in entries :: entries[k].View()
  }

  class Store {
    var entries: map<Bytes, KeyEntry>
    var lastAccess: map<Bytes, nat>
    var accessClock: nat
    var evictedKeys: nat
    const maxMemory: int
    const policy: Policy
    ghost var recency: seq<Bytes>
    ghost var Repr: set<object>

    ghost predicate Shape()
      reads this`entries, this`Repr
    {
      this !in Repr && Separate(entries, Repr)
    }

    ghost predicate Valid()
      reads this`entries, this`Repr, this`lastAccess, this`accessClock, this`recency
    {
      Shape() && LruOk(entries.Keys, lastAccess, accessClock, recency)
    }

    ghost function View(): Keyspace
      requires Shape()
      reads this`entries, this`Repr, Repr
    {
      map k | k in entries :: entries[k].View()
    }

    lemma ViewKeys()
      requires Shape()
      ensures View().Keys == entries.Keys
    {
    }

    lemma ViewAt(k: Bytes)
      requires Shape() && k in entries
      ensures k in View() && View()[k] == entries[k].View()
    {
    }

    lemma AbsentNotRecent(k: Bytes)
      requires Valid() && k !in entries
      ensures Without(recency, k) == recency
    {
      WithoutAbsent(recency, k);
    }

    lemma KeepsOwn()
      requires Valid()
      ensures Keep(recency, entries.Keys) == recency
    {
      KeepOwn(entries.Keys, lastAccess, accessClock, recency);
    }

    constructor (maxMemory: int, policy: Policy)
      ensures Valid() && fresh(Repr) && View() == map[] && evictedKeys == 0
      ensures this.maxMemory == maxMemory && this.policy == policy
    {
      this.maxMemory, this.policy := maxMemory, policy;
      entries, lastAccess, accessClock, evictedKeys := map[], map[], 0, 0;
      recency, Repr := [], {};
    }

    // ---- single keys -------------------------------------------------------

    /** Changing one entry in place changes the view under its key only. */
    twostate lemma ViewAfter(key: Bytes)
      requires old(Shape()) && unchanged(this) && key in entries
      requires forall o :: o in Repr && o !in entries[key].Cells() ==> unchanged(o)
      ensures View() == old(View())[key := entries[key].View()]
    {
      forall k | k in entries && k != key ensures entries[k].View() == old(entries[k].View()) {
        assert entries[k].Cells() !! entries[key].Cells();
        assert forall o :: o in entries[k].Cells() ==> unchanged(o);
      }
    }

    /** _touch_access: the key becomes the most recently used of `keys` and itself. */
    method TouchAccess(key: Bytes, ghost keys: set<Bytes>)
      requires LruOk(keys, lastAccess, accessClock, recency)
      modifies this`lastAccess, this`accessClock, this`recency
      ensures LruOk(keys + {key}, lastAccess, accessClock, recency)
      ensures recency == Without(old(recency), key) + [key]
    {
      hide LruOk, Without;
      TouchLru(keys, lastAccess, accessClock, recency, key);
      accessClock := accessClock + 1;
      lastAccess := lastAccess[key := accessClock];
      recency := Without(recency, key) + [key];
    }

    /** set_entry: store under a key and mark it most recently used. */
    method SetEntry(key: Bytes, e: KeyEntry)
      requires Valid() && e.Cells() !! Repr && this !in e.Cells()
      modifies this
      ensures Valid() && Repr == old(Repr) + e.Cells()
      ensures entries == old(entries)[key := e] && evictedKeys == old(evictedKeys)
      ensures View() == old(View())[key := e.View()]
      ensures recency == Without(old(recency), key) + [key]
    {
      hide LruOk, Without, KeyEntry.View, KeyEntry.Contents, KeyEntry.Cells;
      ghost var keys := entries.Keys;
      SeparatePut(entries, Repr, key, e);
      entries := entries[key := e];
      Repr := Repr + e.Cells();
      assert entries.Keys == keys + {key};
      TouchAccess(key, keys);
    }

    /** `del self._entries[key]` together with its access record. */
    method Remove(key: Bytes)
      requires Valid()
      modifies this
      ensures Valid() && Repr == old(Repr)
      ensures entries == old(entries) - {key} && evictedKeys == old(evictedKeys)
      ensures View() == old(View()) - {key}
      ensures recency == Without(old(recency), key)
    {
      hide LruOk, Without, KeyEntry.View, KeyEntry.Contents, KeyEntry.Cells;
      RemoveLru(entries.Keys, lastAccess, accessClock, recency, key);
      assert (entries - {key}).Keys == entries.Keys - {key};
      entries := entries - {key};
      lastAccess := lastAccess - {key};
      recency := Without(recency, key);
    }

    /** _touch: an expired entry is deleted, a live one becomes most recently used. */
    method Touch(key: Bytes, now: int) returns (found: bool)
      requires Valid()
      modifies this
      ensures Valid() && Repr == old(Repr) && evictedKeys == old(evictedKeys)
      ensures View() == Touched(old(View()), key, now)
      ensures found <==> key in entries
      ensures found ==> entries == old(entries) && recency == Without(old(recency), key) + [key]
      ensures !found ==> entries == old(entries) - {key} && recency == Without(old(recency), key)
    {
      hide LruOk, Without;
      if key !in entries {
        NotRecent(entries.Keys, lastAccess, accessClock, recency, key);
        WithoutAbsent(recency, key);
        assert old(entries) - {key} == entries;
        return false;
      }
      assert entries[key].View() == View()[key];
      if IsExpired(entries[key].expireAt, now) {
        Remove(key);
        return false;
      }
      assert entries.Keys + {key} == entries.Keys;
      TouchAccess(key, entries.Keys);
      return true;
    }

    // ---- commands ----------------------------------------------------------

    method SetString(key: Bytes, value: Bytes, ex: Option<int>, now: int)
      requires Valid()
      modifies this
      ensures Valid() && fresh(Repr - old(Repr)) && evictedKeys == old(evictedKeys)
      ensures ex.Some? && ex.value <= 0 ==> View() == old(View()) - {key} && recency == Without(old(recency), key)
      ensures !(ex.Some? && ex.value <= 0) ==>
                View() == Run(Set(key, value, ex), now, old(View())).ks &&
                recency == Without(old(recency), key) + [key]
    {
      hide LruOk, Without;
      if ex.Some? && ex.value <= 0 {
        Remove(key);
        return;
      }
      var e := new KeyEntry(StrSlot(value), if ex.None? then None else Some(now + ex.value * 1000));
      SetEntry(key, e);
    }

    method Expire(key: Bytes, seconds: int, now: int) returns (n: int)
      requires Valid()
      modifies this, Repr
      ensures Valid() && Repr == old(Repr) && evictedKeys == old(evictedKeys)
      ensures Outcome(View(), Count(n)) == Run(Commands.Expire(key, seconds), now, old(View()))
      ensures recency == Moved(old(recency), key, key in entries)
    {
      hide LruOk, Without, Moved;
      WithoutMoved(recency, key);
      var found := Touch(key, now);
      if !found {
        return 0;
      }
      if seconds <= 0 {
        Remove(key);
        return 1;
      }
      assert entries[key].View() == View()[key];
      label before:
      entries[key].expireAt := Some(now + seconds * 1000);
      ViewAfter@before(key);
      return 1;
    }

    /** The list under a key, created empty when the key is absent; None when the key
        holds something else. */
    method OpenList(key: Bytes, now: int) returns (dq: Option<Deque>)
      requires Valid()
      modifies this
      ensures Valid() && fresh(Repr - old(Repr)) && evictedKeys == old(evictedKeys)
      ensures var ks := Touched(old(View()), key, now);
              && (dq.None? <==> key in ks && !ks[key].content.List?)
              && View() == if key in ks then ks else ks[key := Entry(List([]), None)]
      ensures dq.Some? ==> key in entries && entries[key].slot == ListSlot(dq.value)
      ensures key in entries && recency == Moved(old(recency), key, true)
    {
      hide LruOk, Without, Moved;
      WithoutMoved(recency, key);
      var found := Touch(key, now);
      if !found {
        var d := new Deque([]);
        var e := new KeyEntry(ListSlot(d), None);
        SetEntry(key, e);
        return Some(d);
      }
      assert View()[key] == entries[key].View();
      return if entries[key].slot.ListSlot? then Some(entries[key].slot.deque) else None;
    }

    /** LPUSH: elements go to the left of the list in place; None stands for WRONGTYPE. */
    method LPush(key: Bytes, elements: seq<Bytes>, now: int) returns (n: Option<int>)
      requires Valid()
      modifies this, Repr
      ensures Valid() && fresh(Repr - old(Repr)) && evictedKeys == old(evictedKeys)
      ensures View() == Run(Commands.LPush(key, elements), now, old(View())).ks
      ensures key in entries && recency == Moved(old(recency), key, true)
      ensures Run(Commands.LPush(key, elements), now, old(View())).reply ==
              if n.None? then Err(WrongType) else Count(n.value)
    {
      hide LruOk, Without, Moved, PushLeft, Run, Touched;
      LPushOpened(key, elements, now, View());
      var dq := OpenList(key, now);
      if dq.None? {
        return None;
      }
      assert View()[key] == entries[key].View();
      label before:
      PushAll(dq.value, elements);
      ViewAfter@before(key);
      return Some(|dq.value.items|);
    }

    /** RPOP: removes the last element in place, and the key with its last element. */
    method RPop(key: Bytes, now: int) returns (r: Reply)
      requires Valid()
      modifies this, Repr
      ensures Valid() && Repr == old(Repr) && evictedKeys == old(evictedKeys)
      ensures Outcome(View(), r) == Run(Commands.RPop(key), now, old(View()))
      ensures recency == Moved(old(recency), key, key in entries)
    {
      hide LruOk, Without, Moved, Run, Touched, View;
      WithoutMoved(recency, key);
      RPopOpened(key, now, View());
      var found := Touch(key, now);
      ViewKeys();
      if !found {
        return Nil;
      }
      ViewAt(key);
      if !entries[key].slot.ListSlot? {
        return Err(WrongType);
      }
      var dq := entries[key].slot.deque;
      ghost var ks := View();
      if dq.items == [] {
        Remove(key);
        return Nil;
      }
      label before:
      var x := dq.Pop();
      ViewAfter@before(key);
      assert View() - {key} == ks - {key};
      if dq.items == [] {
        Remove(key);
      }
      return Data(x);
    }

    /** The hash under a key, created empty when the key is absent; None when the key
        holds something else. */
    method OpenHash(key: Bytes, now: int) returns (dict: Option<FieldDict>)
      requires Valid()
      modifies this
      ensures Valid() && fresh(Repr - old(Repr)) && evictedKeys == old(evictedKeys)
      ensures var ks := Touched(old(View()), key, now);
              && (dict.None? <==> key in ks && !ks[key].content.Hash?)
              && View() == if key in ks then ks else ks[key := Entry(Hash([]), None)]
      ensures dict.Some? ==> key in entries && entries[key].slot == HashSlot(dict.value)
      ensures key in entries && recency == Moved(old(recency), key, true)
    {
      hide LruOk, Without, Moved;
      WithoutMoved(recency, key);
      var found := Touch(key, now);
      if !found {
        var d := new FieldDict([]);
        var e := new KeyEntry(HashSlot(d), None);
        SetEntry(key, e);
        return Some(d);
      }
      assert View()[key] == entries[key].View();
      return if entries[key].slot.HashSlot? then Some(entries[key].slot.dict) else None;
    }

    /** HSET: fields are written in place; None stands for WRONGTYPE. */
    method HSet(key: Bytes, fields: seq<(Bytes, Bytes)>, now: int) returns (n: Option<int>)
      requires Valid()
      modifies this, Repr
      ensures Valid() && fresh(Repr - old(Repr)) && evictedKeys == old(evictedKeys)
      ensures View() == Run(Commands.HSet(key, fields), now, old(View())).ks
      ensures key in entries && recency == Moved(old(recency), key, true)
      ensures Run(Commands.HSet(key, fields), now, old(View())).reply ==
              if n.None? then Err(WrongType) else Count(n.value)
    {
      hide LruOk, Without, Moved, PutFields, AddedFields, Run, Touched;
      HSetOpened(key, fields, now, View());
      var dict := OpenHash(key, now);
      if dict.None? {
        return None;
      }
      assert View()[key] == entries[key].View();
      label before:
      var added := PutAll(dict.value, fields);
      ViewAfter@before(key);
      return Some(added);
    }

    method Delete(keys: seq<Bytes>, now: int) returns (removed: nat)
      requires Valid()
      modifies this
      ensures Valid() && Repr == old(Repr) && evictedKeys == old(evictedKeys)
      ensures (View(), removed) == Commands.Delete(old(View()), keys, now)
      ensures recency == Keep(old(recency), entries.Keys)
    {
      hide LruOk, Without, Keep, View, Shape, KeyEntry.Cells, KeyEntry.Contents;
      removed := 0;
      ghost var start := View();
      ghost var kept := entries.Keys - KeySet(keys);
      for i := 0 to |keys|
        invariant entries.Keys == old(entries).Keys - KeySet(keys[..i])
        invariant Keep(recency, kept) == Keep(old(recency), kept)
        invariant Valid() && Repr == old(Repr) && evictedKeys == old(evictedKeys)
        invariant Commands.Delete(start, keys, now) ==
                  (var d := Commands.Delete(View(), keys[i..], now); (d.0, removed + d.1))
      {
        assert keys[i..][0] == keys[i] && keys[i..][1..] == keys[i + 1..];
        assert keys[..i + 1] == keys[..i] + [keys[i]];
        KeySetSnoc(keys[..i], keys[i]);
        KeepWithout(recency, keys[i], kept);
        assert kept - {keys[i]} == kept;
        ViewKeys();
        if keys[i] !in entries {
          assert View() - {keys[i]} == View();
        } else {
          ViewAt(keys[i]);
          if !IsExpired(entries[keys[i]].expireAt, now) {
            removed := removed + 1;
          }
          Remove(keys[i]);
        }
      }
      assert keys[..|keys|] == keys;
      KeepOwn(entries.Keys, lastAccess, accessClock, recency);
    }

    // ---- expiry ------------------------------------------------------------

    /** Deletes one key if it is there and expired. */
    method RemoveIfExpired(key: Bytes, now: int) returns (gone: bool)
      requires Valid()
      modifies this
      ensures Valid() && Repr == old(Repr) && evictedKeys == old(evictedKeys)
      ensures gone <==> key in old(View()) && IsExpired(old(View())[key].expireAt, now)
      ensures entries == if gone then old(entries) - {key} else old(entries)
      ensures View() == if gone then old(View()) - {key} else old(View())
      ensures recency == if gone then Without(old(recency), key) else old(recency)
      ensures |entries| + (if gone then 1 else 0) == |old(entries)|
    {
      hide LruOk, Without, View, Shape, KeyEntry.Cells, KeyEntry.Contents;
      ViewKeys();
      if key !in entries {
        return false;
      }
      ViewAt(key);
      gone := IsExpired(entries[key].expireAt, now);
      if gone {
        OneFewer(entries, key);
        Remove(key);
      }
    }

    /** active_expire_cycle over any sample: exactly the expired sampled keys go. */
    method Sweep(sample: set<Bytes>, now: int) returns (deleted: nat)
      requires Valid()
      modifies this
      ensures Valid() && Repr == old(Repr) && evictedKeys == old(evictedKeys)
      ensures View() == SweepStep(old(View()), sample, now)
      ensures forall k :: k in old(View()) ==>
                (k in View() <==> k !in sample || !IsExpired(old(View())[k].expireAt, now))
      ensures entries == map k | k in View() :: old(entries)[k]
      ensures recency == Keep(old(recency), entries.Keys)
      ensures |entries| + deleted == |old(entries)|
    {
      hide LruOk, Without, Keep, View, Shape, KeyEntry.Cells, KeyEntry.Contents, SweepStep, IsExpired;
      deleted := 0;
      var todo := sample;
      ghost var done: set<Bytes> := {};
      ghost var start, order := View(), recency;
      ghost var kept := SweepStep(start, sample, now).Keys;
      SweepNone(start, now);
      while todo != {}
        invariant Valid() && Repr == old(Repr) && evictedKeys == old(evictedKeys)
        invariant todo + done == sample && todo !! done
        invariant View() == SweepStep(start, done, now)
        invariant entries.Keys <= old(entries).Keys && forall k :: k in entries ==> entries[k] == old(entries)[k]
        invariant Keep(recency, kept) == Keep(order, kept)
        invariant |entries| + deleted == |old(entries)|
        decreases todo
      {
        var k :| k in todo;
        todo, done := todo - {k}, done + {k};
        assert (done - {k}) + {k} == done;
        KeepWithout(recency, k, kept);
        SweepOne(start, sample, done - {k}, k, now);
        var gone := RemoveIfExpired(k, now);
        assert gone ==> kept - {k} == kept;
        if gone {
          deleted := deleted + 1;
        }
      }
      ViewKeys();
      assert done == sample && entries.Keys == kept;
      SweptAre(start, sample, now);
      RecentAreKeys(entries.Keys, lastAccess, accessClock, recency);
      KeepAll(recency, kept);
    }

    /** _purge_expired_all_lazy_touch */
    method PurgeExpired(now: int)
      requires Valid()
      modifies this
      ensures Valid() && Repr == old(Repr) && evictedKeys == old(evictedKeys)
      ensures View() == Live(old(View()), now)
      ensures entries == map k | k in View() :: old(entries)[k]
      ensures recency == Keep(old(recency), entries.Keys)
    {
      hide LruOk, Without, Keep;
      ghost var start := View();
      var _ := Sweep(entries.Keys, now);
      ViewKeys();
      assert SweepStep(start, start.Keys, now) == Live(start, now);
    }

    // ---- snapshots ---------------------------------------------------------

    /** Deep copies of the live entries: no object of the copy is reachable from the store. */
    method Snapshot(now: int) returns (snap: map<Bytes, KeyEntry>, ghost cells: set<object>)
      requires Valid()
      modifies this
      ensures Valid() && Repr == old(Repr) && evictedKeys == old(evictedKeys)
      ensures View() == Live(old(View()), now)
      ensures fresh(cells) && Separate(snap, cells)
      ensures ViewOf(snap) == View()
      ensures recency == Keep(old(recency), entries.Keys)
    {
      hide LruOk, Without, Keep, KeyEntry.View, KeyEntry.Cells, KeyEntry.Contents;
      PurgeExpired(now);
      var _, copy, cs := CopyEntries(entries);
      snap, cells := copy, cs;
      assert ViewOf(snap) == View();
    }

    /** load_entries: replaces everything by copies; the access clock restarts in the
        order of iteration. */
    method LoadEntries(source: map<Bytes, KeyEntry>)
      requires forall k :: k in source ==> this !in source[k].Cells()
      modifies this
      ensures Valid() && fresh(Repr) && evictedKeys == old(evictedKeys)
      ensures View() == old(ViewOf(source))
    {
      hide LruOk, Without, Keep, KeyEntry.View, KeyEntry.Cells, KeyEntry.Contents, Position;
      var order, copy, cells := CopyEntries(source);
      assert ViewOf(copy) == old(ViewOf(source));
      Install(order, copy, cells);
    }

    /** Takes over a map of entries, most recently visited last. */
    method Install(order: seq<Bytes>, copy: map<Bytes, KeyEntry>, ghost cells: set<object>)
      requires Separate(copy, cells) && this !in cells
      requires Distinct(order) && forall k :: k in copy <==> k in order
      modifies this
      ensures Valid() && Repr == cells && evictedKeys == old(evictedKeys)
      ensures View() == old(ViewOf(copy))
    {
      hide LruOk, KeyEntry.View, KeyEntry.Cells, KeyEntry.Contents, Position;
      var last := map k | k in copy :: Position(order, k);
      LoadedLru(order, copy.Keys, last);
      entries, Repr := copy, cells;
      lastAccess, accessClock, recency := last, |order|, order;
    }

    // ---- memory limit ------------------------------------------------------

    method MemoryUsage(now: int) returns (total: nat)
      requires Valid()
      modifies this
      ensures Valid() && Repr == old(Repr) && evictedKeys == old(evictedKeys)
      ensures View() == Live(old(View()), now)
      ensures recency == Keep(old(recency), entries.Keys)
      ensures total == Usage(View())
    {
      hide LruOk, Without, Keep, KeyEntry.Cells, KeyEntry.Contents, KeyEntry.View, Usage;
      PurgeExpired(now);
      total := SumCosts();
    }

    method SumCosts() returns (total: nat)
      requires Valid()
      ensures total == Usage(View())
    {
      hide LruOk, KeyEntry.Cells, KeyEntry.Contents, EntryCost;
      total := 0;
      var todo := entries.Keys;
      ghost var rest := View();
      while todo != {}
        invariant rest.Keys == todo <= entries.Keys && forall k :: k in rest ==> rest[k] == View()[k]
        invariant total + Usage(rest) == Usage(View())
        decreases todo
      {
        var k :| k in todo;
        UsageWithout(rest, k);
        total := total + EntryCost(k, entries[k].View());
        todo := todo - {k};
        rest := rest - {k};
      }
    }

    /** min over all keys by access value: the least recently used key. */
    method PickOldest() returns (key: Bytes)
      requires Valid() && entries != map[]
      ensures key in entries && recency != [] && recency[0] == key
    {
      hide LruOk, KeyEntry.Cells;
      LastIsTotal(entries.Keys, lastAccess, accessClock, recency);
      key :| key in entries;
      var todo := entries.Keys - {key};
      while todo != {}
        invariant key in entries && todo <= entries.Keys
        invariant forall x :: x in entries && x !in todo ==> lastAccess[key] <= lastAccess[x]
        decreases todo
      {
        var k :| k in todo;
        todo := todo - {k};
        if lastAccess[k] < lastAccess[key] { key := k; }
      }
      OldestIsHead(entries.Keys, lastAccess, accessClock, recency, key);
    }

    /** min over the keys with a deadline, by deadline; None when there is none. */
    method PickSoonest() returns (key: Option<Bytes>)
      requires Valid()
      ensures key.None? ==> TtlFree(View())
      ensures key.Some? ==> key.value in View() && Soonest(View(), key.value)
    {
      hide LruOk, KeyEntry.Cells, KeyEntry.Contents;
      key := None;
      var todo := entries.Keys;
      while todo != {}
        invariant todo <= entries.Keys
        invariant key.None? ==> forall x :: x in entries && x !in todo ==> View()[x].expireAt.None?
        invariant key.Some? ==> key.value in entries && View()[key.value].expireAt.Some?
        invariant key.Some? ==>
                    forall x :: x in entries && x !in todo && View()[x].expireAt.Some? ==>
                      View()[key.value].expireAt.value <= View()[x].expireAt.value
        decreases todo
      {
        var k :| k in todo;
        todo := todo - {k};
        assert View()[k] == entries[k].View();
        if entries[k].expireAt.Some? {
          if key.None? || entries[k].expireAt.value < entries[key.value].expireAt.value {
            key := Some(k);
          }
        }
      }
    }

    method Evict(key: Bytes)
      requires Valid()
      modifies this
      ensures Valid() && Repr == old(Repr) && evictedKeys == old(evictedKeys) + 1
      ensures entries == old(entries) - {key} && View() == old(View()) - {key}
      ensures recency == Without(old(recency), key)
    {
      hide LruOk, Without, KeyEntry.View, KeyEntry.Contents, KeyEntry.Cells;
      Remove(key);
      evictedKeys := evictedKeys + 1;
    }

    /** Removes the policy's victim; None when there is no candidate. */
    method EvictOne() returns (key: Option<Bytes>)
      requires Valid() && entries != map[]
      modifies this
      ensures Valid() && Repr == old(Repr)
      ensures key.None? ==> entries == old(entries) && View() == old(View()) && evictedKeys == old(evictedKeys)
      ensures key.Some? ==> key.value in old(View()) && View() == old(View()) - {key.value} &&
                            entries == old(entries) - {key.value} && evictedKeys == old(evictedKeys) + 1
      ensures policy.NoEviction? ==> key.None?
      ensures policy.VolatileTtl? ==>
                if key.None? then TtlFree(View()) else key.value in old(View()) && Soonest(old(View()), key.value)
      ensures policy.AllKeysLru? ==> key.Some? && old(recency) == [key.value] + recency
    {
      hide LruOk, Without, View, Shape, Soonest;
      ViewKeys();
      match policy {
        case NoEviction =>
          return None;
        case VolatileTtl =>
          key := PickSoonest();
        case AllKeysLru =>
          var k := PickOldest();
          WithoutHeadOf(entries.Keys, lastAccess, accessClock, recency);
          key := Some(k);
      }
      if key.Some? {
        ViewAt(key.value);
        Evict(key.value);
      }
    }

    /** One round of the eviction loop, from a store over the limit: a victim and the usage
        without it, or no candidate. */
    method EvictRound(now: int, ghost start: Keyspace, ghost evicted: seq<Bytes>)
      returns (victim: Option<Bytes>, usage: nat)
      requires Valid() && View() == start - KeySet(evicted) && Live(start, now) == start
      requires Chosen(policy, start, evicted, maxMemory) && Usage(View()) > maxMemory > 0
      modifies this
      ensures Valid() && Repr == old(Repr)
      ensures victim.None? ==> View() == old(View()) && evictedKeys == old(evictedKeys)
      ensures victim.None? ==> !policy.AllKeysLru? && (policy.VolatileTtl? ==> TtlFree(View()))
      ensures victim.Some? ==> entries.Keys < old(entries.Keys) && evictedKeys == old(evictedKeys) + 1
      ensures victim.Some? ==> View() == start - KeySet(evicted + [victim.value]) && usage == Usage(View())
      ensures victim.Some? ==> Chosen(policy, start, evicted + [victim.value], maxMemory)
      ensures victim.Some? && policy.AllKeysLru? ==> old(recency) == [victim.value] + recency
    {
      hide LruOk, Without, Keep, View, Shape, Usage, Soonest, Chosen, Live;
      UsagePositive(View());
      ViewKeys();
      victim := EvictOne();
      usage := 0;
      if victim.Some? {
        MoreEvictions(policy, start, evicted, victim.value, maxMemory);
        StillLive(start, KeySet(evicted + [victim.value]), start, now);
        KeepsOwn();
        ViewKeys();
        usage := MemoryUsage(now);
        ViewKeys();
      }
    }

    /** enforce_memory_limit; `ok` is false when MemoryLimitError is raised. */
    method EnforceMemoryLimit(now: int) returns (ok: bool, evicted: seq<Bytes>)
      requires Valid()
      modifies this
      ensures Valid() && Repr == old(Repr) && evictedKeys == old(evictedKeys) + |evicted|
      ensures maxMemory <= 0 ==> ok && evicted == [] && View() == old(View()) && recency == old(recency)
      ensures maxMemory > 0 ==> View() == Live(old(View()), now) - KeySet(evicted)
      ensures maxMemory > 0 ==> (ok <==> Usage(View()) <= maxMemory)
      ensures maxMemory > 0 ==> (ok <==> Usage(Unevictable(policy, Live(old(View()), now))) <= maxMemory)
      ensures maxMemory > 0 ==> Chosen(policy, Live(old(View()), now), evicted, maxMemory)
      ensures policy.AllKeysLru? && maxMemory > 0 ==>
                ok && evicted + recency == Keep(old(recency), Live(old(View()), now).Keys)
      ensures policy.VolatileTtl? && maxMemory > 0 && !ok ==> TtlFree(View())
    {
      hide LruOk, Without, Keep, View, Shape, Usage, Chosen, Unevictable, Live;
      evicted := [];
      if maxMemory <= 0 {
        return true, [];
      }
      var usage := MemoryUsage(now);
      ghost var start, order := View(), recency;
      LiveOfLive(old(View()), now, now);
      ViewKeys();
      assert start - KeySet([]) == start;
      NoEvictions(policy, start, maxMemory);
      while usage > maxMemory
        invariant Valid() && Repr == old(Repr) && evictedKeys == old(evictedKeys) + |evicted|
        invariant View() == start - KeySet(evicted) && usage == Usage(View())
        invariant Chosen(policy, start, evicted, maxMemory)
        invariant policy.AllKeysLru? ==> evicted + recency == order
        decreases entries.Keys
      {
        var victim, left := EvictRound(now, start, evicted);
        if victim.None? {
          MetIffUnevictableFits(policy, start, evicted, maxMemory, false);
          return false, evicted;
        }
        evicted, usage := evicted + [victim.value], left;
      }
      MetIffUnevictableFits(policy, start, evicted, maxMemory, true);
      return true, evicted;
    }
  }

  lemma SweptAre(ks: Keyspace, sample: set<Bytes>, now: int)
    ensures forall k :: k in ks ==>
              (k in SweepStep(ks, sample, now) <==> k !in sample || !IsExpired(ks[k].expireAt, now))
  {
  }

  lemma SweepNone(ks: Keyspace, now: int)
    ensures SweepStep(ks, {}, now) == ks
  {
  }

  /** Sweeping one more sampled key. */
  lemma SweepOne(ks: Keyspace, sample: set<Bytes>, done: set<Bytes>, k: Bytes, now: int)
    requires k in sample && k !in done
    ensures var swept := SweepStep(ks, done, now);
            var gone := k in swept && IsExpired(swept[k].expireAt, now);
            && SweepStep(ks, done + {k}, now) == (if gone then swept - {k} else swept)
            && (gone ==> k !in SweepStep(ks, sample, now))
  {
  }

  lemma OneFewer<T>(m: map<Bytes, T>, k: Bytes)
    requires k in m
    ensures |m - {k}| == |m| - 1
  {
    assert (m - {k}).Keys == m.Keys - {k};
    assert |(m - {k}).Keys| == |m - {k}| && |m.Keys| == |m|;
  }

  lemma RecentAreKeys(keys: set<Bytes>, last: map<Bytes, nat>, clock: nat, recency: seq<Bytes>)
    requires LruOk(keys, last, clock, recency)
    ensures forall k :: k in recency ==> k in keys
  {
  }

  /** Index of a key in the order of iteration. */
  function Position(order: seq<Bytes>, k: Bytes): nat {
    if order == [] || order[0] == k then 0 else 1 + Position(order[1..], k)
  }

  predicate Distinct(s: seq<Bytes>) {
    forall i, j :: 0 <= i < j < |s| ==> s[i] != s[j]
  }

  lemma DistinctSnoc(s: seq<Bytes>, k: Bytes)
    requires Distinct(s) && k !in s
    ensures Distinct(s + [k])
  {
  }

  lemma {:induction false} PositionOf(order: seq<Bytes>, i: nat)
    requires Distinct(order) && i < |order|
    ensures Position(order, order[i]) == i
  {
    if i > 0 {
      assert order[1..][i - 1] == order[i];
      PositionOf(order[1..], i - 1);
    }
  }

  lemma LoadedLru(order: seq<Bytes>, keys: set<Bytes>, last: map<Bytes, nat>)
    requires Distinct(order) && (forall k :: k in keys <==> k in order)
    requires last.Keys == keys && forall k :: k in keys ==> last[k] == Position(order, k)
    ensures LruOk(keys, last, |order|, order)
  {
    hide Position, Distinct, Ascending;
    forall i | 0 <= i < |order| ensures order[i] in last && last[order[i]] == i {
      PositionOf(order, i);
      assert order[i] in order;
    }
    forall k | k in last ensures last[k] <= |order| {
      var i :| 0 <= i < |order| && order[i] == k;
    }
    AscendingByIndex(order, last);
  }

  lemma AscendingByIndex(order: seq<Bytes>, last: map<Bytes, nat>)
    requires forall i :: 0 <= i < |order| ==> order[i] in last && last[order[i]] == i
    ensures Ascending(order, last)
  {
  }

  /** A copy of every entry, and the keys in the order they were visited. */
  method CopyEntries(source: map<Bytes, KeyEntry>)
    returns (order: seq<Bytes>, copy: map<Bytes, KeyEntry>, ghost cells: set<object>)
    ensures fresh(cells) && Separate(copy, cells) && copy.Keys == source.Keys
    ensures forall k :: k in source ==> copy[k].View() == old(source[k].View()) == source[k].View()
    ensures Distinct(order) && forall k :: k in source <==> k in order
  {
    order, copy, cells := [], map[], {};
    var todo := source.Keys;
    while todo != {}
      invariant todo <= source.Keys && copy.Keys == source.Keys - todo
      invariant fresh(cells) && Separate(copy, cells)
      invariant forall k :: k in source ==> source[k].View() == old(source[k].View())
      invariant forall k :: k in copy ==> copy[k].View() == old(source[k].View())
      invariant Distinct(order) && forall k :: k in copy <==> k in order
      decreases todo
    {
      var k :| k in todo;
      todo := todo - {k};
      var e := source[k].Copy();
      SeparatePut(copy, cells, k, e);
      DistinctSnoc(order, k);
      copy := copy[k := e];
      cells := cells + e.Cells();
      order := order + [k];
    }
  }

  /** LPUSH as two stages: open the list, then push. */
  lemma LPushOpened(key: Bytes, elements: seq<Bytes>, now: int, ks: Keyspace)
    ensures var t := Touched(ks, key, now);
            var ks' := if key in t then t else t[key := Entry(List([]), None)];
            var o := Run(LPush(key, elements), now, ks);
            if !ks'[key].content.List? then o == Outcome(ks', Err(WrongType))
            else
              var items := PushLeft(ks'[key].content.items, elements);
              o == Outcome(ks'[key := Entry(List(items), ks'[key].expireAt)], Count(|items|))
  {
    hide PushLeft;
  }

  /** RPOP as two stages: touch the key, then pop. */
  lemma RPopOpened(key: Bytes, now: int, ks: Keyspace)
    ensures var t := Touched(ks, key, now);
            var o := Run(RPop(key), now, ks);
            if key !in t then o == Outcome(t, Nil)
            else if !t[key].content.List? then o == Outcome(t, Err(WrongType))
            else
              var items := t[key].content.items;
              if items == [] then o == Outcome(t - {key}, Nil)
              else
                var n := |items| - 1;
                && o.reply == Data(items[n])
                && o.ks == if n == 0 then t - {key} else t[key := Entry(List(items[..n]), t[key].expireAt)]
  {
  }

  /** HSET as two stages: open the hash, then write the fields. */
  lemma HSetOpened(key: Bytes, fields: seq<(Bytes, Bytes)>, now: int, ks: Keyspace)
    ensures var t := Touched(ks, key, now);
            var ks' := if key in t then t else t[key := Entry(Hash([]), None)];
            var o := Run(HSet(key, fields), now, ks);
            if !ks'[key].content.Hash? then o == Outcome(ks', Err(WrongType))
            else
              var pairs := ks'[key].content.pairs;
              o == Outcome(ks'[key := Entry(Hash(PutFields(pairs, fields)), ks'[key].expireAt)],
                           Count(AddedFields(pairs, fields)))
  {
    hide PutFields, AddedFields;
  }

  /** The appendleft loop of LPUSH. */
  method PushAll(dq: Deque, elements: seq<Bytes>)
    modifies dq
    ensures dq.items == PushLeft(old(dq.items), elements)
  {
    ghost var start := dq.items;
    for i := 0 to |elements|
      invariant dq.items == PushLeft(start, elements[..i])
    {
      dq.AppendLeft(elements[i]);
      assert elements[..i + 1] == elements[..i] + [elements[i]];
      PushLeftSnoc(start, elements[..i], elements[i]);
    }
    assert elements[..|elements|] == elements;
  }

  lemma {:induction false} PushLeftSnoc(items: seq<Bytes>, elements: seq<Bytes>, x: Bytes)
    ensures PushLeft(items, elements + [x]) == [x] + PushLeft(items, elements)
    decreases |elements|
  {
    if elements == [] {
      assert (elements + [x])[1..] == [];
    } else {
      assert (elements + [x])[1..] == elements[1..] + [x];
      PushLeftSnoc([elements[0]] + items, elements[1..], x);
    }
  }

  /** The field loop of HSET. */
  method PutAll(dict: FieldDict, fields: seq<(Bytes, Bytes)>) returns (added: nat)
    modifies dict
    ensures dict.pairs == PutFields(old(dict.pairs), fields)
    ensures added == AddedFields(old(dict.pairs), fields)
  {
    hide PutField, FieldIndex;
    added := 0;
    ghost var start := dict.pairs;
    for i := 0 to |fields|
      invariant PutFields(start, fields) == PutFields(dict.pairs, fields[i..])
      invariant AddedFields(start, fields) == added + AddedFields(dict.pairs, fields[i..])
    {
      assert fields[i..][0] == fields[i] && fields[i..][1..] == fields[i + 1..];
      if FieldIndex(dict.pairs, fields[i].0) == |dict.pairs| {
        added := added + 1;
      }
      dict.Put(fields[i].0, fields[i].1);
    }
  }
}
