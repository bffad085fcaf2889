/** BGREWRITEAOF: compiling a keyspace to a command program (`_build_rewrite_payload`), and
    what replaying that program rebuilds. */
module AofRewrite {
  import opened ByteStrings
  import opened Keyspace
  import opened Commands
  import opened TimedLog
  import Resp
  import CommandLog
  import Snapshot

  type Item = Snapshot.Item

  function Reverse(s: seq<Bytes>): (r: seq<Bytes>)
    ensures |r| == |s| && forall i :: 0 <= i < |s| ==> r[i] == s[|s| - 1 - i]
  {
    seq(|s|, i requires 0 <= i < |s| => s[|s| - 1 - i])
  }

  predicate IsEmpty(c: Content) {
    (c.List? && c.items == []) || (c.Hash? && c.pairs == [])
  }

  function ContentCommands(key: Bytes, c: Content): seq<Argv> {
    if IsEmpty(c) then []
    else
      match c
      case Str(b) => [[SET, key, b]]
      case List(items) => [[LPUSH, key] + Reverse(items)]
      case Hash(pairs) => [[HSET, key] + Flatten(pairs)]
  }

  /** Whole seconds written for a deadline `ms` milliseconds away: rounded up, at least 1. */
  function Seconds(ms: int): int {
    var s := (ms + 999) / 1000;
    if s < 1 then 1 else s
  }

  function TtlCommands(key: Bytes, deadline: Option<int>, now: int): seq<Argv> {
    if deadline.Some? && deadline.value - now > 0 then [[EXPIRE, key, Decimal(Seconds(deadline.value - now))]]
    else []
  }

  function ItemCommands(x: Item, now: int): seq<Argv> {
    ContentCommands(x.0, x.1.content) + TtlCommands(x.0, x.1.expireAt, now)
  }

  /** The rewrite program for a dict iterating in this order, built at time `now`. */
  function Program(items: seq<Item>, now: int): seq<Argv> {
    if items == [] then [] else ItemCommands(items[0], now) + Program(items[1..], now)
  }

  lemma {:induction false} ProgramSnoc(items: seq<Item>, x: Item, now: int)
    ensures Program(items + [x], now) == Program(items, now) + ItemCommands(x, now)
    decreases |items|
  {
    hide ItemCommands;
    if items == [] {
      assert (items + [x])[1..] == [];
    } else {
      assert (items + [x])[1..] == items[1..] + [x];
      ProgramSnoc(items[1..], x, now);
    }
  }

  /** The commands of one entry, encoded. */
  method EncodeItem(x: Item, now: int) returns (payload: Bytes)
    ensures payload == CommandLog.EncodeLog(ItemCommands(x, now))
  {
    hide Resp.EncodeCommand, Decimal, Seconds, CommandLog.EncodeLog;
    var key, entry := x.0, x.1;
    ghost var cmds := ContentCommands(key, entry.content);
    ghost var ttl := TtlCommands(key, entry.expireAt, now);
    CommandLog.EncodeLogAppend(cmds, ttl);
    CommandLog.EncodeLogEmpty();
    payload := [];
    match entry.content {
      case Str(b) =>
        CommandLog.EncodeLogOne([SET, key, b]);
        payload := Resp.EncodeCommand([SET, key, b]);
      case List(els) =>
        CommandLog.EncodeLogOne([LPUSH, key] + Reverse(els));
        if els != [] { payload := Resp.EncodeCommand([LPUSH, key] + Reverse(els)); }
      case Hash(pairs) =>
        CommandLog.EncodeLogOne([HSET, key] + Flatten(pairs));
        if pairs != [] { payload := Resp.EncodeCommand([HSET, key] + Flatten(pairs)); }
    }
    assert payload == CommandLog.EncodeLog(cmds);
    if entry.expireAt.Some? && entry.expireAt.value - now > 0 {
      ghost var argv := [EXPIRE, key, Decimal(Seconds(entry.expireAt.value - now))];
      CommandLog.EncodeLogOne(argv);
      payload := payload + Resp.EncodeCommand([EXPIRE, key, Decimal(Seconds(entry.expireAt.value - now))]);
    }
  }

  /** _build_rewrite_payload */
  method BuildRewritePayload(items: seq<Item>, now: int) returns (payload: Bytes)
    ensures payload == CommandLog.EncodeLog(Program(items, now))
  {
    hide ItemCommands, CommandLog.EncodeLog;
    payload := [];
    CommandLog.EncodeLogEmpty();
    for i := 0 to |items|
      invariant payload == CommandLog.EncodeLog(Program(items[..i], now))
    {
      var next := EncodeItem(items[i], now);
      assert items[..i + 1] == items[..i] + [items[i]];
      ProgramSnoc(items[..i], items[i], now);
      CommandLog.EncodeLogAppend(Program(items[..i], now), ItemCommands(items[i], now));
      payload := payload + next;
    }
    assert items[..|items|] == items;
  }

  // ---- how the generated commands are understood ---------------------------

  lemma UpperNames()
    ensures Upper(SET) == SET && Upper(LPUSH) == LPUSH && Upper(HSET) == HSET && Upper(EXPIRE) == EXPIRE
    ensures Upper(DEL) == DEL
  {
  }

  lemma UnderstandSet(key: Bytes, b: Bytes)
    ensures Understand([SET, key, b]) == Set(key, b, None)
  {
    hide PyInt, Upper;
    UpperNames();
    assert [SET, key, b][3..] == [];
  }

  lemma UnderstandLPush(key: Bytes, els: seq<Bytes>)
    requires els != []
    ensures Understand([LPUSH, key] + els) == LPush(key, els)
  {
    hide PyInt, Upper, Pairs, SetOptions;
    UpperNames();
    var argv := [LPUSH, key] + els;
    assert argv[2..] == els && argv[0] == LPUSH && argv[1] == key;
  }

  lemma UnderstandHSet(key: Bytes, pairs: seq<(Bytes, Bytes)>)
    requires pairs != []
    ensures Understand([HSET, key] + Flatten(pairs)) == HSet(key, pairs)
  {
    hide PyInt, Upper, Pairs, Flatten, SetOptions;
    UpperNames();
    var argv := [HSET, key] + Flatten(pairs);
    assert argv[2..] == Flatten(pairs) && argv[0] == HSET && argv[1] == key;
    PairsOfFlatten(pairs);
  }

  lemma UnderstandExpire(key: Bytes, secs: int)
    ensures Understand([EXPIRE, key, Decimal(secs)]) == Expire(key, secs)
  {
    hide PyInt, Upper, Decimal;
    UpperNames();
    PyIntOfDecimal(secs);
  }

  /** Pushing a reversed list rebuilds it in front of what was there. */
  lemma {:induction false} PushReversed(items: seq<Bytes>, base: seq<Bytes>)
    ensures PushLeft(base, Reverse(items)) == items + base
    decreases |items|
  {
    if items == [] {
      assert items + base == base;
    } else {
      var n := |items| - 1;
      var rev := Reverse(items);
      assert rev[0] == items[n] && rev[1..] == Reverse(items[..n]);
      PushReversed(items[..n], [items[n]] + base);
      assert items[..n] + ([items[n]] + base) == items + base;
    }
  }

  // ---- replaying the program -----------------------------------------------

  predicate DistinctContent(c: Content) { c.Hash? ==> DistinctFields(c.pairs) }

  /** The entry rebuilt for `e` when its commands run between `now` and `now + delay`. */
  predicate Rebuilt(e: Entry, r: Entry, now: int, delay: int) {
    && r.content == e.content
    && (r.expireAt.Some? <==> e.expireAt.Some? && !IsExpired(e.expireAt, now))
    && (r.expireAt.Some? ==> e.expireAt.value <= r.expireAt.value < e.expireAt.value + 1000 + delay)
    && (r.expireAt.Some? ==> 0 <= r.expireAt.value - (now + Seconds(e.expireAt.value - now) * 1000) <= delay)
  }

  predicate Within(log: seq<Timed>, now: int, delay: int) {
    forall i :: 0 <= i < |log| ==> now <= log[i].at <= now + delay
  }

  lemma ApplyContent(ks: Keyspace, key: Bytes, c: Content, at: int)
    requires key !in ks && !IsEmpty(c) && DistinctContent(c)
    ensures Apply(ContentCommands(key, c)[0], at, ks).ks == ks[key := Entry(c, None)]
  {
    hide Understand, PushLeft, PutFields, AddedFields;
    match c
    case Str(b) => UnderstandSet(key, b);
    case List(items) =>
      UnderstandLPush(key, Reverse(items));
      PushReversed(items, []);
      assert items + [] == items;
    case Hash(pairs) =>
      UnderstandHSet(key, pairs);
      assert [] + pairs == pairs;
      PutNewFields([], pairs);
  }

  lemma ApplyTtl(ks: Keyspace, key: Bytes, deadline: int, now: int, at: int)
    requires key in ks ==> ks[key].expireAt.None?
    requires deadline > now
    ensures Apply(TtlCommands(key, Some(deadline), now)[0], at, ks).ks ==
            if key in ks then ks[key := ks[key].(expireAt := Some(at + Seconds(deadline - now) * 1000))] else ks
  {
    hide Understand;
    UnderstandExpire(key, Seconds(deadline - now));
  }

  lemma ReplayOne(ks: Keyspace, log: seq<Timed>, argv: Argv)
    requires Argvs(log) == [argv]
    ensures Replay(ks, log) == Apply(argv, log[0].at, ks).ks
  {
    hide Apply;
    assert |log| == 1 && log[0].argv == argv;
    assert log[1..] == [];
    assert Replay(Apply(argv, log[0].at, ks).ks, log[1..]) == Apply(argv, log[0].at, ks).ks;
  }

  /** What rounding up to whole seconds, and the time until the command runs, do to a deadline. */
  lemma SecondsRound(deadline: int, now: int, at: int, delay: int)
    requires deadline > now && now <= at <= now + delay
    ensures var d := at + Seconds(deadline - now) * 1000;
            && deadline <= d < deadline + 1000 + delay
            && 0 <= d - (now + Seconds(deadline - now) * 1000) <= delay
  {
  }

  /** The one or two commands of an item put exactly its rebuilt entry under its key. */
  lemma ReplayItem(ks: Keyspace, x: Item, log: seq<Timed>, now: int, delay: int) returns (r: Entry)
    requires x.0 !in ks && DistinctContent(x.1.content)
    requires Argvs(log) == ItemCommands(x, now) && Within(log, now, delay)
    ensures Rebuilt(x.1, r, now, delay)
    ensures Replay(ks, log) == if IsEmpty(x.1.content) then ks else ks[x.0 := r]
  {
    hide Apply, Replay, Seconds, Decimal;
    var cc, tc := ContentCommands(x.0, x.1.content), TtlCommands(x.0, x.1.expireAt, now);
    var a, b := log[..|cc|], log[|cc|..];
    assert log == a + b;
    assert Argvs(a) == Argvs(log)[..|cc|] == cc;
    assert Argvs(b) == Argvs(log)[|cc|..] == tc;
    ReplayAppend(ks, a, b);
    var ks1 := if IsEmpty(x.1.content) then ks else ks[x.0 := Entry(x.1.content, None)];
    assert Replay(ks, a) == ks1 by {
      if IsEmpty(x.1.content) {
        assert a == [];
        ReplayEmpty(ks);
      } else {
        assert cc == [cc[0]];
        ReplayOne(ks, a, cc[0]);
        ApplyContent(ks, x.0, x.1.content, a[0].at);
      }
    }
    if tc == [] {
      assert b == [];
      ReplayEmpty(ks1);
      r := Entry(x.1.content, None);
    } else {
      assert tc == [tc[0]];
      ReplayOne(ks1, b, tc[0]);
      ApplyTtl(ks1, x.0, x.1.expireAt.value, now, b[0].at);
      r := Entry(x.1.content, Some(b[0].at + Seconds(x.1.expireAt.value - now) * 1000));
      assert b[0] == log[|cc|];
      SecondsRound(x.1.expireAt.value, now, b[0].at, delay);
    }
  }

  lemma ReplayEmpty(ks: Keyspace)
    ensures Replay(ks, []) == ks
  {
  }

  predicate DistinctItems(items: seq<Item>) {
    && (forall i, j :: 0 <= i < j < |items| ==> items[i].0 != items[j].0)
    && (forall i :: 0 <= i < |items| ==> DistinctContent(items[i].1.content))
  }

  lemma {:induction false} ReplayProgram(ks: Keyspace, items: seq<Item>, log: seq<Timed>, now: int, delay: int)
    requires DistinctItems(items) && forall i :: 0 <= i < |items| ==> items[i].0 !in ks
    requires Argvs(log) == Program(items, now) && Within(log, now, delay)
    ensures forall k :: k in ks ==> k in Replay(ks, log) && Replay(ks, log)[k] == ks[k]
    ensures forall k :: k in Replay(ks, log) && k !in ks ==>
              exists i :: 0 <= i < |items| && items[i].0 == k && !IsEmpty(items[i].1.content)
    ensures forall i :: 0 <= i < |items| && !IsEmpty(items[i].1.content) ==>
              items[i].0 in Replay(ks, log) && Rebuilt(items[i].1, Replay(ks, log)[items[i].0], now, delay)
    decreases |items|
  {
    hide Replay, ItemCommands, Rebuilt, DistinctContent, IsEmpty;
    if items == [] {
      assert log == [];
      ReplayEmpty(ks);
    } else {
      var x, tail := items[0], items[1..];
      var n := |ItemCommands(x, now)|;
      var a, b := log[..n], log[n..];
      assert log == a + b;
      assert Argvs(a) == Argvs(log)[..n] == ItemCommands(x, now);
      assert Argvs(b) == Argvs(log)[n..] == Program(tail, now);
      ReplayAppend(ks, a, b);
      var r := ReplayItem(ks, x, a, now, delay);
      var ks' := Replay(ks, a);
      assert forall i :: 0 <= i < |tail| ==> tail[i] == items[i + 1];
      ReplayProgram(ks', tail, b, now, delay);
      var out := Replay(ks, log);
      forall i | 0 <= i < |items| && !IsEmpty(items[i].1.content)
        ensures items[i].0 in out && Rebuilt(items[i].1, out[items[i].0], now, delay)
      {
        if i > 0 { assert items[i] == tail[i - 1]; }
      }
      forall k | k in out && k !in ks
        ensures exists i :: 0 <= i < |items| && items[i].0 == k && !IsEmpty(items[i].1.content)
      {
        if k in ks' {
          assert items[0].0 == k;
        } else {
          var i :| 0 <= i < |tail| && tail[i].0 == k && !IsEmpty(tail[i].1.content);
          assert items[i + 1].0 == k;
        }
      }
    }
  }

  /** The rewrite preserves meaning: replayed from an empty store, the program rebuilds
      every string, list and hash; a live deadline never moves earlier, and moves later by
      less than one second plus the time from build to replay. */
  lemma RewritePreserves(ks: Keyspace, items: seq<Item>, log: seq<Timed>, now: int, delay: int)
    requires Enumerates(items, ks) && forall k :: k in ks ==> DistinctContent(ks[k].content)
    requires Argvs(log) == Program(items, now) && Within(log, now, delay)
    ensures Replay(map[], log).Keys == set k | k in ks && !IsEmpty(ks[k].content)
    ensures forall k :: k in Replay(map[], log) ==> Rebuilt(ks[k], Replay(map[], log)[k], now, delay)
  {
    hide Replay, Program, Rebuilt, DistinctContent, IsEmpty;
    ReplayProgram(map[], items, log, now, delay);
    var out := Replay(map[], log);
    forall k | k in ks && !IsEmpty(ks[k].content) ensures k in out && Rebuilt(ks[k], out[k], now, delay) {
      var i :| 0 <= i < |items| && items[i].0 == k;
      assert items[i].1 == ks[k];
    }
    forall k | k in out ensures k in ks && !IsEmpty(ks[k].content) && Rebuilt(ks[k], out[k], now, delay) {
      var i :| 0 <= i < |items| && items[i].0 == k && !IsEmpty(items[i].1.content);
      assert items[i].1 == ks[k];
    }
  }

  /** Same keys, same contents, and a deadline exactly where there was one. */
  predicate SameShape(a: Keyspace, b: Keyspace) {
    && a.Keys == b.Keys
    && forall k :: k in a ==> a[k].content == b[k].content && (a[k].expireAt.Some? <==> b[k].expireAt.Some?)
  }

  /** Exactly when the rewrite is faithful: no empty container, and nothing that expired
      between taking the snapshot and building the program. */
  lemma RewriteFaithfulIff(ks: Keyspace, items: seq<Item>, log: seq<Timed>, now: int, delay: int)
    requires Enumerates(items, ks) && forall k :: k in ks ==> DistinctContent(ks[k].content)
    requires Argvs(log) == Program(items, now) && Within(log, now, delay)
    ensures SameShape(ks, Replay(map[], log)) <==>
            forall k :: k in ks ==> !IsEmpty(ks[k].content) && !IsExpired(ks[k].expireAt, now)
  {
    hide Replay, Program, DistinctContent, IsEmpty;
    RewritePreserves(ks, items, log, now, delay);
    var out := Replay(map[], log);
    if SameShape(ks, out) {
      forall k | k in ks ensures !IsEmpty(ks[k].content) && !IsExpired(ks[k].expireAt, now) {
        assert k in out;
      }
    }
  }

  /** An entry that expires between snapshot and build comes back without any deadline. */
  lemma ExpiredAtBuildIsResurrected()
    ensures var ks: Keyspace := map[[107] := Entry(Str([118]), Some(5))];
            var items := [([107], Entry(Str([118]), Some(5)))];
            forall log :: Argvs(log) == Program(items, 5) && Within(log, 5, 0) ==>
              [107] !in Live(ks, 5) && [107] in Live(Replay(map[], log), 5)
  {
    hide Replay, Program;
    var key: Bytes := [107];
    var ks: Keyspace := map[key := Entry(Str([118]), Some(5))];
    var items: seq<Item> := [(key, Entry(Str([118]), Some(5)))];
    assert items[0].0 == key;
    assert Enumerates(items, ks);
    forall log | Argvs(log) == Program(items, 5) && Within(log, 5, 0)
      ensures key !in Live(ks, 5) && key in Live(Replay(map[], log), 5)
    {
      RewritePreserves(ks, items, log, 5, 0);
      assert key in (set k | k in ks && !IsEmpty(ks[k].content));
    }
  }

  /** The deadline bounds do not outlive the next command: a push between an old deadline and
      its later rewritten form starts a new list in the store and extends the old one in the
      file's replay. */
  lemma PushBetweenDeadlines()
    ensures var ks: Keyspace := map[[107] := Entry(List([[97]]), Some(1))];
            var items := [([107], Entry(List([[97]]), Some(1)))];
            forall log :: Argvs(log) == Program(items, 0) && Within(log, 0, 0) ==>
              && Live(ks, 0) == ks
              && Run(LPush([107], [[98]]), 1, ks).ks == map[[107] := Entry(List([[98]]), None)]
              && Run(LPush([107], [[98]]), 1, Replay(map[], log)).reply == Count(2)
  {
    hide Replay, Program;
    var key: Bytes := [107];
    var e := Entry(List([[97]]), Some(1));
    var ks: Keyspace := map[key := e];
    var items: seq<Item> := [(key, e)];
    assert items[0].0 == key;
    assert Enumerates(items, ks);
    assert [[98]][1..] == [];
    assert PushLeft([], [[98]]) == [[98]] && PushLeft([[97]], [[98]]) == [[98], [97]];
    forall log | Argvs(log) == Program(items, 0) && Within(log, 0, 0)
      ensures Run(LPush(key, [[98]]), 1, Replay(map[], log)).reply == Count(2)
    {
      RewritePreserves(ks, items, log, 0, 0);
      assert key in (set k | k in ks && !IsEmpty(ks[k].content));
      assert Replay(map[], log)[key] == Entry(List([[97]]), Some(1000));
    }
  }

  // ---- can the rewritten log be loaded? ------------------------------------

  predicate AllShort(s: seq<Bytes>, lim: Resp.Limits) {
    forall i :: 0 <= i < |s| ==> |s[i]| <= lim.maxBulk
  }

  /** The whole list or hash goes into one command, so its size meets the array limit. */
  predicate ContentFits(key: Bytes, c: Content, lim: Resp.Limits) {
    IsEmpty(c) ||
    (|key| <= lim.maxBulk &&
     match c
     case Str(b) => |b| <= lim.maxBulk
     case List(items) => |items| + 2 <= lim.maxArray && AllShort(items, lim)
     case Hash(pairs) =>
       2 * |pairs| + 2 <= lim.maxArray &&
       forall i :: 0 <= i < |pairs| ==> |pairs[i].0| <= lim.maxBulk && |pairs[i].1| <= lim.maxBulk)
  }

  predicate ItemFits(x: Item, now: int, lim: Resp.Limits) {
    && ContentFits(x.0, x.1.content, lim)
    && (x.1.expireAt.Some? && !IsExpired(x.1.expireAt, now) ==>
          |x.0| <= lim.maxBulk && |Decimal(Seconds(x.1.expireAt.value - now))| <= lim.maxBulk)
  }

  /** Room for the command names and for the shortest commands. */
  predicate SaneLimits(lim: Resp.Limits) { lim.maxBulk >= 6 && lim.maxArray >= 3 && lim.maxDepth > 0 }

  predicate AllFit(cmds: seq<Argv>, lim: Resp.Limits) {
    forall i :: 0 <= i < |cmds| ==> CommandLog.CommandFits(cmds[i], lim)
  }

  lemma AllFitAppend(a: seq<Argv>, b: seq<Argv>, lim: Resp.Limits)
    ensures AllFit(a + b, lim) <==> AllFit(a, lim) && AllFit(b, lim)
  {
    hide CommandLog.CommandFits;
    assert forall i :: 0 <= i < |a| ==> (a + b)[i] == a[i];
    assert forall i :: 0 <= i < |b| ==> (a + b)[|a| + i] == b[i];
  }

  lemma AllFitOne(argv: Argv, lim: Resp.Limits)
    ensures AllFit([argv], lim) <==> CommandLog.CommandFits(argv, lim)
  {
    hide CommandLog.CommandFits;
    assert [argv][0] == argv;
  }

  lemma ArgsFit(name: Bytes, key: Bytes, args: seq<Bytes>, lim: Resp.Limits)
    requires SaneLimits(lim) && |name| <= 6
    ensures CommandLog.CommandFits([name, key] + args, lim) <==>
            |key| <= lim.maxBulk && |args| + 2 <= lim.maxArray && AllShort(args, lim)
  {
    var argv := [name, key] + args;
    assert argv[0] == name && argv[1] == key;
    assert forall i :: 0 <= i < |args| ==> argv[i + 2] == args[i];
  }

  lemma ReverseShort(s: seq<Bytes>, lim: Resp.Limits)
    ensures AllShort(Reverse(s), lim) <==> AllShort(s, lim)
  {
    assert forall i :: 0 <= i < |s| ==> s[i] == Reverse(s)[|s| - 1 - i];
  }

  lemma FlattenShort(pairs: seq<(Bytes, Bytes)>, lim: Resp.Limits)
    ensures AllShort(Flatten(pairs), lim) <==>
            forall i :: 0 <= i < |pairs| ==> |pairs[i].0| <= lim.maxBulk && |pairs[i].1| <= lim.maxBulk
  {
    var f := Flatten(pairs);
    if AllShort(f, lim) {
      forall i | 0 <= i < |pairs| ensures |pairs[i].0| <= lim.maxBulk && |pairs[i].1| <= lim.maxBulk {
        assert f[2 * i] == pairs[i].0 && f[2 * i + 1] == pairs[i].1;
      }
    }
  }

  lemma ContentCommandsFit(key: Bytes, c: Content, lim: Resp.Limits)
    requires SaneLimits(lim)
    ensures AllFit(ContentCommands(key, c), lim) <==> ContentFits(key, c, lim)
  {
    hide CommandLog.CommandFits, AllShort;
    match c
    case Str(b) =>
      ArgsFit(SET, key, [b], lim);
      assert [SET, key] + [b] == [SET, key, b];
      AllFitOne([SET, key, b], lim);
      OneShort(b, lim);
    case List(items) =>
      ArgsFit(LPUSH, key, Reverse(items), lim);
      AllFitOne([LPUSH, key] + Reverse(items), lim);
      ReverseShort(items, lim);
    case Hash(pairs) =>
      ArgsFit(HSET, key, Flatten(pairs), lim);
      AllFitOne([HSET, key] + Flatten(pairs), lim);
      FlattenShort(pairs, lim);
  }

  lemma OneShort(b: Bytes, lim: Resp.Limits)
    ensures AllShort([b], lim) <==> |b| <= lim.maxBulk
  {
    assert [b][0] == b;
  }

  lemma ItemCommandsFit(x: Item, now: int, lim: Resp.Limits)
    requires SaneLimits(lim)
    ensures AllFit(ItemCommands(x, now), lim) <==> ItemFits(x, now, lim)
  {
    hide CommandLog.CommandFits, AllShort, ContentFits, Decimal, Seconds, ContentCommands;
    AllFitAppend(ContentCommands(x.0, x.1.content), TtlCommands(x.0, x.1.expireAt, now), lim);
    ContentCommandsFit(x.0, x.1.content, lim);
    if x.1.expireAt.Some? {
      var secs := Decimal(Seconds(x.1.expireAt.value - now));
      ArgsFit(EXPIRE, x.0, [secs], lim);
      OneShort(secs, lim);
      assert [EXPIRE, x.0] + [secs] == [EXPIRE, x.0, secs];
      AllFitOne([EXPIRE, x.0, secs], lim);
    }
  }

  lemma {:induction false} ProgramFits(items: seq<Item>, now: int, lim: Resp.Limits)
    requires SaneLimits(lim)
    ensures AllFit(Program(items, now), lim) <==> forall i :: 0 <= i < |items| ==> ItemFits(items[i], now, lim)
    decreases |items|
  {
    hide CommandLog.CommandFits, ItemFits, ItemCommands;
    if items != [] {
      AllFitAppend(ItemCommands(items[0], now), Program(items[1..], now), lim);
      ItemCommandsFit(items[0], now, lim);
      ProgramFits(items[1..], now, lim);
      assert items == [items[0]] + items[1..];
    }
  }

  lemma {:induction false} ProgramNoEmpty(items: seq<Item>, now: int)
    ensures forall i :: 0 <= i < |Program(items, now)| ==> Program(items, now)[i] != []
    decreases |items|
  {
    if items != [] {
      ProgramNoEmpty(items[1..], now);
    }
  }

  /** The server can read back what it rewrote if and only if every entry fits the reader's
      limits and the whole rewrite its buffer and file limits; a list or hash that has
      outgrown the array limit makes the log unloadable, and so does sheer size. */
  lemma RewriteLoadableIff(items: seq<Item>, now: int, lim: Resp.Limits, maxBuffer: nat, maxFile: nat,
                           recode: Bytes -> Bytes)
    requires SaneLimits(lim)
    ensures var data := CommandLog.EncodeLog(Program(items, now));
            var read := CommandLog.ReadLog(data, lim, maxBuffer, maxFile, recode);
            && (read.Commands? <==>
                |data| <= maxBuffer && |data| <= maxFile &&
                forall i :: 0 <= i < |items| ==> ItemFits(items[i], now, lim))
            && (read.Commands? ==> read == CommandLog.Commands(Program(items, now)))
  {
    hide CommandLog.CommandFits, ItemFits, Program, CommandLog.EncodeLog, CommandLog.ReadLog, Resp.Parse;
    var data := CommandLog.EncodeLog(Program(items, now));
    assert data + [] == data;
    CommandLog.EmptyIsIncomplete(lim);
    ProgramNoEmpty(items, now);
    CommandLog.ReadableIffFits(Program(items, now), [], lim, maxBuffer, maxFile, recode);
    ProgramFits(items, now, lim);
  }
}
