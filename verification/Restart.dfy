/** Restarting from the append-only file: the load path of `server.py` purges, applies and
    enforces the memory limit for every replayed command. Without a limit, or with one and
    the noeviction policy throughout, it rebuilds the keyspace the file stands for. */
module Restart {
  import opened ByteStrings
  import opened Keyspace
  import opened Commands
  import opened TimedLog
  import opened Primary
  import opened Memory
  import AofRewrite
  import LazyExpiry
  import CommandLog
  import PrimaryConvergence
  import PrimaryDurability
  import LoggedCommands
  import Resp

  /** One command replayed at start-up under noeviction: an OOM answer rolls back.
      A limit of 0 or less means no limit. */
  ghost function LoadStep(ks: Keyspace, c: Timed, limit: int): Keyspace {
    var before := Live(ks, c.at);
    var o := Apply(c.argv, c.at, before);
    if !o.reply.Err? && limit > 0 && Usage(o.ks) > limit then before else o.ks
  }

  /** replay_aof from an empty store. */
  ghost function LoadLog(log: seq<Timed>, limit: int): Keyspace
    decreases |log|
  {
    if log == [] then map[] else LoadStep(LoadLog(log[..|log| - 1], limit), log[|log| - 1], limit)
  }

  /** Every state on the way, as seen when its last command is applied, is within the limit. */
  ghost predicate WithinLimit(log: seq<Timed>, limit: int) {
    forall p :: 0 < p <= |log| ==> Usage(Live(Replay(map[], log[..p]), log[p - 1].at)) <= limit
  }

  lemma LoadStepAgrees(a: Keyspace, b: Keyspace, c: Timed, limit: int)
    requires Agree(a, b, c.at)
    requires limit > 0 ==> Usage(Live(Apply(c.argv, c.at, b).ks, c.at)) <= limit
    ensures Agree(LoadStep(a, c, limit), Apply(c.argv, c.at, b).ks, c.at)
  {
    hide Apply, Live, Usage;
    LiveOfLive(a, c.at, c.at);
    ApplyLive(c.argv, c.at, Live(a, c.at), b);
    LiveOutcome(c.argv, c.at, a);
  }

  /** The load path ends with the keyspace the log stands for. */
  lemma {:induction false} LoadAgrees(log: seq<Timed>, limit: int, t: int)
    requires InOrder(log, t) && (limit > 0 ==> WithinLimit(log, limit))
    ensures Agree(LoadLog(log, limit), Replay(map[], log), t)
    decreases |log|
  {
    hide Agree, LoadStep, Replay, Live, Usage;
    if log == [] {
      NothingAgrees(t);
    } else {
      var n := |log| - 1;
      var init, c := log[..n], log[n];
      assert log == init + [c];
      if limit > 0 {
        WithinPrefix(log, n, limit);
      }
      LoadAgrees(init, limit, c.at);
      ReplaySnoc(map[], init, c);
      assert log[..n + 1] == log;
      LoadStepAgrees(LoadLog(init, limit), Replay(map[], init), c, limit);
      PrimaryConvergence.AgreeLater(LoadLog(log, limit), Replay(map[], log), c.at, t);
    }
  }

  lemma NothingAgrees(t: int)
    ensures Agree(map[], Replay(map[], []), t)
  {
  }

  // ---- the limit over whole runs -------------------------------------------

  /** The memory limit as the store enforces it under noeviction. */
  ghost predicate Obeys(s: State, step: Step, limit: int) {
    step.Mutate? && s.phase.Ready? && limit > 0 ==>
      var o := Apply(s.phase.argv, s.clock, Live(s.store, s.clock));
      !o.reply.Err? ==> step.evicted == [] && (step.oom <==> Usage(o.ks) > limit)
  }

  ghost predicate RunObeys(s: State, steps: seq<Step>, limit: int)
    decreases |steps|
  {
    steps != [] && Enabled(s, steps[0]) ==> Obeys(s, steps[0], limit) && RunObeys(Do(s, steps[0]), steps[1..], limit)
  }

  function Pending(s: State): seq<Timed> { s.aofLog + PrimaryDurability.Unlogged(s.phase) }

  ghost predicate Limited(s: State, limit: int) {
    && InOrder(Pending(s), s.clock)
    && (limit > 0 ==> Usage(Live(s.store, s.clock)) <= limit)
    && (limit > 0 && s.faithful && s.cfg.aofEnabled ==> WithinLimit(Pending(s), limit))
  }

  lemma LiveCostsLess(ks: Keyspace, t: int, u: int)
    requires t <= u
    ensures Usage(Live(ks, u)) <= Usage(Live(ks, t))
  {
    hide Usage;
    UsageMonotone(Live(ks, u), Live(ks, t));
  }

  lemma UnseenKeepsLimited(s: State, s': State, limit: int)
    requires Limited(s, limit) && s'.cfg == s.cfg && (s'.faithful ==> s.faithful)
    requires Pending(s') == Pending(s) && s.clock <= s'.clock && Agree(s.store, s'.store, s'.clock)
    ensures Limited(s', limit)
  {
    hide Usage, Live, WithinLimit, Pending;
    LiveCostsLess(s.store, s.clock, s'.clock);
  }

  lemma InOrderMany(log: seq<Timed>, more: seq<Timed>, t: int)
    requires InOrder(log, t) && forall i :: 0 <= i < |more| ==> more[i].at == t
    ensures InOrder(log + more, t)
  {
  }

  lemma WithinPrefix(log: seq<Timed>, n: nat, limit: int)
    requires WithinLimit(log, limit) && n <= |log|
    ensures WithinLimit(log[..n], limit)
  {
    hide Usage, Live, Replay;
    forall p | 0 < p <= n ensures Usage(Live(Replay(map[], log[..n][..p]), log[..n][p - 1].at)) <= limit {
      assert log[..n][..p] == log[..p];
    }
  }

  lemma WithinSnoc(log: seq<Timed>, c: Timed, limit: int)
    requires WithinLimit(log, limit) && Usage(Live(Replay(map[], log + [c]), c.at)) <= limit
    ensures WithinLimit(log + [c], limit)
  {
    hide Usage, Live, Replay;
    forall p | 0 < p <= |log + [c]|
      ensures Usage(Live(Replay(map[], (log + [c])[..p]), (log + [c])[p - 1].at)) <= limit
    {
      if p <= |log| {
        assert (log + [c])[..p] == log[..p] && (log + [c])[p - 1] == log[p - 1];
      } else {
        assert (log + [c])[..p] == log + [c];
      }
    }
  }

  lemma WriteKeepsLimited(s: State, oom: bool, evicted: seq<Bytes>, limit: int)
    requires PrimaryDurability.Durable(s) && Limited(s, limit) && s.phase.Ready?
    requires Obeys(s, Mutate(oom, evicted), limit)
    requires DoMutate(s, oom, evicted).phase.Append?
    ensures Limited(DoMutate(s, oom, evicted), limit)
  {
    hide Usage, Live, Replay, Apply, WithinLimit, PrimaryDurability.FileOk, PrimaryDurability.PhaseOk, Wf;
    var s' := DoMutate(s, oom, evicted);
    var c := Timed(s.phase.argv, s.clock);
    assert Pending(s) == s.aofLog;
    assert Pending(s') == s.aofLog + s'.phase.todo;
    InOrderMany(s.aofLog, s'.phase.todo, s.clock);
    if limit > 0 {
      assert evicted == [] && Deletions(evicted, s.clock) == [];
      assert s'.phase.todo == [c];
      LiveOutcome(s.phase.argv, s.clock, s.store);
      var ks := Apply(s.phase.argv, s.clock, Live(s.store, s.clock)).ks;
      assert s'.store == ks - (set k | k in evicted) == ks;
      if s.faithful && s.cfg.aofEnabled {
        assert s.aofLog + PrimaryDurability.Behind(s) == s.aofLog;
        PrimaryConvergence.WriteAgreesLog(s.aofLog, s.store, s.phase.argv, s.clock, []);
        assert [c] + Deletions([], s.clock) == [c];
        assert ks - (set k | k in []) == ks;
        WithinSnoc(s.aofLog, c, limit);
      }
    }
  }

  lemma MutateKeepsLimited(s: State, oom: bool, evicted: seq<Bytes>, limit: int)
    requires PrimaryDurability.Durable(s) && Limited(s, limit) && s.phase.Ready?
    requires Obeys(s, Mutate(oom, evicted), limit)
    ensures Limited(DoMutate(s, oom, evicted), limit)
  {
    hide Usage, Live, Replay, Apply, WithinLimit, Limited, PrimaryDurability.Durable, Obeys, Agree;
    var s' := DoMutate(s, oom, evicted);
    if s'.phase.Append? {
      WriteKeepsLimited(s, oom, evicted, limit);
    } else {
      PrimaryDurability.AgreeUnseen(s, s');
      UnseenKeepsLimited(s, s', limit);
    }
  }

  // ---- rewrites ------------------------------------------------------------

  /** Without deadlines and empty containers every item compiles to one command. */
  lemma {:induction false} ProgramPrefix(items: seq<Item>, now: int, p: nat)
    requires p <= |items|
    requires forall i :: 0 <= i < |items| ==> items[i].1.expireAt.None? && WfContent(items[i].1.content)
    ensures |AofRewrite.Program(items, now)| == |items|
    ensures AofRewrite.Program(items, now)[..p] == AofRewrite.Program(items[..p], now)
    decreases |items|
  {
    if items == [] {
      assert items[..p] == [];
    } else {
      var x, tail := items[0], items[1..];
      assert |AofRewrite.ItemCommands(x, now)| == 1;
      if p == 0 {
        ProgramPrefix(tail, now, 0);
        assert items[..p] == [];
      } else {
        ProgramPrefix(tail, now, p - 1);
        assert items[..p][0] == x && items[..p][1..] == tail[..p - 1];
      }
    }
  }

  /** The sub-keyspace holding the first `p` items. */
  function Part(items: seq<Item>, ks: Keyspace, p: nat): Keyspace
    requires p <= |items|
  {
    map k | k in ks && (exists i :: 0 <= i < p && items[i].0 == k) :: ks[k]
  }

  lemma PartEnumerated(items: seq<Item>, ks: Keyspace, p: nat)
    requires Enumerates(items, ks) && p <= |items|
    ensures Enumerates(items[..p], Part(items, ks, p))
  {
    var some, part := items[..p], Part(items, ks, p);
    forall i | 0 <= i < |some| ensures some[i].0 in part && part[some[i].0] == some[i].1 {
      assert some[i] == items[i];
    }
    forall k | k in part ensures exists i :: 0 <= i < |some| && some[i].0 == k {
      var i :| 0 <= i < p && items[i].0 == k;
      assert some[i].0 == k;
    }
  }

  lemma RewriteWithin(ks: Keyspace, items: seq<Item>, now: int, limit: int)
    requires Wf(ks) && TtlFree(ks) && Enumerates(items, ks) && Usage(ks) <= limit
    ensures WithinLimit(Stamped(AofRewrite.Program(items, now), now), limit)
  {
    hide Usage, Live, Replay, AofRewrite.Program, Enumerates;
    var log := Stamped(AofRewrite.Program(items, now), now);
    forall p | 0 < p <= |log| ensures Usage(Live(Replay(map[], log[..p]), log[p - 1].at)) <= limit {
      ItemsPlain(items, ks, now);
      ProgramPrefix(items, now, p);
      var part := Part(items, ks, p);
      PartEnumerated(items, ks, p);
      assert log[..p] == Stamped(AofRewrite.Program(items[..p], now), now);
      PrimaryDurability.RewriteExact(part, items[..p], now);
      PrimaryConvergence.LiveTtlFree(part, now);
      UsageMonotone(part, ks);
    }
  }

  lemma ItemsPlain(items: seq<Item>, ks: Keyspace, now: int)
    requires Wf(ks) && TtlFree(ks) && Enumerates(items, ks)
    ensures forall i :: 0 <= i < |items| ==> items[i].1.expireAt.None? && WfContent(items[i].1.content)
    ensures |AofRewrite.Program(items, now)| == |items|
  {
    ProgramPrefix(items, now, 0);
  }

  lemma RewriteKeepsLimited(s: State, items: seq<Item>, limit: int)
    requires PrimaryDurability.Durable(s) && Limited(s, limit) && Enabled(s, RewriteOk(items))
    ensures Limited(Do(s, RewriteOk(items)), limit)
  {
    hide Usage, Live, Replay, WithinLimit, AofRewrite.Program, Enumerates, CommandLog.EncodeLog, Wf, TtlFree,
      PrimaryDurability.FileOk;
    var s' := Do(s, RewriteOk(items));
    assert Pending(s') == s'.aofLog;
    if limit > 0 && s'.faithful {
      PrimaryConvergence.LiveTtlFree(s.phase.entries, s.clock);
      RewriteWithin(s.phase.entries, items, s.clock, limit);
    }
  }

  lemma StepKeepsLimited(s: State, step: Step, limit: int)
    requires PrimaryDurability.Durable(s) && Limited(s, limit) && Enabled(s, step) && Obeys(s, step, limit)
    ensures Limited(Do(s, step), limit)
  {
    hide Usage, Live, Replay, Apply, Limited, PrimaryDurability.FileOk, Wf, LazyExpiry.SweepStep,
      AofRewrite.Program, CommandLog.EncodeLog, Payload, PropagateLink, TakeBatchLink, DoMutate, Enumerates, Obeys,
      PrimaryDurability.Rebuilds;
    if step.Mutate? {
      MutateKeepsLimited(s, step.oom, step.evicted, limit);
    } else if step.RewriteOk? {
      RewriteKeepsLimited(s, step.items, limit);
    } else if step.AppendOk? {
      AppendKeepsLimited(s, limit);
    } else if step.AppendFail? {
      FailKeepsLimited(s, step.written, limit);
    } else {
      var s' := Do(s, step);
      LiveOfLive(s.store, s.clock, s.clock);
      if step.Sweep? {
        LazyExpiry.LiveAfterSweepStep(s.store, step.sample, s.clock, s.clock);
      } else if step.Read? {
        LazyExpiry.NonWriteChangesNothing(step.argv, s.clock, s.store);
      }
      assert Pending(s') == Pending(s);
      UnseenKeepsLimited(s, s', limit);
    }
  }

  lemma AppendKeepsLimited(s: State, limit: int)
    requires Limited(s, limit) && Enabled(s, AppendOk)
    ensures Limited(DoAppendOk(s), limit)
  {
    hide Usage, Live, WithinLimit, Payload;
    var s' := DoAppendOk(s);
    var todo := s.phase.todo;
    if s.cfg.aofEnabled {
      assert Pending(s') == Pending(s);
    } else {
      assert Pending(s) == s.aofLog + todo && Pending(s') == s.aofLog + todo[1..];
      InOrderDrop(s.aofLog, todo, s.clock);
    }
  }

  lemma InOrderDrop(log: seq<Timed>, todo: seq<Timed>, t: int)
    requires InOrder(log + todo, t) && todo != []
    ensures InOrder(log + todo[1..], t)
  {
    var all, less := log + todo, log + todo[1..];
    assert forall i :: 0 <= i < |less| ==> less[i] == all[if i < |log| then i else i + 1];
  }

  lemma FailKeepsLimited(s: State, n: nat, limit: int)
    requires Limited(s, limit) && Enabled(s, AppendFail(n))
    ensures Limited(DoAppendFail(s, n), limit)
  {
    hide Usage, Live, WithinLimit, Payload;
    var s' := DoAppendFail(s, n);
    var all := Pending(s);
    assert all == s.aofLog + s.phase.todo;
    var n' := |Pending(s')|;
    assert Pending(s') == all[..n'];
    if limit > 0 && s.faithful && s.cfg.aofEnabled {
      WithinPrefix(all, n', limit);
    }
  }

  lemma {:induction false} RunKeepsLimited(s: State, steps: seq<Step>, limit: int)
    requires PrimaryDurability.Durable(s) && Limited(s, limit)
    requires RunSteps(s, steps).Some? && RunObeys(s, steps, limit)
    ensures PrimaryDurability.Durable(RunSteps(s, steps).value) && Limited(RunSteps(s, steps).value, limit)
    decreases |steps|
  {
    hide Do, Enabled, PrimaryDurability.Durable, Limited, Obeys;
    if steps != [] {
      StepKeepsLimited(s, steps[0], limit);
      PrimaryDurability.StepKeepsDurable(s, steps[0]);
      RunKeepsLimited(Do(s, steps[0]), steps[1..], limit);
    }
  }

  // ---- results -------------------------------------------------------------

  /** After any run under the noeviction policy (or without a limit) from a start within
      the limit: once the write lock is free, loading the logged commands with that limit
      or with none, at the master's times, rebuilds the live keyspace, deadlines included. */
  lemma LoadRebuildsStore(s0: State, steps: seq<Step>, s: State, limit: int, limit': int)
    requires Init(s0) && Limited(s0, limit) && (limit' == limit || limit' <= 0)
    requires RunSteps(s0, steps) == Some(s) && RunObeys(s0, steps, limit)
    requires s.phase.Free? && s.cfg.aofEnabled && s.faithful && s.unlogged == []
    ensures Live(LoadLog(s.aofLog, limit'), s.clock) == Live(s.store, s.clock)
    ensures Limited(s, limit)
  {
    hide RunSteps, RunObeys, PrimaryDurability.FileOk, Replay, Live, LoadLog, WithinLimit,
      PrimaryDurability.PhaseOk, Wf, Usage;
    PrimaryDurability.InitDurable(s0);
    RunKeepsLimited(s0, steps, limit);
    assert s.aofLog + PrimaryDurability.Behind(s) == s.aofLog == Pending(s);
    LoadAgrees(s.aofLog, limit', s.clock);
  }

  /** Loading commands that set no deadline does not depend on the clock. */
  lemma {:induction false} LoadTimeless(log: seq<Timed>, log': seq<Timed>, limit: int)
    requires LogSetsNoTtl(log) && Argvs(log) == Argvs(log')
    ensures LoadLog(log, limit) == LoadLog(log', limit) && TtlFree(LoadLog(log, limit))
    decreases |log|
  {
    hide Understand, Run, TtlFree, SetsNoTtl, Live, Usage;
    assert |log| == |Argvs(log)| == |Argvs(log')| == |log'|;
    if log != [] {
      var n := |log| - 1;
      assert Argvs(log[..n]) == Argvs(log)[..n] == Argvs(log'[..n]);
      assert log[n].argv == Argvs(log)[n] == Argvs(log')[n] == log'[n].argv;
      LoadTimeless(log[..n], log'[..n], limit);
      var ks := LoadLog(log[..n], limit);
      PrimaryConvergence.LiveTtlFree(ks, log[n].at);
      PrimaryConvergence.LiveTtlFree(ks, log'[n].at);
      RunTtlFree(Understand(log[n].argv), log[n].at, log'[n].at, ks);
    } else {
      assert TtlFree(map[]) by { NothingTtlFree(); }
    }
  }

  lemma NothingTtlFree()
    ensures TtlFree(map[])
  {
  }

  /** Durable state. A server starts empty or from a file without deadlines, clients set
      none, and the policy is noeviction or there is no limit. After any run, with the write
      lock free, the file healthy and within the reader's limits: reading the bytes of the
      file and loading the result at whatever times, with the same limit or none, gives
      exactly the live keyspace. */
  lemma RestartRebuildsStore(s0: State, steps: seq<Step>, s: State, log: seq<Timed>, limit: int, limit': int,
                             lim: Resp.Limits, maxBuffer: nat, maxFile: nat, recode: Bytes -> Bytes)
    requires LoggedCommands.TimelessStart(s0) && Limited(s0, limit) && (limit' == limit || limit' <= 0)
    requires RunSteps(s0, steps) == Some(s) && RunObeys(s0, steps, limit) && LoggedCommands.AsksNoTtl(steps)
    requires s.phase.Free? && s.healthy && s.cfg.aofEnabled && PrimaryDurability.Readable(s, lim, maxBuffer, maxFile)
    requires Argvs(log) == Argvs(s.aofLog)
    ensures CommandLog.ReadLog(s.file, lim, maxBuffer, maxFile, recode) == CommandLog.Commands(Argvs(log))
    ensures LoadLog(log, limit') == Live(s.store, s.clock)
  {
    hide RunSteps, RunObeys, Replay, Live, LoadLog, Argvs, CommandLog.ReadLog, PrimaryDurability.Readable, Understand,
      LoggedCommands.AsksNoTtl, Limited, Init, Usage;
    LoggedCommands.FileRebuildsStoreWithoutTtl(s0, steps, s, log, lim, maxBuffer, maxFile, recode);
    LoggedCommands.LogRebuildsStoreWithoutTtl(s0, steps, s, log);
    LoadRebuildsStore(s0, steps, s, limit, limit');
    LoadTimeless(s.aofLog, log, limit');
    PrimaryConvergence.LiveTtlFree(LoadLog(log, limit'), s.clock);
  }

  /** The server that has loaded the file at time `now`. */
  ghost function Restarted(s: State, log: seq<Timed>, limit: int, now: int): State {
    s.(clock := now, store := LoadLog(log, limit), phase := Free, links := map[], history := [], offset := 0,
       aofLog := log, torn := [], unlogged := [], dropped := [], missed := {}, faithful := true)
  }

  lemma WithinTimeless(log: seq<Timed>, log': seq<Timed>, limit: int)
    requires WithinLimit(log, limit) && LogSetsNoTtl(log) && Argvs(log) == Argvs(log')
    ensures WithinLimit(log', limit)
  {
    hide Usage, Live, Replay, Understand, SetsNoTtl;
    NothingTtlFree();
    assert |log| == |Argvs(log)| == |Argvs(log')| == |log'|;
    forall p | 0 < p <= |log'| ensures Usage(Live(Replay(map[], log'[..p]), log'[p - 1].at)) <= limit {
      assert Argvs(log[..p]) == Argvs(log)[..p] == Argvs(log'[..p]);
      ReplayTimeless(map[], log[..p], log'[..p]);
      PrimaryConvergence.LiveTtlFree(Replay(map[], log[..p]), log[p - 1].at);
      PrimaryConvergence.LiveTtlFree(Replay(map[], log[..p]), log'[p - 1].at);
    }
  }

  /** The restarted server is again a start the result above speaks of, so the keyspace
      survives any number of runs and restarts. */
  lemma RestartIsAStart(s0: State, steps: seq<Step>, s: State, log: seq<Timed>, limit: int, now: int)
    requires LoggedCommands.TimelessStart(s0) && Limited(s0, limit)
    requires RunSteps(s0, steps) == Some(s) && RunObeys(s0, steps, limit) && LoggedCommands.AsksNoTtl(steps)
    requires s.phase.Free? && s.healthy && s.cfg.aofEnabled
    requires Argvs(log) == Argvs(s.aofLog) && InOrder(log, now)
    ensures LoggedCommands.TimelessStart(Restarted(s, log, limit, now)) && Limited(Restarted(s, log, limit, now), limit)
  {
    hide RunSteps, RunObeys, Replay, Live, LoadLog, Understand, LoggedCommands.AsksNoTtl, Usage, CommandLog.EncodeLog,
      WithinLimit, Init, Wf, TtlFree;
    LoggedCommands.LogRebuildsStoreWithoutTtl(s0, steps, s, log);
    LoadRebuildsStore(s0, steps, s, limit, limit);
    LoadTimeless(s.aofLog, log, limit);
    var s1 := Restarted(s, log, limit, now);
    PrimaryConvergence.LiveTtlFree(s1.store, s.clock);
    PrimaryConvergence.LiveTtlFree(s1.store, now);
    assert Init(s1) by { RestartedInit(s0, steps, s, log, limit, now); }
    assert LogSetsNoTtl(log) by {
      forall i | 0 <= i < |log| ensures SetsNoTtl(Understand(log[i].argv)) {
        assert log[i].argv == Argvs(log)[i] == Argvs(s.aofLog)[i] == s.aofLog[i].argv;
      }
    }
    assert Pending(s1) == log && Pending(s) == s.aofLog;
    if limit > 0 {
      WithinTimeless(s.aofLog, log, limit);
    }
  }

  lemma RestartedInit(s0: State, steps: seq<Step>, s: State, log: seq<Timed>, limit: int, now: int)
    requires Init(s0) && RunSteps(s0, steps) == Some(s) && s.phase.Free? && s.healthy
    requires Argvs(log) == Argvs(s.aofLog)
    requires LoadLog(log, limit) == Replay(map[], log) == Live(s.store, s.clock)
    ensures Init(Restarted(s, log, limit, now))
  {
    hide RunSteps, Replay, Live, LoadLog, CommandLog.EncodeLog, Wf;
    assert Reachable(s);
    PrimaryDurability.ReachableIsDurable(s);
    PrimaryDurability.WfLive(s.store, s.clock);
    forall i | 0 <= i < |log| ensures log[i].argv != [] {
      assert log[i].argv == Argvs(log)[i] == Argvs(s.aofLog)[i] == s.aofLog[i].argv;
    }
  }

  /** An empty data directory is such a start. */
  lemma EmptyStart(s: State, limit: int)
    requires Init(s) && s.faithful && s.store == map[] && s.aofLog == []
    ensures LoggedCommands.TimelessStart(s) && Limited(s, limit)
  {
    assert Pending(s) == [];
    assert Live(s.store, s.clock) == map[];
  }
}
