/** What the commands in the append-only file have in common over a whole run, derived from
    the commands the clients sent: that they fit the reader's limits, or set no deadline. */
module LoggedCommands {
  import opened ByteStrings
  import opened Keyspace
  import opened Commands
  import opened TimedLog
  import opened Primary
  import Resp
  import LazyExpiry
  import AofRewrite
  import CommandLog
  import PrimaryConvergence
  import PrimaryDurability

  predicate AllMeet(log: seq<Timed>, p: Argv -> bool) {
    forall i :: 0 <= i < |log| ==> p(log[i].argv)
  }

  /** Everything that is in the file or on its way there. */
  predicate Meets(s: State, p: Argv -> bool) {
    && (s.phase.Ready? ==> p(s.phase.argv))
    && (s.phase.Append? || s.phase.Propagate? ==> AllMeet(s.phase.todo, p))
    && AllMeet(s.aofLog, p) && AllMeet(s.unlogged, p)
    && (s.torn != [] ==> p(s.tornOf))
  }

  /** Commands enter from clients, as deletions of evicted keys, and from rewrites. */
  predicate StepMeets(s: State, step: Step, p: Argv -> bool) {
    match step
    case Acquire(argv) => p(argv)
    case Mutate(_, evicted) => forall i :: 0 <= i < |evicted| ==> p([DEL, evicted[i]])
    case RewriteOk(items) =>
      forall i :: 0 <= i < |AofRewrite.Program(items, s.clock)| ==> p(AofRewrite.Program(items, s.clock)[i])
    case _ => true
  }

  lemma StepKeepsMeets(s: State, step: Step, p: Argv -> bool)
    requires Meets(s, p) && Enabled(s, step) && StepMeets(s, step, p)
    ensures Meets(Do(s, step), p)
  {
    hide Apply, Live, Payload, LazyExpiry.SweepStep, AofRewrite.Program, CommandLog.EncodeLog, PropagateLink,
      TakeBatchLink, Enumerates, IsWrite, DoMutate, DoPropagate, DoAppendOk, DoAppendFail, AllMeet;
    if step.RewriteOk? {
      StampedMeet(AofRewrite.Program(step.items, s.clock), s.clock, p);
    } else if step.Mutate? {
      MutateKeepsMeets(s, step.oom, step.evicted, p);
    } else if step.AppendOk? || step.AppendFail? || step.PropagateOne? {
      LoggingKeepsMeets(s, step, p);
    }
  }

  lemma StampedMeet(program: seq<Argv>, at: int, p: Argv -> bool)
    requires forall i :: 0 <= i < |program| ==> p(program[i])
    ensures AllMeet(Stamped(program, at), p) && AllMeet([], p)
  {
  }

  lemma MutateKeepsMeets(s: State, oom: bool, evicted: seq<Bytes>, p: Argv -> bool)
    requires Meets(s, p) && s.phase.Ready? && forall i :: 0 <= i < |evicted| ==> p([DEL, evicted[i]])
    ensures Meets(DoMutate(s, oom, evicted), p)
  {
    hide Apply, Live;
  }

  lemma LoggingKeepsMeets(s: State, step: Step, p: Argv -> bool)
    requires Meets(s, p) && Enabled(s, step) && (step.AppendOk? || step.AppendFail? || step.PropagateOne?)
    ensures Meets(Do(s, step), p)
  {
    hide Payload, PropagateLink, Live, CommandLog.EncodeLog, LazyExpiry.SweepStep, DoMutate;
  }

  predicate RunMeets(s: State, steps: seq<Step>, p: Argv -> bool)
    decreases |steps|
  {
    steps != [] && Enabled(s, steps[0]) ==>
      StepMeets(s, steps[0], p) && RunMeets(Do(s, steps[0]), steps[1..], p)
  }

  lemma {:induction false} RunKeepsMeets(s: State, steps: seq<Step>, p: Argv -> bool)
    requires Meets(s, p) && RunSteps(s, steps).Some? && RunMeets(s, steps, p)
    ensures Meets(RunSteps(s, steps).value, p)
    decreases |steps|
  {
    hide Do, Enabled, Meets, StepMeets;
    if steps != [] {
      StepKeepsMeets(s, steps[0], p);
      RunKeepsMeets(Do(s, steps[0]), steps[1..], p);
    }
  }

  /** When every command sent, every deletion of an evicted key and every rewritten command
      fits the reader's limits, the file loads after any run, failed appends included. */
  lemma FittingCommandsLoad(s0: State, steps: seq<Step>, s: State, lim: Resp.Limits, maxBuffer: nat, maxFile: nat,
                            recode: Bytes -> Bytes)
    requires Init(s0) && RunSteps(s0, steps) == Some(s)
    requires AllMeet(s0.aofLog, argv => CommandLog.CommandFits(argv, lim))
    requires RunMeets(s0, steps, argv => CommandLog.CommandFits(argv, lim))
    requires |s.file| <= maxBuffer && |s.file| <= maxFile
    ensures CommandLog.ReadLog(s.file, lim, maxBuffer, maxFile, recode) == CommandLog.Commands(Argvs(s.aofLog))
  {
    hide RunSteps, RunMeets, CommandLog.ReadLog, CommandLog.EncodeLog, CommandLog.CommandFits, Replay, Live, Wf;
    RunKeepsMeets(s0, steps, argv => CommandLog.CommandFits(argv, lim));
    assert Reachable(s);
    assert PrimaryDurability.NoEmpty(s.aofLog) by { PrimaryDurability.ReachableIsDurable(s); }
    PrimaryDurability.FileLoadsIff(s, lim, maxBuffer, maxFile, recode);
  }

  /** No rewrite compiled an entry with a deadline. */
  predicate RewritesNoTtl(s: State, steps: seq<Step>)
    decreases |steps|
  {
    steps != [] && Enabled(s, steps[0]) ==>
      && (steps[0].RewriteOk? ==> TtlFree(s.phase.entries))
      && RewritesNoTtl(Do(s, steps[0]), steps[1..])
  }

  /** Only such a rewrite takes the file's meaning away; failed appends do not. */
  lemma {:induction false} RunKeepsFaithful(s: State, steps: seq<Step>)
    requires s.faithful && RunSteps(s, steps).Some? && RewritesNoTtl(s, steps)
    ensures RunSteps(s, steps).value.faithful
    decreases |steps|
  {
    hide Do, Enabled, TtlFree;
    if steps != [] {
      StepKeepsFaithful(s, steps[0]);
      RunKeepsFaithful(Do(s, steps[0]), steps[1..]);
    }
  }

  lemma StepKeepsFaithful(s: State, step: Step)
    requires s.faithful && Enabled(s, step) && (step.RewriteOk? ==> TtlFree(s.phase.entries))
    ensures Do(s, step).faithful
  {
    hide Apply, Live, Payload, LazyExpiry.SweepStep, AofRewrite.Program, CommandLog.EncodeLog, PropagateLink,
      TakeBatchLink, Enumerates, IsWrite, TtlFree;
  }

  // ---- no deadlines --------------------------------------------------------

  predicate NoTtl(argv: Argv) { SetsNoTtl(Understand(argv)) }

  /** The clients sent no command that sets a deadline. */
  predicate AsksNoTtl(steps: seq<Step>) {
    forall i :: 0 <= i < |steps| ==> (steps[i].Acquire? ==> NoTtl(steps[i].argv))
  }

  /** No command on its way and no live entry has a deadline; then no rewrite has changed
      the meaning of the file. */
  predicate Timeless(s: State) {
    && Meets(s, NoTtl) && s.faithful && TtlFree(Live(s.store, s.clock))
    && (s.phase.Rewriting? ==> TtlFree(s.phase.entries))
  }

  lemma DeletionSetsNoTtl(key: Bytes)
    ensures NoTtl([DEL, key])
  {
    hide PyInt, Upper;
    AofRewrite.UpperNames();
  }

  lemma ItemSetsNoTtl(x: Item, now: int)
    requires x.1.expireAt.None? && WfContent(x.1.content)
    ensures forall i :: 0 <= i < |AofRewrite.ItemCommands(x, now)| ==> NoTtl(AofRewrite.ItemCommands(x, now)[i])
  {
    hide Understand, Decimal;
    match x.1.content
    case Str(b) => AofRewrite.UnderstandSet(x.0, b);
    case List(els) => AofRewrite.UnderstandLPush(x.0, AofRewrite.Reverse(els));
    case Hash(pairs) => AofRewrite.UnderstandHSet(x.0, pairs);
  }

  /** A keyspace without deadlines is rewritten without any. */
  lemma {:induction false} ProgramSetsNoTtl(items: seq<Item>, now: int)
    requires forall i :: 0 <= i < |items| ==> items[i].1.expireAt.None? && WfContent(items[i].1.content)
    ensures forall i :: 0 <= i < |AofRewrite.Program(items, now)| ==> NoTtl(AofRewrite.Program(items, now)[i])
    decreases |items|
  {
    hide NoTtl, WfContent, AofRewrite.ItemCommands;
    if items != [] {
      ItemSetsNoTtl(items[0], now);
      ProgramSetsNoTtl(items[1..], now);
    }
  }

  lemma StepMeetsNoTtl(s: State, step: Step)
    requires PrimaryDurability.Durable(s) && Timeless(s) && Enabled(s, step)
    requires step.Acquire? ==> NoTtl(step.argv)
    ensures StepMeets(s, step, NoTtl)
  {
    hide NoTtl, WfContent, AofRewrite.Program, Meets, Live, PrimaryDurability.FileOk, PrimaryDurability.Rebuilds;
    match step
    case Mutate(_, evicted) =>
      forall i | 0 <= i < |evicted| ensures NoTtl([DEL, evicted[i]]) {
        DeletionSetsNoTtl(evicted[i]);
      }
    case RewriteOk(items) => ProgramSetsNoTtl(items, s.clock);
    case _ =>
  }

  lemma ApplyNoTtl(argv: Argv, t: int, ks: Keyspace)
    requires NoTtl(argv) && TtlFree(ks)
    ensures TtlFree(Apply(argv, t, ks).ks)
  {
    hide Understand, Run, TtlFree, SetsNoTtl;
    RunTtlFree(Understand(argv), t, t, ks);
  }

  lemma TtlFreeLater(ks: Keyspace, ks': Keyspace, t: int, u: int)
    requires TtlFree(Live(ks, t)) && t <= u && Agree(ks, ks', u)
    ensures TtlFree(Live(ks', u))
  {
    LiveOfLive(ks, t, u);
  }

  lemma MutateKeepsTtlFree(s: State, oom: bool, evicted: seq<Bytes>)
    requires TtlFree(Live(s.store, s.clock)) && s.phase.Ready? && NoTtl(s.phase.argv)
    ensures TtlFree(Live(DoMutate(s, oom, evicted).store, s.clock))
  {
    hide NoTtl, Apply, Live, Deletions;
    var s' := DoMutate(s, oom, evicted);
    var before := Live(s.store, s.clock);
    LiveOfLive(s.store, s.clock, s.clock);
    ApplyNoTtl(s.phase.argv, s.clock, before);
    PrimaryConvergence.LiveTtlFree(before, s.clock);
    if s'.store != s.store {
      PrimaryConvergence.LiveTtlFree(s'.store, s.clock);
    }
  }

  lemma StepKeepsTimeless(s: State, step: Step)
    requires PrimaryDurability.Durable(s) && Timeless(s) && Enabled(s, step)
    requires step.Acquire? ==> NoTtl(step.argv)
    ensures Timeless(Do(s, step))
  {
    hide NoTtl, Apply, Live, Payload, LazyExpiry.SweepStep, AofRewrite.Program, CommandLog.EncodeLog, PropagateLink,
      TakeBatchLink, Enumerates, IsWrite, Meets, TtlFree, PrimaryDurability.Durable, StepMeets, DoMutate, DoPropagate;
    var s' := Do(s, step);
    StepMeetsNoTtl(s, step);
    StepKeepsMeets(s, step, NoTtl);
    LiveOfLive(s.store, s.clock, s.clock);
    if step.Mutate? {
      assert NoTtl(s.phase.argv) by { ReadyMeets(s, NoTtl); }
      MutateKeepsTtlFree(s, step.oom, step.evicted);
      MutateKeepsFlags(s, step.oom, step.evicted);
    } else {
      if step.Sweep? {
        LazyExpiry.LiveAfterSweepStep(s.store, step.sample, s.clock, s.clock);
      } else if step.Read? {
        LazyExpiry.NonWriteChangesNothing(step.argv, s.clock, s.store);
      }
      if step.PropagateOne? {
        PropagateKeepsFlags(s, step.broken);
      }
      TtlFreeLater(s.store, s'.store, s.clock, s'.clock);
    }
  }

  lemma ReadyMeets(s: State, p: Argv -> bool)
    requires Meets(s, p) && s.phase.Ready?
    ensures p(s.phase.argv)
  {
  }

  lemma MutateKeepsFlags(s: State, oom: bool, evicted: seq<Bytes>)
    requires s.phase.Ready?
    ensures var s' := DoMutate(s, oom, evicted);
            !s'.phase.Rewriting? && s'.faithful == s.faithful && s'.clock == s.clock
  {
    hide Apply, Live;
  }

  lemma PropagateKeepsFlags(s: State, broken: set<ConnId>)
    requires s.phase.Propagate? && s.phase.todo != []
    ensures var s' := DoPropagate(s, broken);
            && !s'.phase.Rewriting? && s'.faithful == s.faithful
            && s'.clock == s.clock && s'.store == s.store
  {
    hide PropagateLink, Payload;
  }

  lemma {:induction false} RunKeepsTimeless(s: State, steps: seq<Step>)
    requires PrimaryDurability.Durable(s) && Timeless(s) && RunSteps(s, steps).Some? && AsksNoTtl(steps)
    ensures PrimaryDurability.Durable(RunSteps(s, steps).value) && Timeless(RunSteps(s, steps).value)
    decreases |steps|
  {
    hide Do, Enabled, PrimaryDurability.Durable, Timeless, NoTtl;
    if steps != [] {
      StepKeepsTimeless(s, steps[0]);
      PrimaryDurability.StepKeepsDurable(s, steps[0]);
      RunKeepsTimeless(Do(s, steps[0]), steps[1..]);
    }
  }

  /** A server whose store was rebuilt from a file without deadlines, or is empty. */
  predicate TimelessStart(s: State) {
    Init(s) && s.faithful && LogSetsNoTtl(s.aofLog)
  }

  lemma StartTimeless(s: State)
    requires TimelessStart(s)
    ensures PrimaryDurability.Durable(s) && Timeless(s)
  {
    hide Wf, Replay, Live, PrimaryDurability.Durable, CommandLog.EncodeLog, Understand;
    PrimaryDurability.InitDurable(s);
    ReplayTimeless(map[], s.aofLog, s.aofLog);
    PrimaryConvergence.LiveTtlFree(Replay(map[], s.aofLog), s.clock);
  }

  /** Clients that set no deadline never make the file lose its meaning: after any run from
      such a start, with the write lock free and the file healthy, its commands replayed at
      any times rebuild exactly the live keyspace. */
  lemma LogRebuildsStoreWithoutTtl(s0: State, steps: seq<Step>, s: State, log: seq<Timed>)
    requires TimelessStart(s0) && AsksNoTtl(steps) && RunSteps(s0, steps) == Some(s)
    requires s.phase.Free? && s.healthy && s.cfg.aofEnabled && Argvs(log) == Argvs(s.aofLog)
    ensures Replay(map[], log) == Live(s.store, s.clock)
    ensures s.faithful && s.unlogged == [] && LogSetsNoTtl(s.aofLog)
  {
    hide RunSteps, AsksNoTtl, Replay, Live, Argvs, Understand, PrimaryDurability.Durable, Init;
    StartTimeless(s0);
    RunKeepsTimeless(s0, steps);
    assert Reachable(s);
    PrimaryDurability.FileRebuildsStoreIff(s);
    PrimaryConvergence.ReplayNothing(Replay(map[], s.aofLog));
    ReplayTimeless(map[], s.aofLog, log);
    PrimaryConvergence.LiveTtlFree(Replay(map[], log), s.clock);
  }

  /** The same of the bytes of the file. */
  lemma FileRebuildsStoreWithoutTtl(s0: State, steps: seq<Step>, s: State, log: seq<Timed>, lim: Resp.Limits,
                                    maxBuffer: nat, maxFile: nat, recode: Bytes -> Bytes)
    requires TimelessStart(s0) && AsksNoTtl(steps) && RunSteps(s0, steps) == Some(s)
    requires s.phase.Free? && s.healthy && s.cfg.aofEnabled && PrimaryDurability.Readable(s, lim, maxBuffer, maxFile)
    requires Argvs(log) == Argvs(s.aofLog)
    ensures CommandLog.ReadLog(s.file, lim, maxBuffer, maxFile, recode) == CommandLog.Commands(Argvs(log))
    ensures Replay(map[], log) == Live(s.store, s.clock)
  {
    hide RunSteps, AsksNoTtl, Replay, Live, Argvs, CommandLog.ReadLog, PrimaryDurability.Readable, Understand, Init;
    LogRebuildsStoreWithoutTtl(s0, steps, s, log);
    assert Reachable(s);
    PrimaryDurability.FileRebuildsStore(s, lim, maxBuffer, maxFile, recode);
  }
}
