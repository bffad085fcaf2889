/** The append-only file as a durable image of the store: over any run of writes, failed
    writes, evictions and rewrites, reading and replaying the file rebuilds the keyspace. */
module PrimaryDurability {
  import opened ByteStrings
  import opened Keyspace
  import opened Commands
  import opened TimedLog
  import opened Primary
  import Resp
  import LazyExpiry
  import AofRewrite
  import CommandLog
  import PrimaryConvergence
  import PrimaryStreams

  /** Mutated but not yet appended. */
  function Unlogged(p: Phase): seq<Timed> {
    if p.Append? then p.todo
    else if p.Propagate? && p.todo != [] then p.todo[1..]
    else []
  }

  predicate NoEmpty(log: seq<Timed>) {
    forall i :: 0 <= i < |log| ==> log[i].argv != []
  }

  /** Bytes left by an append that failed half way: a proper prefix of an encoded command. */
  predicate IsTorn(torn: Bytes, argv: Argv) {
    argv != [] && |torn| < |Resp.EncodeCommand(argv)| && torn == Resp.EncodeCommand(argv)[..|torn|]
  }

  predicate FileOk(s: State) {
    && s.file == CommandLog.EncodeLog(Argvs(s.aofLog)) + s.torn
    && NoEmpty(s.aofLog)
    && (s.torn != [] ==> IsTorn(s.torn, s.tornOf) && s.unlogged != [])
  }

  /** Only a failed append leaves commands out of the file, and it ends all writing. */
  predicate GapOk(s: State) {
    s.healthy || !s.cfg.aofEnabled || s.phase.Append? || s.phase.Propagate? ==> s.unlogged == []
  }

  /** What the store holds and the file does not. */
  function Behind(s: State): seq<Timed> { s.unlogged + Unlogged(s.phase) }

  predicate PhaseOk(s: State) {
    && (s.phase.Ready? ==> s.phase.argv != [])
    && (s.phase.Append? || s.phase.Propagate? ==> s.phase.todo != [] && NoEmpty(s.phase.todo))
    && (s.phase.Rewriting? ==> Agree(s.phase.entries, s.store, s.clock) && Wf(s.phase.entries))
  }

  predicate Sound(s: State) { FileOk(s) && PhaseOk(s) && GapOk(s) && Wf(s.store) }

  /** What was logged after the first `n` commands, with what is not logged yet, leads from
      `base` to the store. */
  predicate Stands(s: State, n: nat, base: Keyspace) {
    n <= |s.aofLog| && Agree(Replay(base, s.aofLog[n..] + Behind(s)), s.store, s.clock)
  }

  predicate Rebuilds(s: State) {
    s.faithful && s.cfg.aofEnabled ==> Stands(s, 0, map[])
  }

  predicate Durable(s: State) { Sound(s) && Rebuilds(s) }

  // ---- steps ---------------------------------------------------------------

  lemma WfLive(ks: Keyspace, t: int)
    requires Wf(ks)
    ensures Wf(Live(ks, t))
  {
  }

  lemma WfApply(argv: Argv, t: int, ks: Keyspace)
    requires Wf(ks)
    ensures Wf(Apply(argv, t, ks).ks)
  {
    hide Understand, Run, Wf;
    UnderstandSane(argv);
    RunKeepsWf(Understand(argv), t, ks);
  }

  lemma MutateKeeps(s: State, oom: bool, evicted: seq<Bytes>)
    requires Sound(s) && s.phase.Ready?
    ensures Sound(DoMutate(s, oom, evicted))
  {
    hide FileOk, Apply, Live, Wf;
    var s' := DoMutate(s, oom, evicted);
    WfLive(s.store, s.clock);
    WfApply(s.phase.argv, s.clock, Live(s.store, s.clock));
    WfMinus(Apply(s.phase.argv, s.clock, Live(s.store, s.clock)).ks, (set k | k in evicted));
    assert FileOk(s') by { SameFile(s, s'); }
  }

  lemma AgreeUnseen(s: State, s': State)
    requires s.phase.Ready? && exists oom, evicted :: s' == DoMutate(s, oom, evicted)
    requires s'.phase.Free?
    ensures Agree(s.store, s'.store, s'.clock)
  {
    hide Apply, Live;
    var before := Live(s.store, s.clock);
    LiveOfLive(s.store, s.clock, s.clock);
    if Apply(s.phase.argv, s.clock, before).reply.Err? {
      PrimaryConvergence.ErrorChangesNothing(s.phase.argv, s.clock, before);
    }
  }

  lemma WfMinus(ks: Keyspace, gone: set<Bytes>)
    requires Wf(ks)
    ensures Wf(ks - gone)
  {
  }

  lemma SameFile(s: State, s': State)
    requires FileOk(s) && s'.file == s.file && s'.aofLog == s.aofLog
    requires s'.torn == s.torn && s'.tornOf == s.tornOf && s'.unlogged == s.unlogged
    ensures FileOk(s')
  {
  }

  lemma AppendOkFile(s: State)
    requires FileOk(s) && GapOk(s) && Enabled(s, AppendOk) && NoEmpty(s.phase.todo)
    ensures FileOk(DoAppendOk(s))
  {
    hide Payload, CommandLog.EncodeLog, IsTorn, Argvs;
    if s.cfg.aofEnabled {
      LoggedOne(s.aofLog, s.phase.todo[0]);
      var base := CommandLog.EncodeLog(Argvs(s.aofLog));
      assert base + [] == base;
    }
  }

  lemma AppendOkKeeps(s: State)
    requires Sound(s) && Enabled(s, AppendOk)
    ensures Sound(DoAppendOk(s))
  {
    hide FileOk, Wf, Payload;
    AppendOkFile(s);
  }

  lemma LoggedOne(log: seq<Timed>, c: Timed)
    ensures CommandLog.EncodeLog(Argvs(log + [c])) == CommandLog.EncodeLog(Argvs(log)) + Payload(c)
  {
    hide Resp.EncodeCommand, CommandLog.EncodeLog;
    assert Argvs(log + [c]) == Argvs(log) + [c.argv];
    CommandLog.EncodeLogAppend(Argvs(log), [c.argv]);
    CommandLog.EncodeLogOne(c.argv);
  }

  lemma AppendFailFile(s: State, n: nat)
    requires FileOk(s) && GapOk(s) && Enabled(s, AppendFail(n)) && NoEmpty(s.phase.todo)
    ensures FileOk(DoAppendFail(s, n))
  {
    hide Payload, CommandLog.EncodeLog, Argvs, IsTorn;
    var s' := DoAppendFail(s, n);
    var c := s.phase.todo[0];
    PayloadNonempty(c);
    var base := CommandLog.EncodeLog(Argvs(s.aofLog));
    assert s.file == base + [];
    if n == |Payload(c)| {
      LoggedOne(s.aofLog, c);
      assert Payload(c)[..n] == Payload(c);
      assert s'.file == base + Payload(c) + [];
    } else {
      TornBy(c, n);
      assert s'.file == base + Payload(c)[..n];
    }
  }

  lemma TornBy(c: Timed, n: nat)
    requires n < |Payload(c)| && c.argv != []
    ensures IsTorn(Payload(c)[..n], c.argv)
  {
    hide Resp.EncodeCommand;
  }

  lemma AppendFailKeeps(s: State, n: nat)
    requires Sound(s) && Enabled(s, AppendFail(n))
    ensures Sound(DoAppendFail(s, n))
  {
    hide FileOk, Wf, Payload;
    AppendFailFile(s, n);
  }

  lemma PayloadNonempty(c: Timed)
    ensures Payload(c) != []
  {
    assert Payload(c)[0] == Resp.STAR;
  }

  /** A rewrite of a keyspace without deadlines replays to exactly that keyspace. */
  lemma RewriteExact(entries: Keyspace, items: seq<Item>, now: int)
    requires Wf(entries) && TtlFree(entries) && Enumerates(items, entries)
    ensures Replay(map[], Stamped(AofRewrite.Program(items, now), now)) == entries
  {
    hide Replay, AofRewrite.Program;
    var log := Stamped(AofRewrite.Program(items, now), now);
    assert Argvs(log) == AofRewrite.Program(items, now);
    AofRewrite.RewritePreserves(entries, items, log, now, 0);
    var r := Replay(map[], log);
    assert r.Keys == entries.Keys;
    assert forall k :: k in r ==> r[k] == entries[k];
  }

  lemma RewriteKeeps(s: State, items: seq<Item>)
    requires Sound(s) && Enabled(s, RewriteOk(items))
    ensures Durable(Do(s, RewriteOk(items)))
    ensures Do(s, RewriteOk(items)).cfg.aofEnabled ==>
              Stands(Do(s, RewriteOk(items)), |Do(s, RewriteOk(items)).aofLog|, s.phase.entries)
  {
    hide Agree, Wf, Replay, AofRewrite.Program, CommandLog.EncodeLog, Enumerates, TtlFree;
    var s' := Do(s, RewriteOk(items));
    var program := AofRewrite.Program(items, s.clock);
    AofRewrite.ProgramNoEmpty(items, s.clock);
    assert Argvs(s'.aofLog) == program;
    assert s'.file == CommandLog.EncodeLog(program) + [];
    assert s'.aofLog[|s'.aofLog|..] + Behind(s') == [];
    PrimaryConvergence.ReplayNothing(s.phase.entries);
    if s'.faithful {
      RewriteExact(s.phase.entries, items, s.clock);
      assert s'.aofLog[0..] + Behind(s') == s'.aofLog;
    }
  }

  /** The file left by a rewrite with deadlines, replayed within `delay` of its building: the
      rewritten entries with their contents, each live deadline later by less than a second
      plus the delay; and the shape of the snapshot exactly if nothing expired meanwhile. */
  lemma RewrittenFile(s: State, items: seq<Item>, log: seq<Timed>, delay: int)
    requires Sound(s) && Enabled(s, RewriteOk(items)) && AofRewrite.Within(log, s.clock, delay)
    requires Argvs(log) == Argvs(Do(s, RewriteOk(items)).aofLog)
    ensures var ks, out := s.phase.entries, Replay(map[], log);
            && Live(ks, s.clock) == Live(s.store, s.clock)
            && out.Keys == ks.Keys
            && (forall k :: k in out ==> AofRewrite.Rebuilt(ks[k], out[k], s.clock, delay))
            && (AofRewrite.SameShape(ks, out) <==> forall k :: k in ks ==> !IsExpired(ks[k].expireAt, s.clock))
  {
    hide Replay, Live, AofRewrite.Program, FileOk, AofRewrite.Rebuilt, CommandLog.EncodeLog;
    var ks := s.phase.entries;
    assert Argvs(log) == AofRewrite.Program(items, s.clock);
    AofRewrite.RewritePreserves(ks, items, log, s.clock, delay);
    AofRewrite.RewriteFaithfulIff(ks, items, log, s.clock, delay);
  }

  lemma PropagateKeeps(s: State, broken: set<ConnId>)
    requires Sound(s) && Enabled(s, PropagateOne(broken))
    ensures Sound(DoPropagate(s, broken))
  {
    hide FileOk, Wf, PropagateLink, Payload;
    assert FileOk(DoPropagate(s, broken)) by { SameFile(s, DoPropagate(s, broken)); }
  }

  predicate IsQuiet(step: Step) {
    PrimaryStreams.IsLinkStep(step) || step.Tick? || step.Sweep? || step.Read? || step.Acquire? || step.FsyncFail? ||
    step.Register? || step.TakeSnapshot? || step.RewriteBegin? || step.RewriteFail?
  }

  lemma QuietKeeps(s: State, step: Step)
    requires Sound(s) && Enabled(s, step) && IsQuiet(step)
    ensures Sound(Do(s, step))
  {
    hide FileOk, Wf, Live, LazyExpiry.SweepStep, Apply;
    var s' := Do(s, step);
    assert FileOk(s') by { SameFile(s, s'); }
    WfLive(s.store, s.clock);
    QuietUnseen(s, step);
    LiveOfLive(s.store, s.clock, s.clock);
    if step.Sweep? {
      WfSweep(s.store, step.sample, s.clock);
    } else if step.Read? {
      WfApply(step.argv, s.clock, s.store);
    }
    if s.phase.Rewriting? {
      PrimaryConvergence.AgreeLater(s.phase.entries, s.store, s.clock, s'.clock);
    }
  }

  /** Such a step does not show in the live view. */
  lemma QuietUnseen(s: State, step: Step)
    requires Enabled(s, step) && IsQuiet(step)
    ensures s.clock <= Do(s, step).clock && Agree(s.store, Do(s, step).store, Do(s, step).clock)
  {
    hide Live, LazyExpiry.SweepStep, Payload, PropagateLink, TakeBatchLink, Enumerates, IsWrite, Apply;
    LiveOfLive(s.store, s.clock, s.clock);
    if step.Sweep? {
      LazyExpiry.LiveAfterSweepStep(s.store, step.sample, s.clock, s.clock);
    } else if step.Read? {
      LazyExpiry.NonWriteChangesNothing(step.argv, s.clock, s.store);
    }
  }

  lemma WfSweep(ks: Keyspace, sample: set<Bytes>, t: int)
    requires Wf(ks)
    ensures Wf(LazyExpiry.SweepStep(ks, sample, t))
  {
  }

  lemma StepKeepsSound(s: State, step: Step)
    requires Sound(s) && Enabled(s, step)
    ensures Sound(Do(s, step))
  {
    hide Sound;
    if IsQuiet(step) {
      QuietKeeps(s, step);
    } else if step.Mutate? {
      MutateKeeps(s, step.oom, step.evicted);
    } else if step.AppendOk? {
      AppendOkKeeps(s);
    } else if step.AppendFail? {
      AppendFailKeeps(s, step.written);
    } else if step.PropagateOne? {
      PropagateKeeps(s, step.broken);
    } else {
      RewriteKeeps(s, step.items);
    }
  }

  // ---- the file and the store ----------------------------------------------

  /** A change that neither the live view nor the commands logged and to be logged show. */
  lemma SameStands(s: State, s': State, n: nat, base: Keyspace)
    requires Stands(s, n, base) && n <= |s'.aofLog|
    requires s'.aofLog[n..] + Behind(s') == s.aofLog[n..] + Behind(s)
    requires s.clock <= s'.clock && Agree(s.store, s'.store, s'.clock)
    ensures Stands(s', n, base)
  {
    hide Live, Replay, Behind;
    PrimaryConvergence.AgreeLater(Replay(base, s.aofLog[n..] + Behind(s)), s.store, s.clock, s'.clock);
  }

  /** A write that succeeds: its commands are the ones still to be logged. */
  lemma WriteStands(s: State, evicted: seq<Bytes>, n: nat, base: Keyspace)
    requires Stands(s, n, base) && GapOk(s) && s.phase.Ready? && DoMutate(s, false, evicted).phase.Append?
    ensures Stands(DoMutate(s, false, evicted), n, base)
  {
    hide Apply, Live, Replay, Agree;
    var s' := DoMutate(s, false, evicted);
    var past := s.aofLog[n..];
    assert past + Behind(s) == past && Behind(s') == s'.phase.todo;
    PrimaryConvergence.WriteAgrees(Replay(base, past), s.store, s.phase.argv, s.clock, evicted);
    ReplayAppend(base, past, s'.phase.todo);
  }

  lemma MutateStands(s: State, oom: bool, evicted: seq<Bytes>, n: nat, base: Keyspace)
    requires Stands(s, n, base) && GapOk(s) && s.phase.Ready?
    ensures Stands(DoMutate(s, oom, evicted), n, base)
  {
    hide Apply, Live, Stands, Agree;
    var s' := DoMutate(s, oom, evicted);
    if s'.phase.Append? {
      WriteStands(s, evicted, n, base);
    } else {
      AgreeUnseen(s, s');
      assert Behind(s') == Behind(s);
      assert n <= |s.aofLog| by { StandsWithin(s, n, base); }
      SameStands(s, s', n, base);
    }
  }

  lemma StandsWithin(s: State, n: nat, base: Keyspace)
    requires Stands(s, n, base)
    ensures n <= |s.aofLog|
  {
  }

  /** Logging and propagating move commands along. */
  lemma LoggingStands(s: State, step: Step, n: nat, base: Keyspace)
    requires Stands(s, n, base) && GapOk(s) && PhaseOk(s) && Enabled(s, step) && s.cfg.aofEnabled
    requires step.AppendOk? || step.AppendFail? || step.PropagateOne?
    ensures Stands(Do(s, step), n, base)
  {
    hide Payload, DoAppendOk, DoAppendFail, DoPropagate, Live, Replay, CommandLog.EncodeLog, LazyExpiry.SweepStep,
      DoMutate, IsWrite, Agree;
    if step.AppendOk? {
      AppendOkMoves(s, n);
    } else if step.AppendFail? {
      AppendFailMoves(s, step.written, n);
    } else {
      PropagateMoves(s, step.broken);
    }
    assert Agree(s.store, s.store, s.clock) by { SameAgrees(s.store, s.clock); }
    SameStands(s, Do(s, step), n, base);
  }

  lemma SameAgrees(ks: Keyspace, t: int)
    ensures Agree(ks, ks, t)
  {
  }

  lemma AppendOkMoves(s: State, n: nat)
    requires GapOk(s) && Enabled(s, AppendOk) && s.cfg.aofEnabled && n <= |s.aofLog|
    ensures var s' := DoAppendOk(s);
            && n <= |s'.aofLog| && s'.aofLog[n..] + Behind(s') == s.aofLog[n..] + Behind(s)
            && s'.store == s.store && s'.clock == s.clock
  {
    hide Payload;
  }

  lemma AppendFailMoves(s: State, written: nat, n: nat)
    requires GapOk(s) && Enabled(s, AppendFail(written)) && n <= |s.aofLog|
    ensures var s' := DoAppendFail(s, written);
            && n <= |s'.aofLog| && s'.aofLog[n..] + Behind(s') == s.aofLog[n..] + Behind(s)
            && s'.store == s.store && s'.clock == s.clock
  {
    hide Payload;
    PayloadNonempty(s.phase.todo[0]);
  }

  lemma PropagateMoves(s: State, broken: set<ConnId>)
    requires GapOk(s) && Enabled(s, PropagateOne(broken))
    ensures var s' := DoPropagate(s, broken);
            && s'.aofLog == s.aofLog && Behind(s') == Behind(s) && s'.store == s.store && s'.clock == s.clock
  {
    hide Payload, PropagateLink;
  }

  /** Between two rewrites, the commands logged since the first lead from what it compiled
      to the store: every step keeps that. */
  lemma StepKeepsStands(s: State, step: Step, n: nat, base: Keyspace)
    requires Sound(s) && s.cfg.aofEnabled && Stands(s, n, base) && Enabled(s, step) && !step.RewriteOk?
    ensures Stands(Do(s, step), n, base)
  {
    hide FileOk, Wf, Stands, Live, Payload, PropagateLink, TakeBatchLink, LazyExpiry.SweepStep, CommandLog.EncodeLog,
      DoMutate, IsWrite, PhaseOk, GapOk, Agree;
    if step.Mutate? {
      MutateStands(s, step.oom, step.evicted, n, base);
    } else if step.AppendOk? || step.AppendFail? || step.PropagateOne? {
      LoggingStands(s, step, n, base);
    } else {
      QuietUnseen(s, step);
      StandsWithin(s, n, base);
      assert Behind(Do(s, step)) == Behind(s);
      SameStands(s, Do(s, step), n, base);
    }
  }

  lemma StepKeepsDurable(s: State, step: Step)
    requires Durable(s) && Enabled(s, step)
    ensures Durable(Do(s, step))
  {
    hide Sound, Stands, DoMutate, DoPropagate, Payload, CommandLog.EncodeLog, LazyExpiry.SweepStep, TakeBatchLink,
      IsWrite, Enumerates, Live;
    if step.RewriteOk? {
      RewriteKeeps(s, step.items);
    } else {
      StepKeepsSound(s, step);
      SameFlags(s, step);
      if s.faithful && s.cfg.aofEnabled {
        StepKeepsStands(s, step, 0, map[]);
      }
    }
  }

  lemma SameFlags(s: State, step: Step)
    requires Enabled(s, step)
    ensures Do(s, step).cfg == s.cfg
    ensures !step.RewriteOk? ==> Do(s, step).faithful == s.faithful
  {
    hide Apply, Live, Payload, LazyExpiry.SweepStep, AofRewrite.Program, CommandLog.EncodeLog, PropagateLink,
      TakeBatchLink, Enumerates, IsWrite, TtlFree;
  }

  lemma {:induction false} RunKeepsDurable(s: State, steps: seq<Step>)
    requires Durable(s) && RunSteps(s, steps).Some?
    ensures Durable(RunSteps(s, steps).value)
    decreases |steps|
  {
    hide Do, Enabled, Durable;
    if steps != [] {
      StepKeepsDurable(s, steps[0]);
      RunKeepsDurable(Do(s, steps[0]), steps[1..]);
    }
  }

  lemma InitDurable(s: State)
    requires Init(s)
    ensures Durable(s)
  {
    hide Wf, Replay, Live;
    assert s.file + [] == s.file;
    assert s.aofLog[0..] + Behind(s) == s.aofLog;
  }

  lemma ReachableIsDurable(s: State)
    requires Reachable(s)
    ensures Durable(s)
  {
    hide Init, RunSteps, Durable;
    var s0, steps :| Init(s0) && RunSteps(s0, steps) == Some(s);
    InitDurable(s0);
    RunKeepsDurable(s0, steps);
  }

  // ---- results -------------------------------------------------------------

  /** The reader's limits, large enough for this file. */
  predicate Readable(s: State, lim: Resp.Limits, maxBuffer: nat, maxFile: nat) {
    CommandLog.AllFitLog(Argvs(s.aofLog), lim) && |s.file| <= maxBuffer && |s.file| <= maxFile
  }

  /** In every reachable state, also after an append failed half way, the file loads exactly
      if its commands fit the reader's limits and its size both the file limit and the
      reader's buffer, and then it yields exactly the whole commands it holds. */
  lemma FileLoadsIff(s: State, lim: Resp.Limits, maxBuffer: nat, maxFile: nat, recode: Bytes -> Bytes)
    requires Reachable(s) && (s.torn != [] ==> CommandLog.CommandFits(s.tornOf, lim))
    ensures var read := CommandLog.ReadLog(s.file, lim, maxBuffer, maxFile, recode);
            && (read.Commands? <==> Readable(s, lim, maxBuffer, maxFile))
            && (read.Commands? ==> read == CommandLog.Commands(Argvs(s.aofLog)))
  {
    hide Reachable, CommandLog.ReadLog, CommandLog.EncodeLog, CommandLog.CommandFits, Resp.EncodeCommand, Resp.Parse;
    ReachableIsDurable(s);
    if s.torn == [] {
      CommandLog.EmptyIsIncomplete(lim);
    } else {
      CommandLog.CommandPrefixIncomplete(s.tornOf, |s.torn|, lim);
    }
    CommandLog.ReadableIffFits(Argvs(s.aofLog), s.torn, lim, maxBuffer, maxFile, recode);
  }

  /** Whenever the write lock is free, replaying the file's commands, at the master's times
      and without memory limit, from an empty store rebuilds the live keyspace exactly if
      what a failed append left out of the file changes nothing visible; in particular if
      no append has failed. */
  lemma FileRebuildsStoreIff(s: State)
    requires Reachable(s) && s.phase.Free? && s.cfg.aofEnabled && s.faithful
    ensures var r := Replay(map[], s.aofLog);
            Live(r, s.clock) == Live(s.store, s.clock) <==> Live(r, s.clock) == Live(Replay(r, s.unlogged), s.clock)
    ensures s.healthy ==> s.unlogged == []
  {
    hide Reachable, Replay, Live, FileOk, PhaseOk, Wf;
    ReachableIsDurable(s);
    assert s.aofLog[0..] + Behind(s) == s.aofLog + s.unlogged;
    ReplayAppend(map[], s.aofLog, s.unlogged);
  }

  /** The bytes of the file: reading them returns the logged commands, and these rebuild
      the live keyspace. */
  lemma FileRebuildsStore(s: State, lim: Resp.Limits, maxBuffer: nat, maxFile: nat, recode: Bytes -> Bytes)
    requires Reachable(s) && s.phase.Free? && s.cfg.aofEnabled && s.faithful && s.unlogged == []
    requires Readable(s, lim, maxBuffer, maxFile)
    ensures CommandLog.ReadLog(s.file, lim, maxBuffer, maxFile, recode) == CommandLog.Commands(Argvs(s.aofLog))
    ensures Live(Replay(map[], s.aofLog), s.clock) == Live(s.store, s.clock)
  {
    hide Reachable, Live, Readable, CommandLog.ReadLog, CommandLog.EncodeLog, Argvs;
    assert s.torn == [] by { ReachableIsDurable(s); }
    FileLoadsIff(s, lim, maxBuffer, maxFile, recode);
    FileRebuildsStoreIff(s);
  }
}
