/** Clients that set no deadline leave none in any replica's snapshot or stream. */
module TimelessLinks {
  import opened ByteStrings
  import opened Keyspace
  import opened Commands
  import opened TimedLog
  import opened Primary
  import LazyExpiry
  import AofRewrite
  import CommandLog
  import PrimaryConvergence
  import PrimaryStreams
  import opened LoggedCommands

  /** No live entry, no command on its way or given to the links, and no snapshot has one. */
  predicate Untimed(s: State) {
    && TtlFree(Live(s.store, s.clock))
    && (s.phase.Ready? ==> NoTtl(s.phase.argv))
    && AllMeet(PrimaryConvergence.Todo(s.phase), NoTtl) && AllMeet(s.history, NoTtl)
    && forall id :: id in s.links ==> TtlFree(s.links[id].snapshot)
  }

  predicate UntimedStart(s: State) { Init(s) && TtlFree(Live(s.store, s.clock)) }

  lemma SnapshotsUntimed(s: State, step: Step)
    requires Untimed(s) && Enabled(s, step)
    ensures forall id :: id in Do(s, step).links ==> TtlFree(Do(s, step).links[id].snapshot)
  {
    hide Do, Enabled, Live, NoTtl;
    PrimaryStreams.SnapshotsFrom(s, step);
  }

  lemma MutateUntimed(s: State, oom: bool, evicted: seq<Bytes>)
    requires Untimed(s) && s.phase.Ready?
    ensures var s' := DoMutate(s, oom, evicted);
            && TtlFree(Live(s'.store, s'.clock)) && !s'.phase.Ready?
            && AllMeet(PrimaryConvergence.Todo(s'.phase), NoTtl) && s'.history == s.history
  {
    hide NoTtl, Apply, Live, TtlFree;
    MutateKeepsTtlFree(s, oom, evicted);
    forall i | 0 <= i < |evicted| ensures NoTtl([DEL, evicted[i]]) {
      DeletionSetsNoTtl(evicted[i]);
    }
  }

  lemma StoreUntimed(s: State, step: Step)
    requires Untimed(s) && Enabled(s, step) && !step.Mutate?
    ensures TtlFree(Live(Do(s, step).store, Do(s, step).clock))
  {
    hide NoTtl, Apply, Live, Payload, LazyExpiry.SweepStep, AofRewrite.Program, CommandLog.EncodeLog, PropagateLink,
      TakeBatchLink, Enumerates, IsWrite, TtlFree, DoMutate;
    LiveOfLive(s.store, s.clock, s.clock);
    if step.Sweep? {
      LazyExpiry.LiveAfterSweepStep(s.store, step.sample, s.clock, s.clock);
    } else if step.Read? {
      LazyExpiry.NonWriteChangesNothing(step.argv, s.clock, s.store);
    }
    TtlFreeLater(s.store, Do(s, step).store, s.clock, Do(s, step).clock);
  }

  /** Commands move from the phase to the history. */
  lemma CommandsUntimed(s: State, step: Step)
    requires Untimed(s) && Enabled(s, step) && !step.Mutate? && (step.Acquire? ==> NoTtl(step.argv))
    ensures var s' := Do(s, step);
            && (s'.phase.Ready? ==> NoTtl(s'.phase.argv))
            && AllMeet(PrimaryConvergence.Todo(s'.phase), NoTtl) && AllMeet(s'.history, NoTtl)
  {
    hide NoTtl, Apply, Live, Payload, LazyExpiry.SweepStep, AofRewrite.Program, CommandLog.EncodeLog, DoPropagate,
      TakeBatchLink, Enumerates, IsWrite, TtlFree, DoMutate, AllMeet;
    NothingMeets(NoTtl);
    if step.PropagateOne? {
      PropagateUntimed(s, step.broken);
    }
  }

  lemma NothingMeets(p: Argv -> bool)
    ensures AllMeet([], p)
  {
  }

  lemma PropagateUntimed(s: State, broken: set<ConnId>)
    requires s.phase.Propagate? && s.phase.todo != [] && AllMeet(s.phase.todo, NoTtl) && AllMeet(s.history, NoTtl)
    ensures var s' := DoPropagate(s, broken);
            !s'.phase.Ready? && AllMeet(PrimaryConvergence.Todo(s'.phase), NoTtl) && AllMeet(s'.history, NoTtl)
  {
    hide NoTtl, PropagateLink, Payload;
  }

  lemma StepKeepsUntimed(s: State, step: Step)
    requires Untimed(s) && Enabled(s, step) && (step.Acquire? ==> NoTtl(step.argv))
    ensures Untimed(Do(s, step))
  {
    hide NoTtl, Live, TtlFree, AllMeet, DoMutate, PrimaryConvergence.Todo, LazyExpiry.SweepStep, CommandLog.EncodeLog,
      DoPropagate, DoAppendOk, DoAppendFail, TakeBatchLink, Payload, IsWrite, Enumerates;
    SnapshotsUntimed(s, step);
    if step.Mutate? {
      MutateUntimed(s, step.oom, step.evicted);
    } else {
      StoreUntimed(s, step);
      CommandsUntimed(s, step);
    }
  }

  lemma {:induction false} RunKeepsUntimed(s: State, steps: seq<Step>)
    requires Untimed(s) && RunSteps(s, steps).Some? && AsksNoTtl(steps)
    ensures Untimed(RunSteps(s, steps).value)
    decreases |steps|
  {
    hide Do, Enabled, Untimed, NoTtl;
    if steps != [] {
      StepKeepsUntimed(s, steps[0]);
      RunKeepsUntimed(Do(s, steps[0]), steps[1..]);
    }
  }

  /** After any run of commands that set no deadline, from a store without live ones, a link's
      snapshot and everything propagated since are free of them. */
  lemma LinksAreUntimed(s0: State, steps: seq<Step>, s: State, id: ConnId)
    requires UntimedStart(s0) && AsksNoTtl(steps) && RunSteps(s0, steps) == Some(s)
    requires id in s.links && s.links[id].from <= |s.history|
    ensures TtlFree(s.links[id].snapshot) && LogSetsNoTtl(s.history[s.links[id].from..])
  {
    hide RunSteps, AsksNoTtl, Live, TtlFree, Understand;
    RunKeepsUntimed(s0, steps);
  }

  /** So every alive link that missed no failed append replays, at any times, to exactly the
      master's live keyspace. */
  lemma ReplicasConvergeOverRuns(s0: State, steps: seq<Step>, s: State, id: ConnId, log: seq<Timed>)
    requires UntimedStart(s0) && AsksNoTtl(steps) && RunSteps(s0, steps) == Some(s)
    requires s.phase.Free? && PrimaryConvergence.Served(s, id) && id !in s.missed
    requires s.links[id].from <= |s.history| && Argvs(log) == Argvs(s.history[s.links[id].from..])
    ensures Replay(s.links[id].snapshot, log) == Live(s.store, s.clock)
  {
    hide RunSteps, AsksNoTtl, Live, TtlFree, LogSetsNoTtl, Replay, Init;
    assert Reachable(s);
    LinksAreUntimed(s0, steps, s, id);
    PrimaryConvergence.ReplicasConvergeWithoutTtl(s, id, log);
  }
}
