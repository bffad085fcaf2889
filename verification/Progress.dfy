/** What the master can always still do: finish the work of whoever holds the write lock,
    bring a syncing replica live, and nothing else changes meanwhile. */
module Progress {
  import opened ByteStrings
  import opened Keyspace
  import opened Commands
  import opened TimedLog
  import opened Primary
  import LazyExpiry
  import AofRewrite
  import CommandLog
  import PrimaryStreams
  import PrimaryConvergence

  // ---- resynchronisation ---------------------------------------------------

  /** A sequence of steps that belong to one connection. */
  predicate OnlyLink(steps: seq<Step>, id: ConnId) {
    forall i :: 0 <= i < |steps| ==> PrimaryStreams.IsLinkStep(steps[i]) && steps[i].id == id
  }

  lemma TwoSteps(s: State, first: Step, rest: seq<Step>)
    requires Enabled(s, first)
    ensures RunSteps(s, [first] + rest) == RunSteps(Do(s, first), rest)
  {
    hide Do, Enabled;
    assert ([first] + rest)[1..] == rest;
  }

  /** Only the link `id` differs. */
  predicate SameButLink(s: State, s': State, id: ConnId) {
    id in s'.links && s' == s.(links := s.links[id := s'.links[id]])
  }

  /** A batch that has been taken can be written, and the next round taken. */
  lemma FlushBatch(s: State, id: ConnId) returns (steps: seq<Step>)
    requires id in s.links && s.links[id].rdbSent && !s.links[id].live
    ensures OnlyLink(steps, id) && RunSteps(s, steps).Some?
    ensures var s' := RunSteps(s, steps).value;
            && SameButLink(s, s', id)
            && s'.links[id] == s.links[id].(sent := s.links[id].sent + s.links[id].inflight, inflight := [])
  {
    hide TakeBatchLink, DoMutate, DoPropagate, DoAppendOk, DoAppendFail, LazyExpiry.SweepStep, Live, Payload,
      CommandLog.EncodeLog, IsWrite, Enumerates;
    var l := s.links[id];
    if l.inflight == [] {
      steps := [];
      assert l.sent + l.inflight == l.sent;
      assert s.links[id := l] == s.links;
    } else {
      steps := [WriteBatch(id, |l.inflight|)];
      assert l.inflight[..|l.inflight|] == l.inflight && l.inflight[|l.inflight|..] == [];
      TwoSteps(s, steps[0], []);
      assert steps == [steps[0]] + [];
    }
  }

  lemma {:induction false} RunAppend(s: State, a: seq<Step>, b: seq<Step>)
    requires RunSteps(s, a).Some?
    ensures RunSteps(s, a + b) == RunSteps(RunSteps(s, a).value, b)
    decreases |a|
  {
    hide Do, Enabled;
    if a == [] {
      assert a + b == b;
    } else {
      assert (a + b)[1..] == a[1..] + b;
      RunAppend(Do(s, a[0]), a[1..], b);
    }
  }

  /** One round of the flush loop: what was taken is written, then the backlog is taken, or
      the link goes live when there is none. */
  lemma FlushRound(s: State, id: ConnId) returns (steps: seq<Step>)
    requires id in s.links && s.links[id].rdbSent && !s.links[id].live
    ensures OnlyLink(steps, id) && RunSteps(s, steps).Some?
    ensures var l, s' := s.links[id], RunSteps(s, steps).value;
            && SameButLink(s, s', id)
            && s'.links[id] == TakeBatchLink(l.(sent := l.sent + l.inflight, inflight := []), s.offset)
  {
    hide TakeBatchLink, DoMutate, DoPropagate, DoAppendOk, DoAppendFail, LazyExpiry.SweepStep, Live, Payload,
      CommandLog.EncodeLog, IsWrite, Enumerates, RunSteps;
    var first := FlushBatch(s, id);
    var s1 := RunSteps(s, first).value;
    RunAppend(s, first, [TakeBatch(id)]);
    assert RunSteps(s1, [TakeBatch(id)]) == Some(Do(s1, TakeBatch(id))) by { OneStep(s1, TakeBatch(id)); }
    steps := first + [TakeBatch(id)];
  }

  lemma OneStep(s: State, step: Step)
    requires Enabled(s, step)
    ensures RunSteps(s, [step]) == Some(Do(s, step))
  {
    hide Do, Enabled;
    assert [step][1..] == [];
    assert RunSteps(Do(s, step), []) == Some(Do(s, step));
  }

  /** From every reachable state, whoever holds the lock, an alive link that has its snapshot
      can go live by steps of its own connection alone, with everything propagated since
      the snapshot on the wire and nothing else of the server changed. */
  lemma SyncCompletes(s: State, id: ConnId) returns (steps: seq<Step>)
    requires Reachable(s) && PrimaryConvergence.Served(s, id)
    ensures OnlyLink(steps, id) && RunSteps(s, steps).Some?
    ensures var s' := RunSteps(s, steps).value;
            && SameButLink(s, s', id) && s'.links[id].live && s'.links[id].alive && s'.links[id].registered
            && s.links[id].from <= |s.history|
            && s'.links[id].sent == PrimaryStreams.Encoded(s.history[s.links[id].from..])
  {
    hide Reachable, RunSteps, PrimaryStreams.Encoded, TotalLength;
    PrimaryStreams.StreamsAreExact(s, id);
    PrimaryStreams.LiveIsFlushed(s, id);
    var l := s.links[id];
    assert s.history[l.from..l.upTo] == s.history[l.from..];
    if l.live {
      steps := [];
      assert RunSteps(s, []) == Some(s) by { NoSteps(s); }
      assert s.links[id := l] == s.links;
      assert l.sent + l.inflight + l.backlog == l.sent;
    } else {
      steps := SyncFromHere(s, id);
    }
  }

  lemma NoSteps(s: State)
    ensures RunSteps(s, []) == Some(s)
  {
  }

  lemma SyncFromHere(s: State, id: ConnId) returns (steps: seq<Step>)
    requires id in s.links && s.links[id].snapped && !s.links[id].live
    ensures OnlyLink(steps, id) && RunSteps(s, steps).Some?
    ensures var l, s' := s.links[id], RunSteps(s, steps).value;
            && SameButLink(s, s', id) && s'.links[id].live
            && s'.links[id].snapshot == l.snapshot && s'.links[id].from == l.from
            && s'.links[id].alive == l.alive && s'.links[id].registered == l.registered
            && s'.links[id].sent == l.sent + l.inflight + l.backlog
  {
    hide RunSteps, Do, Enabled, TakeBatchLink;
    var l := s.links[id];
    var start := SendSnapshot(s, id);
    var s0 := RunSteps(s, start).value;
    var a := FlushRound(s0, id);
    var s1 := RunSteps(s0, a).value;
    RunAppend(s, start, a);
    TakenOrLive(s0.links[id], s0.offset);
    if s1.links[id].live {
      steps := start + a;
    } else {
      var b := FlushRound(s1, id);
      TakenOrLive(s1.links[id], s1.offset);
      RunAppend(s, start + a, b);
      steps := start + a + b;
    }
  }

  lemma SendSnapshot(s: State, id: ConnId) returns (steps: seq<Step>)
    requires id in s.links && s.links[id].snapped
    ensures OnlyLink(steps, id) && RunSteps(s, steps).Some?
    ensures SameButLink(s, RunSteps(s, steps).value, id)
    ensures RunSteps(s, steps).value.links[id] == s.links[id].(rdbSent := true)
  {
    hide RunSteps, DoMutate, DoPropagate, DoAppendOk, DoAppendFail, LazyExpiry.SweepStep, Live, Payload,
      CommandLog.EncodeLog, IsWrite, Enumerates, TakeBatchLink;
    if s.links[id].rdbSent {
      steps := [];
      NoSteps(s);
      assert s.links[id := s.links[id]] == s.links;
    } else {
      steps := [SendRdb(id)];
      OneStep(s, SendRdb(id));
    }
  }

  /** A round on a link either finds nothing queued and goes live, or leaves nothing queued. */
  lemma TakenOrLive(l: Link, offset: nat)
    ensures var l' := TakeBatchLink(l.(sent := l.sent + l.inflight, inflight := []), offset);
            && l'.alive == l.alive && l'.registered == l.registered && l'.rdbSent == l.rdbSent
            && l'.snapshot == l.snapshot && l'.from == l.from
            && l'.sent + l'.inflight + l'.backlog == l.sent + l.inflight + l.backlog
            && (l'.live ==> l'.sent == l.sent + l.inflight + l.backlog || l.live)
            && (l.backlog == [] ==> l'.live && l'.sent == l.sent + l.inflight + l.backlog)
            && (l.backlog != [] ==> l'.live == l.live && l'.backlog == [])
  {
  }

  // ---- the holder of the lock ----------------------------------------------

  /** A write past its mutation, on a server that can log: everything left of it can be
      logged and propagated, in order and completely, and the lock is released. */
  lemma {:induction false} WriteCompletes(s: State) returns (steps: seq<Step>)
    requires s.phase.Append? && s.phase.todo != [] && (s.cfg.aofEnabled ==> s.healthy)
    ensures RunSteps(s, steps).Some?
    ensures var s' := RunSteps(s, steps).value;
            && s'.phase.Free? && s'.store == s.store && s'.clock == s.clock && s'.healthy == s.healthy
            && s'.history == s.history + s.phase.todo
            && s'.aofLog == (if s.cfg.aofEnabled then s.aofLog + s.phase.todo else s.aofLog)
            && s'.cfg == s.cfg && s'.unlogged == s.unlogged && s'.missed == s.missed
    decreases |s.phase.todo|
  {
    hide RunSteps, Do, Enabled;
    var first := OneCompletes(s);
    var s2 := RunSteps(s, first).value;
    var todo := s.phase.todo;
    assert [todo[0]] + todo[1..] == todo;
    if |todo| == 1 {
      steps := first;
      assert todo == [todo[0]];
    } else {
      var rest := WriteCompletes(s2);
      RunAppend(s, first, rest);
      steps := first + rest;
    }
  }

  /** The first of them is logged and propagated. */
  lemma OneCompletes(s: State) returns (steps: seq<Step>)
    requires s.phase.Append? && s.phase.todo != [] && (s.cfg.aofEnabled ==> s.healthy)
    ensures RunSteps(s, steps).Some?
    ensures var s', todo := RunSteps(s, steps).value, s.phase.todo;
            && s'.phase == (if |todo| == 1 then Free else Append(todo[1..]))
            && s'.store == s.store && s'.clock == s.clock && s'.healthy == s.healthy
            && s'.history == s.history + [todo[0]]
            && s'.aofLog == (if s.cfg.aofEnabled then s.aofLog + [todo[0]] else s.aofLog)
            && s'.cfg == s.cfg && s'.unlogged == s.unlogged && s'.missed == s.missed
  {
    hide RunSteps, PropagateLink, Payload, Live, LazyExpiry.SweepStep, CommandLog.EncodeLog, IsWrite, Enumerates,
      DoMutate, DoAppendFail, AnyRegistered;
    var s1 := Do(s, AppendOk);
    OneStep(s1, PropagateOne({}));
    TwoSteps(s, AppendOk, [PropagateOne({})]);
    steps := [AppendOk] + [PropagateOne({})];
  }

  /** In every reachable state the lock can be released again. */
  lemma LockIsReleased(s: State) returns (steps: seq<Step>)
    requires Reachable(s)
    ensures RunSteps(s, steps).Some? && RunSteps(s, steps).value.phase.Free?
  {
    hide Reachable, RunSteps, PropagateLink, Payload, Live, LazyExpiry.SweepStep, CommandLog.EncodeLog, IsWrite,
      Enumerates, Apply, PrimaryConvergence.LinkConverges;
    PrimaryConvergence.ReachableConverges(s);
    match s.phase
    case Free =>
      steps := [];
      NoSteps(s);
    case Ready(_) =>
      OneStep(s, Mutate(true, []));
      steps := [Mutate(true, [])];
    case Append(_) => steps := AppendEnds(s);
    case Propagate(todo) =>
      var s1 := Do(s, PropagateOne({}));
      OneStep(s, PropagateOne({}));
      var rest: seq<Step> := [];
      if s1.phase.Free? { NoSteps(s1); } else { rest := AppendEnds(s1); }
      RunAppend(s, [PropagateOne({})], rest);
      steps := [PropagateOne({})] + rest;
    case Snapshotting(_) =>
      OneStep(s, TakeSnapshot);
      steps := [TakeSnapshot];
    case Rewriting(_) =>
      OneStep(s, RewriteFail);
      steps := [RewriteFail];
  }

  lemma AppendEnds(s: State) returns (steps: seq<Step>)
    requires s.phase.Append? && s.phase.todo != []
    ensures RunSteps(s, steps).Some? && RunSteps(s, steps).value.phase.Free?
  {
    hide RunSteps, Payload;
    if s.cfg.aofEnabled && !s.healthy {
      OneStep(s, AppendFail(0));
      steps := [AppendFail(0)];
    } else {
      steps := WriteCompletes(s);
    }
  }

  /** With the lock free and logging possible, any write that is not an error can be applied,
      logged and propagated to the end: the store is as the command leaves it. */
  lemma WriteSucceeds(s: State, argv: Argv) returns (steps: seq<Step>)
    requires s.phase.Free? && (s.cfg.aofEnabled ==> s.healthy) && IsWrite(argv)
    requires !Apply(argv, s.clock, Live(s.store, s.clock)).reply.Err?
    ensures RunSteps(s, steps).Some?
    ensures var s' := RunSteps(s, steps).value;
            && s'.phase.Free? && s'.store == Apply(argv, s.clock, Live(s.store, s.clock)).ks
            && s'.history == s.history + [Timed(argv, s.clock)]
            && s'.aofLog == (if s.cfg.aofEnabled then s.aofLog + [Timed(argv, s.clock)] else s.aofLog)
  {
    hide RunSteps, Apply, Live, IsWrite, DoPropagate, DoAppendOk, DoAppendFail, LazyExpiry.SweepStep, Payload,
      CommandLog.EncodeLog, Enumerates, TakeBatchLink;
    var s1 := Do(s, Acquire(argv));
    var s2 := Do(s1, Mutate(false, []));
    var ks := Apply(argv, s.clock, Live(s.store, s.clock)).ks;
    assert ks - (set k | k in []) == ks;
    assert s2.phase.todo == [Timed(argv, s.clock)];
    OneStep(s1, Mutate(false, []));
    TwoSteps(s, Acquire(argv), [Mutate(false, [])]);
    var first := [Acquire(argv)] + [Mutate(false, [])];
    var rest := WriteCompletes(s2);
    RunAppend(s, first, rest);
    steps := first + rest;
  }

  /** With the lock free a new replica can register and go live, holding a snapshot of the
      live store and nothing more to apply. */
  lemma ReplicaCanJoin(s: State, id: ConnId) returns (steps: seq<Step>)
    requires s.phase.Free? && id !in s.links
    ensures RunSteps(s, steps).Some?
    ensures var s' := RunSteps(s, steps).value;
            && s'.phase.Free? && s'.history == s.history && id in s'.links
            && s'.links[id].live && s'.links[id].alive && s'.links[id].registered
            && s'.links[id].snapshot == Live(s.store, s.clock) == s'.store && s'.links[id].sent == []
            && s'.links[id].from == |s.history|
  {
    hide RunSteps, Live, DoMutate, DoPropagate, DoAppendOk, DoAppendFail, LazyExpiry.SweepStep, Payload, IsWrite,
      CommandLog.EncodeLog, Enumerates, TakeBatchLink;
    var s1 := Do(s, Register(id));
    var s2 := Do(s1, TakeSnapshot);
    OneStep(s1, TakeSnapshot);
    TwoSteps(s, Register(id), [TakeSnapshot]);
    var first := [Register(id)] + [TakeSnapshot];
    var rest := SyncFromHere(s2, id);
    RunAppend(s, first, rest);
    steps := first + rest;
  }

  /** With the lock free a rewrite can run, in whatever order the entries are visited. */
  lemma RewriteCanRun(s: State, items: seq<Item>) returns (steps: seq<Step>)
    requires s.phase.Free? && s.cfg.aofEnabled && Enumerates(items, Live(s.store, s.clock))
    ensures RunSteps(s, steps).Some?
    ensures var s' := RunSteps(s, steps).value;
            && s'.phase.Free? && s'.healthy == s.healthy && s'.store == Live(s.store, s.clock)
            && s'.file == CommandLog.EncodeLog(AofRewrite.Program(items, s.clock))
  {
    hide RunSteps, Live, DoMutate, DoPropagate, DoAppendOk, DoAppendFail, LazyExpiry.SweepStep, Payload, IsWrite,
      CommandLog.EncodeLog, Enumerates, TakeBatchLink, AofRewrite.Program, TtlFree;
    var s1 := Do(s, RewriteBegin);
    OneStep(s1, RewriteOk(items));
    TwoSteps(s, RewriteBegin, [RewriteOk(items)]);
    steps := [RewriteBegin] + [RewriteOk(items)];
  }

  // ---- what a step leaves alone --------------------------------------------

  /** The file is healthy until an append or a periodic fsync fails. */
  lemma HealthyUntilFailure(s: State, step: Step)
    requires Enabled(s, step)
    ensures Do(s, step).healthy <==> s.healthy && !step.AppendFail? && !step.FsyncFail?
  {
    hide Apply, Live, Payload, LazyExpiry.SweepStep, AofRewrite.Program, CommandLog.EncodeLog, PropagateLink,
      TakeBatchLink, Enumerates, IsWrite;
  }

  /** Only appends and rewrites touch the file, and only by the command at hand. */
  lemma FileGrowsByAppends(s: State, step: Step)
    requires Enabled(s, step) && !step.RewriteOk?
    ensures s.file <= Do(s, step).file
    ensures Do(s, step).file != s.file ==>
              (step.AppendOk? || step.AppendFail?) && Do(s, step).file <= s.file + Payload(s.phase.todo[0])
  {
    hide Live, Payload, LazyExpiry.SweepStep, TakeBatchLink, Enumerates, IsWrite, Apply, DoMutate, DoPropagate,
      DoAppendOk, DoAppendFail, CommandLog.EncodeLog, AofRewrite.Program;
    if step.Mutate? || step.PropagateOne? || step.AppendOk? || step.AppendFail? {
      FileOfWriter(s, step);
    }
  }

  lemma FileOfWriter(s: State, step: Step)
    requires Enabled(s, step) && (step.Mutate? || step.PropagateOne? || step.AppendOk? || step.AppendFail?)
    ensures var s' := Do(s, step);
            && s.file <= s'.file
            && (step.Mutate? || step.PropagateOne? ==> s'.file == s.file)
            && (step.AppendOk? || step.AppendFail? ==> s'.file <= s.file + Payload(s.phase.todo[0]))
  {
    hide Live, Payload, LazyExpiry.SweepStep, TakeBatchLink, Enumerates, IsWrite, Apply, PropagateLink,
      CommandLog.EncodeLog, AofRewrite.Program;
  }

  /** Only a write changes what clients see, and time. */
  lemma OnlyWritesShow(s: State, step: Step)
    requires Enabled(s, step) && !step.Mutate?
    ensures s.clock <= Do(s, step).clock
    ensures Live(Do(s, step).store, Do(s, step).clock) == Live(s.store, Do(s, step).clock)
  {
    hide Apply, Live, Payload, LazyExpiry.SweepStep, AofRewrite.Program, CommandLog.EncodeLog, PropagateLink,
      TakeBatchLink, Enumerates, IsWrite, DoMutate;
    LiveOfLive(s.store, s.clock, s.clock);
    if step.Sweep? {
      LazyExpiry.LiveAfterSweepStep(s.store, step.sample, s.clock, s.clock);
    } else if step.Read? {
      LazyExpiry.NonWriteChangesNothing(step.argv, s.clock, s.store);
    }
  }

  // ---- an unhealthy server -------------------------------------------------

  /** No write is past its mutation. */
  predicate NoneUnderWay(s: State) { !s.phase.Append? && !s.phase.Propagate? }

  lemma UnhealthyStep(s: State, step: Step)
    requires s.cfg.aofEnabled && !s.healthy && NoneUnderWay(s) && Enabled(s, step)
    ensures var s' := Do(s, step);
            && s'.cfg.aofEnabled && !s'.healthy && NoneUnderWay(s') && s.clock <= s'.clock
            && s'.history == s.history && Live(s'.store, s'.clock) == Live(s.store, s'.clock)
  {
    hide Apply, Live, Payload, LazyExpiry.SweepStep, AofRewrite.Program, CommandLog.EncodeLog, PropagateLink,
      TakeBatchLink, Enumerates, IsWrite;
    if !step.Mutate? {
      OnlyWritesShow(s, step);
    }
  }

  /** Once the file is unhealthy and no write is under way, the server is read-only: over any
      run nothing is propagated, and clients see no change but keys expiring. */
  lemma {:induction false} UnhealthyIsReadOnly(s: State, steps: seq<Step>)
    requires s.cfg.aofEnabled && !s.healthy && NoneUnderWay(s) && RunSteps(s, steps).Some?
    ensures var s' := RunSteps(s, steps).value;
            && !s'.healthy && s.clock <= s'.clock
            && s'.history == s.history && Live(s'.store, s'.clock) == Live(s.store, s'.clock)
    decreases |steps|
  {
    hide Do, Enabled, Live;
    if steps != [] {
      var s1 := Do(s, steps[0]);
      UnhealthyStep(s, steps[0]);
      UnhealthyIsReadOnly(s1, steps[1..]);
      var u := RunSteps(s1, steps[1..]).value.clock;
      LiveOfLive(s1.store, s1.clock, u);
      LiveOfLive(s.store, s1.clock, u);
    }
  }
}
