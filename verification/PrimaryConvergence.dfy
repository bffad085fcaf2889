/** Applying to a link's snapshot what the link has been given yields the master's
    keyspace, through evictions, rollbacks, sweeps and failed commands. */
module PrimaryConvergence {
  import opened ByteStrings
  import opened Keyspace
  import opened Commands
  import opened TimedLog
  import opened Primary
  import LazyExpiry
  import AofRewrite
  import CommandLog
  import PrimaryStreams

  // ---- commands and evictions ----------------------------------------------

  lemma ApplyDel(key: Bytes, t: int, ks: Keyspace)
    ensures Apply([DEL, key], t, ks).ks == ks - {key}
  {
    hide PyInt, Upper;
    AofRewrite.UpperNames();
    assert [DEL, key][1..] == [key];
    DeleteKeys(ks, [key], t);
    assert (set k | k in [key]) == {key};
  }

  /** The logged deletions remove exactly the evicted keys. */
  lemma {:induction false} ReplayDeletions(ks: Keyspace, evicted: seq<Bytes>, t: int)
    ensures Replay(ks, Deletions(evicted, t)) == ks - (set k | k in evicted)
    decreases |evicted|
  {
    hide Apply, Live;
    if evicted == [] {
      assert ks - (set k | k in evicted) == ks;
    } else {
      var rest := evicted[1..];
      ApplyDel(evicted[0], t, ks);
      assert Deletions(evicted, t)[1..] == Deletions(rest, t);
      ReplayDeletions(ks - {evicted[0]}, rest, t);
      MinusSeq(ks, evicted);
    }
  }

  lemma MinusSeq(ks: Keyspace, keys: seq<Bytes>)
    requires keys != []
    ensures (ks - {keys[0]}) - (set k | k in keys[1..]) == ks - (set k | k in keys)
  {
    assert keys == [keys[0]] + keys[1..];
    assert (set k | k in keys) == {keys[0]} + (set k | k in keys[1..]);
  }

  lemma LiveMinus(ks: Keyspace, gone: set<Bytes>, t: int)
    ensures Live(ks - gone, t) == Live(ks, t) - gone
  {
  }

  /** The commands a write leaves to be logged do to any agreeing keyspace what the write
      and its evictions did to the store. */
  lemma WriteAgrees(r: Keyspace, store: Keyspace, argv: Argv, t: int, evicted: seq<Bytes>)
    requires Agree(r, store, t)
    ensures Agree(Replay(r, [Timed(argv, t)] + Deletions(evicted, t)),
                  Apply(argv, t, Live(store, t)).ks - (set k | k in evicted), t)
  {
    hide Apply, Live;
    var gone := set k | k in evicted;
    var first := [Timed(argv, t)];
    LiveOfLive(store, t, t);
    ApplyLive(argv, t, r, Live(store, t));
    ReplayAppend(r, first, Deletions(evicted, t));
    ReplaySnoc(r, [], Timed(argv, t));
    assert [] + first == first;
    ReplayDeletions(Replay(r, first), evicted, t);
    LiveMinus(Replay(r, first), gone, t);
    LiveMinus(Apply(argv, t, Live(store, t)).ks, gone, t);
  }

  /** The same for a log: appending the commands of a write to it. */
  lemma WriteAgreesLog(log: seq<Timed>, store: Keyspace, argv: Argv, t: int, evicted: seq<Bytes>)
    requires Agree(Replay(map[], log), store, t)
    ensures Agree(Replay(map[], log + ([Timed(argv, t)] + Deletions(evicted, t))),
                  Apply(argv, t, Live(store, t)).ks - (set k | k in evicted), t)
  {
    hide Apply, Live, Agree, Deletions, Replay;
    ReplayAppend(map[], log, [Timed(argv, t)] + Deletions(evicted, t));
    WriteAgrees(Replay(map[], log), store, argv, t, evicted);
  }

  /** A command answered with an error has changed nothing visible. */
  lemma ErrorChangesNothing(argv: Argv, t: int, ks: Keyspace)
    requires Apply(argv, t, ks).reply.Err?
    ensures Live(Apply(argv, t, ks).ks, t) == Live(ks, t)
  {
    hide Understand, PutFields, AddedFields, PushLeft;
  }

  // ---- the invariant -------------------------------------------------------

  /** Mutated but not yet propagated. */
  function Todo(p: Phase): seq<Timed> {
    if p.Append? || p.Propagate? then p.todo else []
  }

  predicate LinkConverges(l: Link, history: seq<Timed>, todo: seq<Timed>, store: Keyspace, t: int) {
    l.snapped && l.registered && l.alive ==>
      l.from <= |history| && Agree(Replay(l.snapshot, history[l.from..] + todo), store, t)
  }

  predicate PhaseOk(s: State) {
    && (s.phase.Append? || s.phase.Propagate? ==> s.phase.todo != [])
    && (s.phase.Snapshotting? ==>
          s.phase.id in s.links && s.phase.id !in s.missed && s.links[s.phase.id].from == |s.history|)
  }

  /** A failed append ends all writing, so nothing is propagated after it. */
  predicate MissedOk(s: State) {
    s.missed <= s.links.Keys && (s.missed != {} ==> s.cfg.aofEnabled && !s.healthy && Todo(s.phase) == [])
  }

  /** What the store holds and the link has not been given. */
  function Owed(s: State, id: ConnId): seq<Timed> {
    if id in s.missed then s.dropped else Todo(s.phase)
  }

  predicate Converging(s: State) {
    && PhaseOk(s) && MissedOk(s)
    && forall id :: id in s.links ==> LinkConverges(s.links[id], s.history, Owed(s, id), s.store, s.clock)
  }

  /** A change of store and clock that the live view does not show. */
  lemma UnseenKeepsLink(l: Link, history: seq<Timed>, todo: seq<Timed>, store: Keyspace, store': Keyspace,
                        t: int, u: int)
    requires LinkConverges(l, history, todo, store, t) && t <= u && Agree(store, store', u)
    ensures LinkConverges(l, history, todo, store', u)
  {
    hide Live, Replay;
    if l.snapped && l.registered && l.alive {
      var r := Replay(l.snapshot, history[l.from..] + todo);
      LiveOfLive(r, t, u);
      LiveOfLive(store, t, u);
    }
  }

  lemma UnseenKeeps(s: State, s': State)
    requires Converging(s) && PhaseOk(s') && s'.cfg == s.cfg && (s'.healthy ==> s.healthy)
    requires s'.missed == s.missed && s'.dropped == s.dropped
    requires s'.history == s.history && Todo(s'.phase) == Todo(s.phase)
    requires s.clock <= s'.clock && Agree(s.store, s'.store, s'.clock)
    requires s'.links == s.links
    ensures Converging(s')
  {
    hide LinkConverges, PhaseOk, Agree;
    forall id | id in s'.links
      ensures LinkConverges(s'.links[id], s'.history, Owed(s', id), s'.store, s'.clock)
    {
      UnseenKeepsLink(s.links[id], s.history, Owed(s, id), s.store, s'.store, s.clock, s'.clock);
    }
  }

  lemma WriteKeepsLink(l: Link, history: seq<Timed>, store: Keyspace, argv: Argv, t: int, evicted: seq<Bytes>)
    requires LinkConverges(l, history, [], store, t)
    ensures LinkConverges(l, history, [Timed(argv, t)] + Deletions(evicted, t),
                          Apply(argv, t, Live(store, t)).ks - (set k | k in evicted), t)
  {
    hide Apply, Live, Agree, Deletions, Replay;
    if l.snapped && l.registered && l.alive {
      var past := history[l.from..];
      var new_ := [Timed(argv, t)] + Deletions(evicted, t);
      assert past + [] == past;
      ReplayAppend(l.snapshot, past, new_);
      WriteAgrees(Replay(l.snapshot, past), store, argv, t, evicted);
    }
  }

  lemma MutateKeeps(s: State, oom: bool, evicted: seq<Bytes>)
    requires Converging(s) && s.phase.Ready?
    ensures Converging(DoMutate(s, oom, evicted))
  {
    hide Apply, Live, LinkConverges, Deletions;
    var s' := DoMutate(s, oom, evicted);
    var before := Live(s.store, s.clock);
    LiveOfLive(s.store, s.clock, s.clock);
    if s'.phase.Append? {
      forall id | id in s'.links
        ensures LinkConverges(s'.links[id], s'.history, Owed(s', id), s'.store, s'.clock)
      {
        WriteKeepsLink(s.links[id], s.history, s.store, s.phase.argv, s.clock, evicted);
      }
    } else {
      if Apply(s.phase.argv, s.clock, before).reply.Err? {
        ErrorChangesNothing(s.phase.argv, s.clock, before);
      }
      UnseenKeeps(s, s');
    }
  }

  lemma PropagateKeepsConverging(l: Link, history: seq<Timed>, todo: seq<Timed>, store: Keyspace, t: int,
                                 payload: Bytes, offset: nat, cfg: Config, broken: bool)
    requires LinkConverges(l, history, todo, store, t) && todo != []
    ensures LinkConverges(PropagateLink(l, payload, offset, cfg, broken), history + [todo[0]], todo[1..], store, t)
  {
    hide Live, Agree, Replay;
    if l.snapped && l.registered && l.alive {
      assert (history + [todo[0]])[l.from..] + todo[1..] == history[l.from..] + todo;
    }
  }

  lemma PropagateKeeps(s: State, broken: set<ConnId>)
    requires Converging(s) && Enabled(s, PropagateOne(broken))
    ensures Converging(DoPropagate(s, broken))
  {
    hide LinkConverges, PropagateLink, Payload;
    var s' := DoPropagate(s, broken);
    assert Todo(s'.phase) == s.phase.todo[1..];
    forall id | id in s'.links
      ensures LinkConverges(s'.links[id], s'.history, Owed(s', id), s'.store, s'.clock)
    {
      PropagateKeepsConverging(s.links[id], s.history, s.phase.todo, s.store, s.clock,
                               Payload(s.phase.todo[0]), s'.offset, s.cfg, id in broken);
    }
  }

  lemma SnapshotKeeps(s: State)
    requires Converging(s) && Enabled(s, TakeSnapshot)
    ensures Converging(Do(s, TakeSnapshot))
  {
    hide Live, LinkConverges;
    var s' := Do(s, TakeSnapshot);
    var id := s.phase.id;
    LiveOfLive(s.store, s.clock, s.clock);
    forall i | i in s'.links
      ensures LinkConverges(s'.links[i], s'.history, Owed(s', i), s'.store, s'.clock)
    {
      if i == id {
        FreshSnapshotConverges(s'.links[i], s'.history, s'.store, s'.clock);
      } else {
        UnseenKeepsLink(s.links[i], s.history, Owed(s, i), s.store, s'.store, s.clock, s'.clock);
      }
    }
  }

  lemma FreshSnapshotConverges(l: Link, history: seq<Timed>, store: Keyspace, t: int)
    requires l.from == |history| && l.snapshot == store
    ensures LinkConverges(l, history, [], store, t)
  {
    assert history[l.from..] + [] == [];
  }

  /** A link with the same snapshot and start, alive only if it was. */
  predicate SameStart(l: Link, l': Link) {
    && l'.snapshot == l.snapshot && l'.from == l.from && l'.snapped == l.snapped
    && (l'.registered ==> l.registered) && (l'.alive ==> l.alive)
  }

  lemma GivenNothing(l: Link, l': Link, offset: nat)
    requires l' == TakeBatchLink(l, offset) ||
             (l' == l.(alive := l'.alive, registered := l'.registered, rdbSent := l'.rdbSent, pending := l'.pending,
                       sent := l'.sent, inflight := l'.inflight) &&
              (l'.registered ==> l.registered) && (l'.alive ==> l.alive))
    ensures SameStart(l, l')
  {
  }

  lemma SameLinkConverges(l: Link, l': Link, history: seq<Timed>, todo: seq<Timed>, store: Keyspace, t: int)
    requires LinkConverges(l, history, todo, store, t) && SameStart(l, l')
    ensures LinkConverges(l', history, todo, store, t)
  {
    hide Agree, Replay;
  }

  /** Steps of one connection give its link nothing new to apply. */
  lemma LinkStepKeeps(s: State, step: Step)
    requires Converging(s) && Enabled(s, step) && PrimaryStreams.IsLinkStep(step)
    ensures Converging(Do(s, step))
  {
    hide Live, Agree, Replay, TakeBatchLink, DoMutate, DoPropagate, DoAppendOk, DoAppendFail, LazyExpiry.SweepStep,
      CommandLog.EncodeLog, Payload, Enumerates, IsWrite, LinkConverges;
    var id, s' := step.id, Do(s, step);
    GivenNothing(s.links[id], s'.links[id], s.offset);
    SameLinkConverges(s.links[id], s'.links[id], s.history, Owed(s, id), s.store, s.clock);
  }

  lemma StepKeepsConverging(s: State, step: Step)
    requires Converging(s) && Enabled(s, step)
    ensures Converging(Do(s, step))
  {
    hide Apply, Live, LinkConverges, Payload, PropagateLink, TakeBatchLink, Enumerates,
      LazyExpiry.SweepStep, AofRewrite.Program, CommandLog.EncodeLog, DoMutate, DoPropagate, Converging,
      DoAppendFail, DoAppendOk;
    if PrimaryStreams.IsLinkStep(step) {
      LinkStepKeeps(s, step);
    } else if step.PropagateOne? {
      PropagateKeeps(s, step.broken);
    } else if step.Mutate? {
      MutateKeeps(s, step.oom, step.evicted);
    } else if step.TakeSnapshot? {
      SnapshotKeeps(s);
    } else if step.Register? {
      RegisterKeeps(s, step.id);
    } else if step.AppendFail? {
      FailureKeeps(s, step.written);
    } else {
      OtherKeeps(s, step);
    }
  }

  /** What was on its way is now owed to every link. */
  lemma FailureKeeps(s: State, n: nat)
    requires Converging(s) && Enabled(s, AppendFail(n))
    ensures Converging(DoAppendFail(s, n))
  {
    hide LinkConverges, Payload;
  }

  lemma OtherKeeps(s: State, step: Step)
    requires Converging(s) && Enabled(s, step)
    requires step.Tick? || step.Sweep? || step.Read? || step.Acquire? || step.AppendOk? || step.FsyncFail? ||
             step.RewriteBegin? || step.RewriteOk? || step.RewriteFail?
    ensures Converging(Do(s, step))
  {
    hide Apply, Live, LinkConverges, Payload, PropagateLink, TakeBatchLink, Enumerates, IsWrite, Converging,
      LazyExpiry.SweepStep, AofRewrite.Program, CommandLog.EncodeLog, DoMutate, DoPropagate, DoAppendFail;
    var s' := Do(s, step);
    LiveOfLive(s.store, s.clock, s.clock);
    if step.Sweep? {
      LazyExpiry.LiveAfterSweepStep(s.store, step.sample, s.clock, s.clock);
    } else if step.Read? {
      LazyExpiry.NonWriteChangesNothing(step.argv, s.clock, s.store);
    }
    assert PhaseOk(s) by { PhaseOfConverging(s); }
    UnseenKeeps(s, s');
  }

  lemma PhaseOfConverging(s: State)
    requires Converging(s)
    ensures PhaseOk(s)
  {
  }

  lemma RegisterKeeps(s: State, id: ConnId)
    requires Converging(s) && Enabled(s, Register(id))
    ensures Converging(Do(s, Register(id)))
  {
    hide Agree, Replay;
  }

  lemma {:induction false} RunKeepsConverging(s: State, steps: seq<Step>)
    requires Converging(s) && RunSteps(s, steps).Some?
    ensures Converging(RunSteps(s, steps).value)
    decreases |steps|
  {
    hide Do, Enabled, Converging;
    if steps != [] {
      StepKeepsConverging(s, steps[0]);
      RunKeepsConverging(Do(s, steps[0]), steps[1..]);
    }
  }

  lemma ReachableConverges(s: State)
    requires Reachable(s)
    ensures Converging(s)
  {
    hide Init, RunSteps, Converging;
    var s0, steps :| Init(s0) && RunSteps(s0, steps) == Some(s);
    InitConverging(s0);
    RunKeepsConverging(s0, steps);
  }

  lemma InitConverging(s: State)
    requires Init(s)
    ensures Converging(s)
  {
  }

  // ---- results -------------------------------------------------------------

  /** Registered, not given up on, and past its snapshot. */
  predicate Served(s: State, id: ConnId) {
    id in s.links && s.links[id].snapped && s.links[id].registered && s.links[id].alive
  }

  /** The snapshot of a link with everything it has been given, at the master's times. */
  function Held(s: State, id: ConnId): Keyspace
    requires id in s.links && s.links[id].from <= |s.history|
  {
    Replay(s.links[id].snapshot, s.history[s.links[id].from..])
  }

  lemma ServedFrom(s: State, id: ConnId)
    requires Converging(s) && Served(s, id)
    ensures s.links[id].from <= |s.history|
    ensures Agree(Replay(Held(s, id), Owed(s, id)), s.store, s.clock)
  {
    hide Agree, Replay, PhaseOk;
    var l := s.links[id];
    assert LinkConverges(l, s.history, Owed(s, id), s.store, s.clock);
    ReplayAppend(l.snapshot, s.history[l.from..], Owed(s, id));
  }

  /** Exactly when an alive link holds the master's live keyspace, whenever the write lock
      is free: it was not there when an append failed, or what was dropped then changes
      nothing visible. */
  lemma ReplicasConvergeIff(s: State, id: ConnId)
    requires Reachable(s) && s.phase.Free? && Served(s, id)
    ensures s.links[id].from <= |s.history|
    ensures Agree(Held(s, id), s.store, s.clock) <==>
            id !in s.missed || Agree(Held(s, id), Replay(Held(s, id), s.dropped), s.clock)
  {
    hide Reachable, Replay, Live, Converging;
    ReachableConverges(s);
    ServedFrom(s, id);
    ReplayNothing(Held(s, id));
  }

  lemma ReplayNothing(ks: Keyspace)
    ensures Replay(ks, []) == ks
  {
  }

  /** At the failing step: the link still agrees exactly if the dropped commands change
      nothing visible of what it holds. */
  lemma FailedAppendDivergesIff(s: State, id: ConnId, n: nat)
    requires Reachable(s) && Served(s, id) && Enabled(s, AppendFail(n))
    ensures s.links[id].from <= |s.history|
    ensures var s' := DoAppendFail(s, n);
            && s'.phase.Free? && Served(s', id)
            && (Agree(Held(s, id), s'.store, s'.clock) <==>
                Agree(Held(s, id), Replay(Held(s, id), s.phase.todo), s.clock))
  {
    hide Reachable, Replay, Live, Converging, Payload;
    ReachableConverges(s);
    ServedFrom(s, id);
    assert id !in s.missed by { FailsOnce(s); }
  }

  /** An append is attempted only while no link has missed anything. */
  lemma FailsOnce(s: State)
    requires Converging(s) && s.phase.Append?
    ensures s.missed == {}
  {
  }

  lemma WritesBeforeFailure(s: State)
    requires Converging(s) && !(s.cfg.aofEnabled && !s.healthy)
    ensures s.missed == {}
  {
  }

  /** The same in the client's terms. A write was applied at `s`, and later, at `f`, its
      append fails before any of it is propagated: an alive link still agrees exactly if
      the write with its evictions left the live keyspace as it was. */
  lemma FailedWriteDivergesIff(s: State, evicted: seq<Bytes>, f: State, id: ConnId, n: nat)
    requires Reachable(s) && Reachable(f) && s.phase.Ready? && DoMutate(s, false, evicted).phase.Append?
    requires Enabled(f, AppendFail(n)) && f.phase == DoMutate(s, false, evicted).phase
    requires Served(s, id) && Served(f, id) && s.clock <= f.clock && f.history == s.history
    requires f.links[id].from == s.links[id].from && f.links[id].snapshot == s.links[id].snapshot
    ensures f.links[id].from <= |f.history|
    ensures var after := Apply(s.phase.argv, s.clock, Live(s.store, s.clock)).ks - (set k | k in evicted);
            Agree(Held(f, id), DoAppendFail(f, n).store, f.clock) <==> Agree(s.store, after, f.clock)
  {
    hide Reachable, Replay, Live, Converging, Payload, Apply, Deletions;
    FailedAppendDivergesIff(f, id, n);
    ReachableConverges(s);
    ServedFrom(s, id);
    assert id !in s.missed by { WritesBeforeFailure(s); }
    var r := Held(f, id);
    ReplayNothing(r);
    var after := Apply(s.phase.argv, s.clock, Live(s.store, s.clock)).ks - (set k | k in evicted);
    WriteAgrees(r, s.store, s.phase.argv, s.clock, evicted);
    AgreeLater(r, s.store, s.clock, f.clock);
    AgreeLater(Replay(r, f.phase.todo), after, s.clock, f.clock);
  }

  lemma AgreeLater(a: Keyspace, b: Keyspace, t: int, u: int)
    requires Agree(a, b, t) && t <= u
    ensures Agree(a, b, u)
  {
    hide Live;
    LiveOfLive(a, t, u);
    LiveOfLive(b, t, u);
  }

  /** Failing later, at the deletion of an evicted key: the link still agrees exactly if it
      holds none of the keys whose deletions were dropped. */
  lemma FailedEvictionDivergesIff(s: State, keys: seq<Bytes>, at: int, id: ConnId, n: nat)
    requires Reachable(s) && Served(s, id) && Enabled(s, AppendFail(n)) && s.phase.todo == Deletions(keys, at)
    ensures s.links[id].from <= |s.history|
    ensures Agree(Held(s, id), DoAppendFail(s, n).store, s.clock) <==>
            forall k :: k in keys ==> k !in Live(Held(s, id), s.clock)
  {
    hide Reachable, Replay, Live, Converging, Payload, Deletions;
    FailedAppendDivergesIff(s, id, n);
    var r := Held(s, id);
    ReplayDeletions(r, keys, at);
    LiveMinus(r, (set k | k in keys), s.clock);
    var live := Live(r, s.clock);
    assert live - (set k | k in keys) == live <==> forall k :: k in keys ==> k !in live;
  }

  /** Whenever the write lock is free, replaying at the master's times what an alive link
      has been given onto its snapshot gives the master's live keyspace, evictions
      included, unless the link was there when an append failed. */
  lemma ReplicasConverge(s: State, id: ConnId)
    requires Reachable(s) && s.phase.Free? && Served(s, id) && id !in s.missed
    ensures var l := s.links[id];
            && l.from <= |s.history|
            && l.sent + l.inflight + l.backlog == PrimaryStreams.Encoded(s.history[l.from..])
            && Live(Replay(l.snapshot, s.history[l.from..]), s.clock) == Live(s.store, s.clock)
  {
    hide Reachable, Replay, Live, PrimaryStreams.Encoded;
    ReplicasConvergeIff(s, id);
    PrimaryStreams.StreamsAreExact(s, id);
    var l := s.links[id];
    assert s.history[l.from..l.upTo] == s.history[l.from..];
  }

  /** Without deadlines the replica needs no clock: whatever times it applies the commands
      at, it ends with exactly the master's live keyspace. */
  lemma ReplicasConvergeWithoutTtl(s: State, id: ConnId, log: seq<Timed>)
    requires Reachable(s) && s.phase.Free? && Served(s, id) && id !in s.missed
    requires s.links[id].from <= |s.history|
    requires TtlFree(s.links[id].snapshot) && LogSetsNoTtl(s.history[s.links[id].from..])
    requires Argvs(log) == Argvs(s.history[s.links[id].from..])
    ensures Replay(s.links[id].snapshot, log) == Live(s.store, s.clock)
  {
    hide Reachable, Replay;
    ReplicasConverge(s, id);
    var l := s.links[id];
    ReplayTimeless(l.snapshot, s.history[l.from..], log);
    LiveTtlFree(Replay(l.snapshot, log), s.clock);
  }

  lemma LiveTtlFree(ks: Keyspace, t: int)
    requires TtlFree(ks)
    ensures Live(ks, t) == ks
  {
  }
}
