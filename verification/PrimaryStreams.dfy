/** What every step keeps about each replication link: nothing propagated since its
    snapshot is lost, doubled or reordered, and the byte counters are exact. */
module PrimaryStreams {
  import opened ByteStrings
  import opened Keyspace
  import opened TimedLog
  import opened Primary
  import Commands
  import LazyExpiry
  import AofRewrite
  import CommandLog

  function Encoded(log: seq<Timed>): (r: seq<Bytes>)
    ensures |r| == |log| && forall i :: 0 <= i < |r| ==> r[i] == Payload(log[i])
  {
    seq(|log|, i requires 0 <= i < |log| => Payload(log[i]))
  }

  /** Everything the link has been given: on the wire, taken for writing, still queued. */
  function Given(l: Link): seq<Bytes> { l.sent + l.inflight + l.backlog }

  /** The link holds exactly the commands [from..upTo] of the history, in order; while it
      is registered and alive that is everything propagated since its snapshot. */
  predicate StreamOk(l: Link, history: seq<Timed>) {
    && l.from <= l.upTo <= |history|
    && Given(l) == Encoded(history[l.from..l.upTo])
    && (l.registered && l.alive ==> l.upTo == |history|)
    && (l.live ==> l.inflight == [] && l.backlog == [])
    && (!l.rdbSent ==> l.sent == [] && l.inflight == [] && !l.live)
    && (l.rdbSent ==> l.snapped)
  }

  predicate AccountingOk(l: Link, offset: nat, cfg: Config) {
    && l.backlogBytes == TotalLength(l.backlog) <= cfg.backlogMax
    && l.pending <= cfg.pendingMax
    && (l.registered && l.alive ==>
          l.offset == offset && offset == l.snapOffset + TotalLength(Given(l)))
  }

  predicate LinkOk(l: Link, history: seq<Timed>, offset: nat, cfg: Config) {
    StreamOk(l, history) && AccountingOk(l, offset, cfg)
  }

  predicate LinksOk(s: State) {
    forall id :: id in s.links ==> LinkOk(s.links[id], s.history, s.offset, s.cfg)
  }

  // ---- one link at a time --------------------------------------------------

  lemma NewLinkOk(history: seq<Timed>, offset: nat, cfg: Config)
    ensures LinkOk(NewLink(offset, |history|), history, offset, cfg)
  {
    var l := NewLink(offset, |history|);
    assert history[l.from..l.upTo] == [];
    assert Given(l) == [];
  }

  /** A propagated command reaches an alive link last and once; an overflowing or broken
      link dies with what it had. */
  lemma PropagateKeepsLink(l: Link, history: seq<Timed>, c: Timed, offset: nat, cfg: Config, broken: bool)
    requires LinkOk(l, history, offset, cfg)
    ensures l.registered ==>
              LinkOk(PropagateLink(l, Payload(c), offset + |Payload(c)|, cfg, broken), history + [c],
                     offset + |Payload(c)|, cfg)
    ensures !l.registered ==>
              forall off :: LinkOk(PropagateLink(l, Payload(c), off, cfg, broken), history + [c], off, cfg)
  {
    hide Payload, TotalLength;
    var h := history + [c];
    assert h[l.from..l.upTo] == history[l.from..l.upTo];
    var l' := PropagateLink(l, Payload(c), offset + |Payload(c)|, cfg, broken);
    if l'.upTo == l.upTo + 1 {
      assert h[l.from..l.upTo + 1] == history[l.from..l.upTo] + [c];
      assert Encoded(h[l.from..l.upTo + 1]) == Encoded(history[l.from..l.upTo]) + [Payload(c)];
      TotalLengthSnoc(Given(l), Payload(c));
      if l.live {
        assert Given(l) == l.sent;
        assert Given(l') == l'.sent == Given(l) + [Payload(c)];
      } else {
        assert Given(l') == Given(l) + [Payload(c)];
        TotalLengthSnoc(l.backlog, Payload(c));
      }
    }
  }

  lemma TakeBatchKeepsLink(l: Link, history: seq<Timed>, offset: nat, cfg: Config)
    requires LinkOk(l, history, offset, cfg) && l.rdbSent && !l.live && l.inflight == []
    ensures LinkOk(TakeBatchLink(l, offset), history, offset, cfg)
  {
    var l' := TakeBatchLink(l, offset);
    assert Given(l') == Given(l);
  }

  lemma WriteBatchKeepsLink(l: Link, history: seq<Timed>, offset: nat, cfg: Config, n: nat)
    requires LinkOk(l, history, offset, cfg) && 0 < n <= |l.inflight|
    ensures LinkOk(l.(sent := l.sent + l.inflight[..n], inflight := l.inflight[n..]), history, offset, cfg)
  {
    var l' := l.(sent := l.sent + l.inflight[..n], inflight := l.inflight[n..]);
    assert l.inflight == l.inflight[..n] + l.inflight[n..];
    assert Given(l') == Given(l);
  }

  // ---- every step ----------------------------------------------------------

  lemma PropagateKeepsLinks(s: State, broken: set<ConnId>)
    requires LinksOk(s) && Enabled(s, PropagateOne(broken))
    ensures LinksOk(DoPropagate(s, broken))
  {
    hide LinkOk, Payload, PropagateLink;
    var s' := DoPropagate(s, broken);
    var c := s.phase.todo[0];
    forall id | id in s'.links ensures LinkOk(s'.links[id], s'.history, s'.offset, s'.cfg) {
      PropagateKeepsLink(s.links[id], s.history, c, s.offset, s.cfg, id in broken);
    }
  }

  /** Steps of a connection that move no payload. */
  lemma FlagsKeepLink(l: Link, l': Link, history: seq<Timed>, offset: nat, cfg: Config)
    requires LinkOk(l, history, offset, cfg)
    requires l' == l.(pending := l'.pending, alive := l'.alive, registered := l'.registered,
                      rdbSent := l'.rdbSent, snapped := l'.snapped, snapshot := l'.snapshot)
    requires (l'.registered ==> l.registered) && (l'.alive ==> l.alive) && l'.pending <= l.pending
    requires (l.snapped ==> l'.snapped) && (l.rdbSent ==> l'.rdbSent) && (l'.rdbSent ==> l'.snapped)
    ensures LinkOk(l', history, offset, cfg)
  {
    hide Encoded, TotalLength;
    assert Given(l') == Given(l);
  }

  /** Steps that touch only the link `id`. */
  predicate IsLinkStep(step: Step) {
    step.SendRdb? || step.TakeBatch? || step.WriteBatch? || step.Drain? || step.Disconnect? || step.Unregister?
  }

  lemma LinkStepKeepsLinks(s: State, step: Step)
    requires LinksOk(s) && Enabled(s, step) && IsLinkStep(step)
    ensures LinksOk(Do(s, step))
  {
    hide LinkOk, TakeBatchLink;
    var id := step.id;
    var l, l' := s.links[id], Do(s, step).links[id];
    assert LinkOk(l, s.history, s.offset, s.cfg);
    if step.TakeBatch? {
      TakeBatchKeepsLink(l, s.history, s.offset, s.cfg);
    } else if step.WriteBatch? {
      WriteBatchKeepsLink(l, s.history, s.offset, s.cfg, step.n);
    } else {
      RdbAfterSnapshot(l, s.history, s.offset, s.cfg);
      FlagsKeepLink(l, l', s.history, s.offset, s.cfg);
    }
  }

  lemma RdbAfterSnapshot(l: Link, history: seq<Timed>, offset: nat, cfg: Config)
    requires LinkOk(l, history, offset, cfg)
    ensures l.rdbSent ==> l.snapped
  {
  }

  lemma StepKeepsLinks(s: State, step: Step)
    requires LinksOk(s) && Enabled(s, step)
    ensures LinksOk(Do(s, step))
  {
    hide Commands.Apply, Live, LinkOk, Payload, PropagateLink, TakeBatchLink, Enumerates,
      LazyExpiry.SweepStep, AofRewrite.Program, CommandLog.EncodeLog;
    if IsLinkStep(step) {
      LinkStepKeepsLinks(s, step);
    } else if step.PropagateOne? {
      PropagateKeepsLinks(s, step.broken);
    } else if step.Register? {
      NewLinkOk(s.history, s.offset, s.cfg);
    } else if step.TakeSnapshot? {
      var id := s.phase.id;
      RdbAfterSnapshot(s.links[id], s.history, s.offset, s.cfg);
      FlagsKeepLink(s.links[id], Do(s, step).links[id], s.history, s.offset, s.cfg);
    }
  }

  lemma {:induction false} RunKeepsLinks(s: State, steps: seq<Step>)
    requires LinksOk(s) && RunSteps(s, steps).Some?
    ensures LinksOk(RunSteps(s, steps).value)
    decreases |steps|
  {
    hide Do, Enabled, LinksOk;
    if steps != [] {
      StepKeepsLinks(s, steps[0]);
      RunKeepsLinks(Do(s, steps[0]), steps[1..]);
    }
  }

  /** In every reachable state of any interleaving, what a link has been given is a
      contiguous stretch of the propagated commands starting at its snapshot, and all of
      them while it is registered and alive; no command precedes the snapshot on the wire;
      and the offset and backlog counters are exact and bounded. */
  lemma StreamsAreExact(s: State, id: ConnId)
    requires Reachable(s) && id in s.links
    ensures var l := s.links[id];
            && l.from <= l.upTo <= |s.history|
            && l.sent + l.inflight + l.backlog == Encoded(s.history[l.from..l.upTo])
            && (l.registered && l.alive ==> l.upTo == |s.history|)
            && (!l.rdbSent ==> l.sent == [])
    ensures var l := s.links[id];
            && l.backlogBytes == TotalLength(l.backlog) <= s.cfg.backlogMax && l.pending <= s.cfg.pendingMax
            && (l.registered && l.alive ==>
                  l.offset == s.offset && s.offset - l.snapOffset == TotalLength(l.sent + l.inflight + l.backlog))
  {
    hide Init, RunSteps, Encoded, TotalLength;
    var s0, steps :| Init(s0) && RunSteps(s0, steps) == Some(s);
    assert LinksOk(s0) by { InitLinks(s0); }
    RunKeepsLinks(s0, steps);
  }

  lemma InitLinks(s: State)
    requires Init(s)
    ensures LinksOk(s)
  {
  }

  // ---- when a link dies ----------------------------------------------------

  /** Room for one more payload: in the backlog by its bytes while syncing; in the queue of
      outstanding drains, and on a connection that works, once live. */
  predicate HasRoom(l: Link, payload: Bytes, cfg: Config, broken: bool) {
    if l.live then l.pending < cfg.pendingMax && !broken
    else TotalLength(l.backlog) + |payload| <= cfg.backlogMax
  }

  /** A propagated command reaches exactly the alive links with room for it, and exactly the
      others die: with the sizes of what is really queued, in every reachable state. */
  lemma SurvivesIffRoom(s: State, broken: set<ConnId>, id: ConnId)
    requires Reachable(s) && Enabled(s, PropagateOne(broken))
    requires id in s.links && s.links[id].registered && s.links[id].alive
    ensures var l, c := s.links[id], s.phase.todo[0];
            var l' := DoPropagate(s, broken).links[id];
            && (l'.alive <==> HasRoom(l, Payload(c), s.cfg, id in broken))
            && (l'.alive ==> Given(l') == Given(l) + [Payload(c)] && l'.live == l.live)
            && (l'.alive && l.live ==> l'.sent == l.sent + [Payload(c)] && l'.pending == l.pending + 1)
            && (!l'.alive ==> Given(l') == Given(l))
  {
    hide Reachable, Payload, TotalLength, Encoded;
    StreamsAreExact(s, id);
    assert s.links[id].live ==> s.links[id].inflight == [] && s.links[id].backlog == [] by { LiveIsFlushed(s, id); }
  }

  lemma LiveIsFlushed(s: State, id: ConnId)
    requires Reachable(s) && id in s.links
    ensures s.links[id].live ==> s.links[id].inflight == [] && s.links[id].backlog == []
    ensures s.links[id].rdbSent ==> s.links[id].snapped
  {
    hide Init, RunSteps, Encoded, TotalLength;
    var s0, steps :| Init(s0) && RunSteps(s0, steps) == Some(s);
    assert LinksOk(s0) by { InitLinks(s0); }
    RunKeepsLinks(s0, steps);
  }

  /** Nothing else ends a link: over every step, an alive link stays alive unless its
      connection is dropped or a propagated command finds no room. */
  lemma StaysAliveIff(s: State, step: Step, id: ConnId)
    requires Reachable(s) && Enabled(s, step) && id in s.links && s.links[id].registered && s.links[id].alive
    ensures id in Do(s, step).links
    ensures Do(s, step).links[id].registered && Do(s, step).links[id].alive <==>
            && step != Disconnect(id) && step != Unregister(id)
            && (step.PropagateOne? ==> HasRoom(s.links[id], Payload(s.phase.todo[0]), s.cfg, id in step.broken))
  {
    hide Reachable, Payload, TotalLength, HasRoom, DoPropagate, Live, Commands.Apply, LazyExpiry.SweepStep,
      AofRewrite.Program, CommandLog.EncodeLog, Enumerates, Commands.IsWrite;
    if step.PropagateOne? {
      SurvivesIffRoom(s, step.broken, id);
      SameRegistration(s, step.broken, id);
    }
  }

  lemma SameRegistration(s: State, broken: set<ConnId>, id: ConnId)
    requires s.phase.Propagate? && s.phase.todo != [] && id in s.links
    ensures id in DoPropagate(s, broken).links && DoPropagate(s, broken).links[id].registered == s.links[id].registered
  {
    hide Payload;
  }

  /** The offset counts the bytes propagated while any replica is registered, and nothing else. */
  lemma OffsetCounts(s: State, step: Step)
    requires Enabled(s, step)
    ensures Do(s, step).offset ==
            s.offset + if step.PropagateOne? && exists id :: id in s.links && s.links[id].registered
                       then |Payload(s.phase.todo[0])| else 0
  {
    hide Payload, Live, Commands.Apply, LazyExpiry.SweepStep, AofRewrite.Program, CommandLog.EncodeLog, Enumerates,
      Commands.IsWrite, PropagateLink, TakeBatchLink;
  }

  /** What befalls a connection touches its own link only, and of that no payload: a finished
      drain counts down by one, a broken connection is dead, an unregistered one also
      forgotten. */
  lemma ConnectionSteps(s: State, step: Step)
    requires Enabled(s, step) && (step.Drain? || step.Disconnect? || step.Unregister?)
    ensures var s', id := Do(s, step), step.id;
            var l, l' := s.links[id], s'.links[id];
            && s' == s.(links := s.links[id := l']) && Given(l') == Given(l) && l'.live == l.live
            && (step.Drain? ==> l'.pending + 1 == l.pending && l'.alive == l.alive && l'.registered == l.registered)
            && (step.Disconnect? ==> !l'.alive && l'.registered == l.registered && l'.pending == l.pending)
            && (step.Unregister? ==> !l'.alive && !l'.registered && l'.pending == l.pending)
  {
    hide Payload, Live, Commands.Apply, LazyExpiry.SweepStep, AofRewrite.Program, CommandLog.EncodeLog, Enumerates,
      Commands.IsWrite, PropagateLink, TakeBatchLink;
  }

  // ---- snapshots -----------------------------------------------------------

  /** Where the snapshot of a link can be from after a step: it is as before, it has just
      been taken from the store, or it has not been taken yet. */
  predicate SnapshotFrom(s: State, step: Step, s': State, id: ConnId)
    requires id in s'.links
  {
    || (id in s.links && s'.links[id].snapshot == s.links[id].snapshot)
    || (step.TakeSnapshot? && s'.links[id].snapshot == Live(s.store, s.clock))
    || s'.links[id].snapshot == map[]
  }

  lemma SameSnapshot(l: Link, payload: Bytes, offset: nat, cfg: Config, broken: bool)
    ensures PropagateLink(l, payload, offset, cfg, broken).snapshot == l.snapshot
    ensures TakeBatchLink(l, offset).snapshot == l.snapshot
  {
  }

  lemma SnapshotsFrom(s: State, step: Step)
    requires Enabled(s, step)
    ensures forall id :: id in Do(s, step).links ==> SnapshotFrom(s, step, Do(s, step), id)
  {
    hide Commands.Apply, Live, Payload, LazyExpiry.SweepStep, CommandLog.EncodeLog, TakeBatchLink, DoPropagate,
      AofRewrite.Program, Enumerates, Commands.IsWrite;
    if step.PropagateOne? {
      PropagateSnapshots(s, step.broken);
    } else if step.TakeBatch? {
      SameSnapshot(s.links[step.id], [], s.offset, s.cfg, false);
    }
  }

  lemma PropagateSnapshots(s: State, broken: set<ConnId>)
    requires Enabled(s, PropagateOne(broken))
    ensures var s' := DoPropagate(s, broken);
            && s'.links.Keys == s.links.Keys
            && forall id :: id in s.links ==> s'.links[id].snapshot == s.links[id].snapshot
  {
    hide Payload, PropagateLink;
    var s' := DoPropagate(s, broken);
    forall id | id in s.links ensures s'.links[id].snapshot == s.links[id].snapshot {
      SameSnapshot(s.links[id], Payload(s.phase.todo[0]), s'.offset, s.cfg, id in broken);
    }
  }

  // ---- a run ---------------------------------------------------------------

  /** One step more at the end of a reachable run. */
  lemma {:induction false} ReachableStep(s: State, step: Step)
    requires Reachable(s) && Enabled(s, step)
    ensures Reachable(Do(s, step))
  {
    hide Do, Enabled, Init;
    var s0, steps :| Init(s0) && RunSteps(s0, steps) == Some(s);
    RunSnoc(s0, steps, step);
  }

  lemma {:induction false} RunSnoc(s: State, steps: seq<Step>, step: Step)
    requires RunSteps(s, steps).Some? && Enabled(RunSteps(s, steps).value, step)
    ensures RunSteps(s, steps + [step]) == Some(Do(RunSteps(s, steps).value, step))
    decreases |steps|
  {
    hide Do, Enabled;
    if steps == [] {
      assert (steps + [step])[1..] == [];
      assert RunSteps(Do(s, step), []) == Some(Do(s, step));
    } else {
      assert (steps + [step])[1..] == steps[1..] + [step];
      RunSnoc(Do(s, steps[0]), steps[1..], step);
    }
  }

  /** A fresh server whose only replica, connection 1, has just gone live. */
  function FreshAndSynced(cfg: Config): State {
    var l := Link(true, true, true, true, true, 0, [], 0, [], [], 0, map[], 0, 0, 0);
    State(cfg, 0, map[], Free, [], true, 0, map[1 := l], [], [], [], [], [], [], {}, true)
  }

  function EmptyServer(cfg: Config): State {
    State(cfg, 0, map[], Free, [], true, 0, map[], [], [], [], [], [], [], {}, true)
  }

  lemma EmptyServerOccurs(cfg: Config)
    ensures Reachable(EmptyServer(cfg))
  {
    hide CommandLog.EncodeLog;
    CommandLog.EncodeLogEmpty();
    var s := EmptyServer(cfg);
    assert Argvs(s.aofLog) == [];
    assert RunSteps(s, []) == Some(s);
  }

  lemma FreshAndSyncedOccurs(cfg: Config)
    ensures Reachable(FreshAndSynced(cfg))
  {
    hide Payload, CommandLog.EncodeLog, Reachable, DoMutate, DoPropagate, DoAppendOk, DoAppendFail, Commands.IsWrite,
      LazyExpiry.SweepStep, Enumerates;
    var s := EmptyServer(cfg);
    EmptyServerOccurs(cfg);
    s := Advance(s, Register(1));
    s := Advance(s, TakeSnapshot);
    assert Live(map[], 0) == map[];
    s := Advance(s, SendRdb(1));
    s := Advance(s, TakeBatch(1));
    assert s.links == map[1 := s.links[1]];
  }

  /** The situation the convergence results speak of does occur: a replica that has gone
      live, with the lock free, holding one propagated write. */
  lemma LiveReplicaOccurs(cfg: Config, key: Bytes, value: Bytes) returns (s: State)
    requires cfg.pendingMax > 0
    ensures Reachable(s) && s.phase.Free? && s.missed == {} && s.faithful && s.healthy && 1 in s.links
    ensures var l := s.links[1];
            l.registered && l.alive && l.live && l.snapped && l.rdbSent &&
            l.sent == [Payload(Timed([Commands.SET, key, value], 0))] && |s.history| == 1
    ensures key in s.store && s.store[key] == Entry(Str(value), None)
  {
    hide Payload, CommandLog.EncodeLog, Commands.Understand, Reachable;
    var argv := [Commands.SET, key, value];
    s := FreshAndSynced(cfg);
    FreshAndSyncedOccurs(cfg);
    AofRewrite.UpperNames();
    AofRewrite.UnderstandSet(key, value);
    s := Advance(s, Acquire(argv));
    assert Live(s.store, s.clock) == map[];
    s := Advance(s, Mutate(false, []));
    assert s.phase.todo == [Timed(argv, 0)];
    s := Advance(s, AppendOk);
    assert 1 in s.links && s.links[1].registered;
    s := Advance(s, PropagateOne({}));
    assert s.links[1].sent == [] + [Payload(Timed(argv, 0))];
  }

  /** A write whose append fails is answered with an error but stays in the store: an alive
      replica has been given everything propagated and still does not hold the key. */
  lemma FailedAppendDiverges(cfg: Config, key: Bytes, value: Bytes) returns (s: State)
    requires cfg.aofEnabled
    ensures Reachable(s) && s.phase.Free? && 1 in s.missed && 1 in s.links
    ensures var l := s.links[1];
            && l.registered && l.alive && l.live && l.from <= |s.history|
            && key in Live(s.store, s.clock) && key !in Replay(l.snapshot, s.history[l.from..])
  {
    hide Payload, CommandLog.EncodeLog, Commands.Understand, Reachable;
    var argv := [Commands.SET, key, value];
    s := FreshAndSynced(cfg);
    FreshAndSyncedOccurs(cfg);
    AofRewrite.UpperNames();
    AofRewrite.UnderstandSet(key, value);
    s := Advance(s, Acquire(argv));
    assert Live(s.store, s.clock) == map[];
    s := Advance(s, Mutate(false, []));
    s := Advance(s, AppendFail(0));
    assert s.history[0..] == [];
    assert Replay(map[], []) == map[];
  }

  lemma Advance(s: State, step: Step) returns (s': State)
    requires Reachable(s) && Enabled(s, step)
    ensures Reachable(s') && s' == Do(s, step)
  {
    s' := Do(s, step);
    ReachableStep(s, step);
  }
}
