/** From the master's store to a replica's: the bytes on a link, read back through the
    snapshot framing, the snapshot loader and the incremental parser. */
module FullSync {
  import opened ByteStrings
  import opened Keyspace
  import opened Commands
  import opened TimedLog
  import opened Primary
  import Resp
  import RespFraming
  import CommandLog
  import Snapshot
  import SnapshotProofs
  import Replica
  import PrimaryStreams
  import PrimaryConvergence
  import PrimaryDurability
  import LazyExpiry
  import LoggedCommands
  import TimelessLinks

  // ---- snapshots of links are well-formed ----------------------------------

  predicate SnapshotsWf(s: State) {
    forall id :: id in s.links ==> Wf(s.links[id].snapshot)
  }

  /** Only TakeSnapshot gives a link another snapshot, and it is taken from the store. */
  lemma StepKeepsSnapshotsWf(s: State, step: Step)
    requires SnapshotsWf(s) && Wf(s.store) && Enabled(s, step)
    ensures SnapshotsWf(Do(s, step))
  {
    hide Wf, Do, Enabled, Live;
    PrimaryStreams.SnapshotsFrom(s, step);
    PrimaryDurability.WfLive(s.store, s.clock);
    EmptyIsWf();
  }

  lemma EmptyIsWf()
    ensures Wf(map[])
  {
  }

  lemma {:induction false} RunKeepsSnapshotsWf(s: State, steps: seq<Step>)
    requires SnapshotsWf(s) && PrimaryDurability.Durable(s) && RunSteps(s, steps).Some?
    ensures SnapshotsWf(RunSteps(s, steps).value)
    decreases |steps|
  {
    hide Do, Enabled, SnapshotsWf, PrimaryDurability.FileOk, PrimaryDurability.PhaseOk, PrimaryDurability.Rebuilds;
    if steps != [] {
      PrimaryDurability.StepKeepsDurable(s, steps[0]);
      StepKeepsSnapshotsWf(s, steps[0]);
      RunKeepsSnapshotsWf(Do(s, steps[0]), steps[1..]);
    }
  }

  lemma LinkSnapshotWf(s: State, id: ConnId)
    requires Reachable(s) && id in s.links
    ensures Wf(s.links[id].snapshot)
  {
    hide RunSteps, PrimaryDurability.Durable, Wf;
    var s0, steps :| Init(s0) && RunSteps(s0, steps) == Some(s);
    PrimaryDurability.InitDurable(s0);
    RunKeepsSnapshotsWf(s0, steps);
  }

  // ---- deadlines of snapshots are positive ---------------------------------

  predicate PositiveDeadlines(ks: Keyspace) {
    forall k :: k in ks && ks[k].expireAt.Some? ==> ks[k].expireAt.value > 0
  }

  /** The clock counts milliseconds since the epoch, so it starts and stays non-negative. */
  predicate Positive(s: State) {
    s.clock >= 0 && forall id :: id in s.links ==> PositiveDeadlines(s.links[id].snapshot)
  }

  lemma StepKeepsPositive(s: State, step: Step)
    requires Positive(s) && Enabled(s, step)
    ensures Positive(Do(s, step))
  {
    hide Do, Enabled;
    PrimaryStreams.SnapshotsFrom(s, step);
    assert s.clock <= Do(s, step).clock by { ClockForward(s, step); }
  }

  lemma ClockForward(s: State, step: Step)
    requires Enabled(s, step)
    ensures s.clock <= Do(s, step).clock
  {
    hide Apply, Live, Payload, LazyExpiry.SweepStep, CommandLog.EncodeLog, TakeBatchLink, PropagateLink, IsWrite,
      Enumerates;
  }

  lemma {:induction false} RunKeepsPositive(s: State, steps: seq<Step>)
    requires Positive(s) && RunSteps(s, steps).Some?
    ensures Positive(RunSteps(s, steps).value)
    decreases |steps|
  {
    hide Do, Enabled, Positive;
    if steps != [] {
      StepKeepsPositive(s, steps[0]);
      RunKeepsPositive(Do(s, steps[0]), steps[1..]);
    }
  }

  lemma StoredPositive(ks: Keyspace)
    requires PositiveDeadlines(ks)
    ensures SnapshotProofs.StoredKeyspace(ks) == ks
  {
  }

  // ---- the wire ------------------------------------------------------------

  /** What the socket of a link has carried after the FULLRESYNC line. */
  function Wire(l: Link, items: seq<Snapshot.Item>, crc: Snapshot.Checksum): Bytes
    requires Snapshot.Dumpable(items)
  {
    var rdb := Snapshot.Dump(items, crc);
    Resp.Header(Resp.DOLLAR, |rdb|) + rdb + Flat(l.sent)
  }

  /** Limits under which the replica can read this link: the snapshot's and, for each read
      after the snapshot, the parser's. */
  predicate Readable(rdb: Bytes, r: Replica.BulkRead, cmds: seq<Argv>, lim: Resp.Limits, maxBuffer: nat, maxLen: nat) {
    && |rdb| <= maxLen && CommandLog.AllFitLog(cmds, lim)
    && (r.Body? ==> RespFraming.FeedsFit([], [r.leftover] + r.unread, lim, maxBuffer))
  }

  lemma LoadTtlFree(ks: Keyspace, items: seq<Snapshot.Item>, now: int, maxLen: nat, crc: Snapshot.Checksum)
    requires Wf(ks) && TtlFree(ks) && Enumerates(items, ks) && Snapshot.Dumpable(items)
    requires |Snapshot.Dump(items, crc)| <= maxLen
    ensures Snapshot.Load(Snapshot.Dump(items, crc), now, maxLen, crc) == Some(ks)
  {
    hide Snapshot.Load, Snapshot.Dump;
    SnapshotProofs.RoundTrip(items, ks, now, maxLen, crc);
    assert SnapshotProofs.StoredKeyspace(ks) == ks;
    PrimaryConvergence.LiveTtlFree(ks, now);
  }

  /** However the stream is cut, the replica loads what the dump of the link's snapshot
      stands for, without the entries expired on arrival. */
  lemma DumpArrives(s: State, id: ConnId, items: seq<Snapshot.Item>, crc: Snapshot.Checksum, rest: Bytes,
                    r: Replica.BulkRead, now: int, maxLen: nat)
    requires Reachable(s) && id in s.links && Enumerates(items, s.links[id].snapshot)
    requires Snapshot.Dumpable(items) && |Snapshot.Dump(items, crc)| <= maxLen
    requires var rdb := Snapshot.Dump(items, crc);
             Replica.Matches(r, Replica.FrameOf(Resp.Header(Resp.DOLLAR, |rdb|) + rdb + rest, maxLen))
    ensures r.Body? && r.leftover + Flat(r.unread) == rest
    ensures Snapshot.Load(r.rdb, now, maxLen, crc) ==
            Some(Live(SnapshotProofs.StoredKeyspace(s.links[id].snapshot), now))
  {
    hide Reachable, Snapshot.Load, Snapshot.Dump, Snapshot.Dumpable, Replica.FrameOf, Resp.Header, Flat;
    Replica.FrameOfSnapshot(Snapshot.Dump(items, crc), rest, maxLen);
    LinkSnapshotWf(s, id);
    SnapshotProofs.RoundTrip(items, s.links[id].snapshot, now, maxLen, crc);
  }

  /** The dump stands for the snapshot itself: a link's snapshot is taken from live entries,
      whose deadlines are positive. */
  lemma SnapshotArrives(s0: State, steps: seq<Step>, s: State, id: ConnId, items: seq<Snapshot.Item>,
                        crc: Snapshot.Checksum, rest: Bytes, r: Replica.BulkRead, now: int, maxLen: nat)
    requires Init(s0) && s0.clock >= 0 && RunSteps(s0, steps) == Some(s)
    requires id in s.links && Enumerates(items, s.links[id].snapshot)
    requires Snapshot.Dumpable(items) && |Snapshot.Dump(items, crc)| <= maxLen
    requires var rdb := Snapshot.Dump(items, crc);
             Replica.Matches(r, Replica.FrameOf(Resp.Header(Resp.DOLLAR, |rdb|) + rdb + rest, maxLen))
    ensures r.Body? && r.leftover + Flat(r.unread) == rest
    ensures Snapshot.Load(r.rdb, now, maxLen, crc) == Some(Live(s.links[id].snapshot, now))
  {
    hide RunSteps, Snapshot.Load, Snapshot.Dump, Snapshot.Dumpable, Replica.FrameOf, Resp.Header, Flat, Enumerates,
      PositiveDeadlines, SnapshotProofs.StoredKeyspace;
    assert Reachable(s);
    RunKeepsPositive(s0, steps);
    StoredPositive(s.links[id].snapshot);
    DumpArrives(s, id, items, crc, rest, r, now, maxLen);
  }

  lemma SentIsLog(s: State, id: ConnId)
    requires Reachable(s) && s.phase.Free? && PrimaryConvergence.Served(s, id) && id !in s.missed
    requires s.links[id].inflight == [] && s.links[id].backlog == []
    ensures s.links[id].from <= |s.history|
    ensures Flat(s.links[id].sent) == CommandLog.EncodeLog(Argvs(s.history[s.links[id].from..]))
  {
    hide Reachable, Replay, Live, Flat, Resp.EncodeCommand;
    PrimaryConvergence.ReplicasConverge(s, id);
    var l := s.links[id];
    var given := l.sent + l.inflight + l.backlog;
    assert given == l.sent;
    assert l.sent == CommandLog.Payloads(Argvs(s.history[l.from..]));
  }

  /** A caught-up replica holds the master's keyspace. However the stream is cut into the
      handshake parser's buffer and later reads, the snapshot is framed and loaded exactly;
      and provided no command arrived whole together with the end of the snapshot, the
      commands applied after it lead to the master's live keyspace. */
  lemma ReplicaReachesMaster(s: State, id: ConnId, items: seq<Snapshot.Item>, crc: Snapshot.Checksum,
                             parserBuf: Bytes, chunks: seq<Bytes>, r: Replica.BulkRead, log: seq<Timed>,
                             now: int, lim: Resp.Limits, maxBuffer: nat, maxLen: nat, recode: Bytes -> Bytes)
    requires Reachable(s) && s.phase.Free? && PrimaryConvergence.Served(s, id) && id !in s.missed
    requires var l := s.links[id];
             l.inflight == [] && l.backlog == [] && l.from <= |s.history|
    requires TtlFree(s.links[id].snapshot) && LogSetsNoTtl(s.history[s.links[id].from..])
    requires Argvs(log) == Argvs(s.history[s.links[id].from..])
    requires Enumerates(items, s.links[id].snapshot) && Snapshot.Dumpable(items)
    requires parserBuf + Flat(chunks) == Wire(s.links[id], items, crc)
    requires Readable(Snapshot.Dump(items, crc), r, Argvs(log), lim, maxBuffer, maxLen)
    requires Replica.Matches(r, Replica.FrameOf(parserBuf + Flat(chunks), maxLen))
    ensures r.Body? && Snapshot.Load(r.rdb, now, maxLen, crc) == Some(s.links[id].snapshot)
    ensures Resp.Drain(r.leftover, lim).Drained?
    ensures Resp.Drain(r.leftover, lim).messages == [] ==>
              var applied := Replica.Applied(r.leftover, r.unread, lim, maxBuffer);
              && applied.Drained?
              && Replica.ToCommands(applied.messages, recode) == Replica.Taken(Argvs(log), true)
              && Replay(s.links[id].snapshot, log) == Live(s.store, s.clock)
  {
    hide Reachable, Replay, Live, Snapshot.Load, Snapshot.Dump, Flat, Resp.Drain, Replica.Applied, Replica.FrameOf,
      Resp.Header, Argvs, LogSetsNoTtl, Snapshot.Dumpable, CommandLog.AllFitLog, Wf, TtlFree, Enumerates,
      CommandLog.EncodeLog, RespFraming.FeedsFit;
    var l := s.links[id];
    var rdb := Snapshot.Dump(items, crc);
    Replica.FrameOfSnapshot(rdb, Flat(l.sent), maxLen);
    LinkSnapshotWf(s, id);
    LoadTtlFree(l.snapshot, items, now, maxLen, crc);
    SentIsLog(s, id);
    StreamOfLog(Argvs(log), lim, recode);
    var rest := r.leftover + Flat(r.unread);
    Replica.LostIffCompleteInLeftover(r.leftover, r.unread, lim, maxBuffer);
    PrimaryConvergence.ReplicasConvergeWithoutTtl(s, id, log);
  }

  /** The same derived from what the clients sent: none of them set a deadline. */
  lemma ReplicaReachesMasterWithoutTtl(s0: State, steps: seq<Step>, s: State, id: ConnId, items: seq<Snapshot.Item>,
                                       crc: Snapshot.Checksum, parserBuf: Bytes, chunks: seq<Bytes>,
                                       r: Replica.BulkRead, now: int, lim: Resp.Limits, maxBuffer: nat,
                                       maxLen: nat, recode: Bytes -> Bytes)
    requires TimelessLinks.UntimedStart(s0) && LoggedCommands.AsksNoTtl(steps) && RunSteps(s0, steps) == Some(s)
    requires s.phase.Free? && PrimaryConvergence.Served(s, id) && id !in s.missed
    requires var l := s.links[id];
             l.inflight == [] && l.backlog == [] && l.from <= |s.history|
    requires Enumerates(items, s.links[id].snapshot) && Snapshot.Dumpable(items)
    requires parserBuf + Flat(chunks) == Wire(s.links[id], items, crc)
    requires Readable(Snapshot.Dump(items, crc), r, Argvs(s.history[s.links[id].from..]), lim, maxBuffer, maxLen)
    requires Replica.Matches(r, Replica.FrameOf(parserBuf + Flat(chunks), maxLen))
    ensures r.Body? && Snapshot.Load(r.rdb, now, maxLen, crc) == Some(s.links[id].snapshot)
    ensures Resp.Drain(r.leftover, lim).Drained?
    ensures Resp.Drain(r.leftover, lim).messages == [] ==>
              var applied := Replica.Applied(r.leftover, r.unread, lim, maxBuffer);
              var argvs := Argvs(s.history[s.links[id].from..]);
              && applied.Drained?
              && Replica.ToCommands(applied.messages, recode) == Replica.Taken(argvs, true)
              && forall log :: Argvs(log) == argvs ==> Replay(s.links[id].snapshot, log) == Live(s.store, s.clock)
  {
    hide RunSteps, Init, Replay, Live, Snapshot.Load, Snapshot.Dump, Flat, Resp.Drain, Replica.Applied,
      Replica.FrameOf, Resp.Header, Argvs, LogSetsNoTtl, Snapshot.Dumpable, CommandLog.AllFitLog, Wf, TtlFree,
      Enumerates, RespFraming.FeedsFit, Wire, Readable, LoggedCommands.AsksNoTtl, Replica.ToCommands;
    assert Reachable(s);
    TimelessLinks.LinksAreUntimed(s0, steps, s, id);
    var given := s.history[s.links[id].from..];
    ReplicaReachesMaster(s, id, items, crc, parserBuf, chunks, r, given, now, lim, maxBuffer, maxLen, recode);
    forall log | Argvs(log) == Argvs(given) ensures Replay(s.links[id].snapshot, log) == Live(s.store, s.clock) {
      PrimaryConvergence.ReplicasConvergeWithoutTtl(s, id, log);
    }
  }

  lemma StreamOfLog(cmds: seq<Argv>, lim: Resp.Limits, recode: Bytes -> Bytes)
    requires CommandLog.AllFitLog(cmds, lim)
    ensures Resp.Drain(CommandLog.EncodeLog(cmds), lim) == Resp.Drained(CommandLog.Messages(cmds), [])
    ensures Replica.ToCommands(CommandLog.Messages(cmds), recode) == Replica.Taken(cmds, true)
  {
    hide Resp.Drain, CommandLog.EncodeLog, CommandLog.CommandFits;
    CommandLog.EmptyIsIncomplete(lim);
    CommandLog.DrainOfLog(cmds, [], lim);
    assert CommandLog.EncodeLog(cmds) + [] == CommandLog.EncodeLog(cmds);
    Replica.CommandsOfLog(cmds, recode);
  }
}
