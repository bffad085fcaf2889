/** The write path of `server.py`, the append-only file and the replication links of
    `replication/master.py` as one machine of interleaved steps.

    A writer holds the write lock from Acquire until its phase is Free again; full resyncs
    and rewrites take the same lock. Everything else (clock, expiry, commands that are not
    writes, sending the snapshot, flushing backlogs, connections failing) may happen between
    any two steps. */
module Primary {
  import opened ByteStrings
  import opened Keyspace
  import opened Commands
  import opened TimedLog
  import Resp
  import CommandLog
  import LazyExpiry
  import AofRewrite

  type ConnId = nat
  type Item = AofRewrite.Item

  datatype Config = Config(aofEnabled: bool, backlogMax: nat, pendingMax: nat)

  /** A ReplicaLink, with the state of the full_resync coroutine that serves it.
      `sent` lists the payloads written to the socket after the snapshot, `inflight` the
      batch taken from the backlog but not yet written. */
  datatype Link = Link(
    registered: bool, alive: bool, live: bool,
    snapped: bool, rdbSent: bool,
    offset: nat, backlog: seq<Bytes>, backlogBytes: nat,
    inflight: seq<Bytes>, sent: seq<Bytes>, pending: nat,
    // history: the snapshot, the master offset at it, and which propagated commands
    // ([from..upTo] of the history) this link has been given
    snapshot: Keyspace, snapOffset: nat, from: nat, upTo: nat)

  /** Where the holder of the write lock is. */
  datatype Phase =
    | Free
    | Ready(argv: Argv)
    | Append(todo: seq<Timed>)
    | Propagate(todo: seq<Timed>)
    | Snapshotting(id: ConnId)
    | Rewriting(entries: Keyspace)

  datatype State = State(
    cfg: Config, clock: int, store: Keyspace, phase: Phase,
    file: Bytes, healthy: bool,
    offset: nat, links: map<ConnId, Link>,
    // history: all propagated commands; the commands in the file, the torn bytes after
    // them and the command these were cut from; what a failed append left out of the file;
    // what it left out of the links `missed`; whether the file stands for the store
    history: seq<Timed>, aofLog: seq<Timed>, torn: Bytes, tornOf: Argv, unlogged: seq<Timed>,
    dropped: seq<Timed>, missed: set<ConnId>, faithful: bool)

  datatype Step =
    | Tick(to: int)
    | Sweep(sample: set<Bytes>)
    | Read(argv: Argv)
    | Acquire(argv: Argv)
    | Mutate(oom: bool, evicted: seq<Bytes>)
    | AppendOk
    | AppendFail(written: nat)
    | FsyncFail
    | PropagateOne(broken: set<ConnId>)
    | Register(id: ConnId)
    | TakeSnapshot
    | SendRdb(id: ConnId)
    | TakeBatch(id: ConnId)
    | WriteBatch(id: ConnId, n: nat)
    | Drain(id: ConnId)
    | Disconnect(id: ConnId)
    | Unregister(id: ConnId)
    | RewriteBegin
    | RewriteOk(items: seq<Item>)
    | RewriteFail

  // ---- pieces --------------------------------------------------------------

  /** `[b"DEL", key]` for every evicted key. */
  function Deletions(evicted: seq<Bytes>, at: int): (r: seq<Timed>)
    ensures |r| == |evicted| && forall i :: 0 <= i < |r| ==> r[i] == Timed([DEL, evicted[i]], at)
  {
    seq(|evicted|, i requires 0 <= i < |evicted| => Timed([DEL, evicted[i]], at))
  }

  function Payload(c: Timed): Bytes { Resp.EncodeCommand(c.argv) }

  /** What propagate does with one link; `broken` says that writing to it raises. */
  function PropagateLink(l: Link, payload: Bytes, offset: nat, cfg: Config, broken: bool): Link {
    if !l.registered || !l.alive then l
    else if !l.live then
      if l.backlogBytes + |payload| > cfg.backlogMax then l.(alive := false)
      else
        l.(backlog := l.backlog + [payload], backlogBytes := l.backlogBytes + |payload|,
           offset := offset, upTo := l.upTo + 1)
    else if l.pending >= cfg.pendingMax || broken then l.(alive := false)
    else l.(sent := l.sent + [payload], offset := offset, pending := l.pending + 1, upTo := l.upTo + 1)
  }

  predicate AnyRegistered(links: map<ConnId, Link>) {
    exists id :: id in links && links[id].registered
  }

  /** One round of the flush loop under the state lock: take the backlog, or go live. */
  function TakeBatchLink(l: Link, offset: nat): Link {
    if l.backlog == [] then l.(backlogBytes := 0, live := true, offset := offset)
    else l.(inflight := l.backlog, backlog := [], backlogBytes := 0)
  }

  function NewLink(offset: nat, position: nat): Link {
    Link(true, true, false, false, false, offset, [], 0, [], [], 0, map[], offset, position, position)
  }

  /** The program of a rewrite, every command stamped with the same time. */
  function Stamped(argvs: seq<Argv>, at: int): (r: seq<Timed>)
    ensures |r| == |argvs| && forall i :: 0 <= i < |r| ==> r[i] == Timed(argvs[i], at)
  {
    seq(|argvs|, i requires 0 <= i < |argvs| => Timed(argvs[i], at))
  }

  // ---- steps ---------------------------------------------------------------

  predicate Enabled(s: State, step: Step) {
    match step
    case Tick(to) => s.clock <= to
    case Sweep(_) => true
    case Read(argv) => !IsWrite(argv)
    case Acquire(argv) => s.phase.Free? && IsWrite(argv)
    case Mutate(_, _) => s.phase.Ready?
    case AppendOk => s.phase.Append? && s.phase.todo != [] && (s.cfg.aofEnabled ==> s.healthy)
    case AppendFail(n) =>
      && s.phase.Append? && s.phase.todo != [] && s.cfg.aofEnabled
      && n <= |Payload(s.phase.todo[0])| && (!s.healthy ==> n == 0)
    case FsyncFail => s.cfg.aofEnabled
    case PropagateOne(_) => s.phase.Propagate? && s.phase.todo != []
    case Register(id) => s.phase.Free? && id !in s.links
    case TakeSnapshot => s.phase.Snapshotting? && s.phase.id in s.links
    case SendRdb(id) => id in s.links && s.links[id].snapped && !s.links[id].rdbSent
    case TakeBatch(id) =>
      id in s.links && s.links[id].rdbSent && !s.links[id].live && s.links[id].inflight == []
    case WriteBatch(id, n) => id in s.links && 0 < n <= |s.links[id].inflight|
    case Drain(id) => id in s.links && s.links[id].pending > 0
    case Disconnect(id) => id in s.links
    case Unregister(id) => id in s.links
    case RewriteBegin => s.phase.Free? && s.cfg.aofEnabled
    case RewriteOk(items) => s.phase.Rewriting? && Enumerates(items, s.phase.entries)
    case RewriteFail => s.phase.Rewriting?
  }

  /** The body of a write command: before-snapshot, dispatch, memory limit, rollback.
      `evicted` are the keys the memory limit removed; `oom` that it could not be met. */
  function DoMutate(s: State, oom: bool, evicted: seq<Bytes>): State
    requires s.phase.Ready?
  {
    if s.cfg.aofEnabled && !s.healthy then s.(phase := Free)
    else
      var before := Live(s.store, s.clock);
      var o := Apply(s.phase.argv, s.clock, before);
      if o.reply.Err? then s.(store := o.ks, phase := Free)
      else if oom then s.(store := before, phase := Free)
      else
        s.(store := o.ks - (set k | k in evicted),
           phase := Append([Timed(s.phase.argv, s.clock)] + Deletions(evicted, s.clock)))
  }

  function DoAppendOk(s: State): State
    requires s.phase.Append? && s.phase.todo != []
  {
    var c := s.phase.todo[0];
    if !s.cfg.aofEnabled then s.(phase := Propagate(s.phase.todo))
    else s.(file := s.file + Payload(c), aofLog := s.aofLog + [c], phase := Propagate(s.phase.todo))
  }

  /** The writer failed after `n` bytes: the command is answered with MISCONF and dropped. */
  function DoAppendFail(s: State, n: nat): State
    requires s.phase.Append? && s.phase.todo != [] && n <= |Payload(s.phase.todo[0])|
  {
    var c := s.phase.todo[0];
    var s' := s.(file := s.file + Payload(c)[..n], healthy := false, phase := Free,
                 dropped := s.phase.todo, missed := s.links.Keys);
    if n == |Payload(c)| then s'.(aofLog := s.aofLog + [c], unlogged := s.phase.todo[1..])
    else if n == 0 then s'.(unlogged := s.phase.todo)
    else s'.(torn := Payload(c)[..n], tornOf := c.argv, unlogged := s.phase.todo)
  }

  function DoPropagate(s: State, broken: set<ConnId>): State
    requires s.phase.Propagate? && s.phase.todo != []
  {
    var c := s.phase.todo[0];
    var offset := if AnyRegistered(s.links) then s.offset + |Payload(c)| else s.offset;
    s.(offset := offset,
       history := s.history + [c],
       links := map id | id in s.links :: PropagateLink(s.links[id], Payload(c), offset, s.cfg, id in broken),
       phase := if |s.phase.todo| == 1 then Free else Append(s.phase.todo[1..]))
  }

  function Do(s: State, step: Step): State
    requires Enabled(s, step)
  {
    match step
    case Tick(to) => s.(clock := to)
    case Sweep(sample) => s.(store := LazyExpiry.SweepStep(s.store, sample, s.clock))
    case Read(argv) => s.(store := Apply(argv, s.clock, s.store).ks)
    case Acquire(argv) => s.(phase := Ready(argv))
    case Mutate(oom, evicted) => DoMutate(s, oom, evicted)
    case AppendOk => DoAppendOk(s)
    case AppendFail(n) => DoAppendFail(s, n)
    case FsyncFail => s.(healthy := false)
    case PropagateOne(broken) => DoPropagate(s, broken)
    case Register(id) =>
      s.(links := s.links[id := NewLink(s.offset, |s.history|)], phase := Snapshotting(id))
    case TakeSnapshot =>
      var ks := Live(s.store, s.clock);
      s.(store := ks, phase := Free,
         links := s.links[s.phase.id := s.links[s.phase.id].(snapped := true, snapshot := ks)])
    case SendRdb(id) => s.(links := s.links[id := s.links[id].(rdbSent := true)])
    case TakeBatch(id) => s.(links := s.links[id := TakeBatchLink(s.links[id], s.offset)])
    case WriteBatch(id, n) =>
      var l := s.links[id];
      s.(links := s.links[id := l.(sent := l.sent + l.inflight[..n], inflight := l.inflight[n..])])
    case Drain(id) => s.(links := s.links[id := s.links[id].(pending := s.links[id].pending - 1)])
    case Disconnect(id) => s.(links := s.links[id := s.links[id].(alive := false)])
    case Unregister(id) => s.(links := s.links[id := s.links[id].(alive := false, registered := false)])
    case RewriteBegin =>
      var ks := Live(s.store, s.clock);
      s.(store := ks, phase := Rewriting(ks))
    case RewriteOk(items) =>
      var program := AofRewrite.Program(items, s.clock);
      s.(file := CommandLog.EncodeLog(program), aofLog := Stamped(program, s.clock), torn := [], unlogged := [],
         faithful := TtlFree(s.phase.entries), phase := Free)
    case RewriteFail => s.(phase := Free)
  }

  predicate Agree(a: Keyspace, b: Keyspace, t: int) { Live(a, t) == Live(b, t) }

  /** A server that has just started. `faithful` records that the store came from replaying
      the file (or both are empty); after loading a snapshot it is false. */
  predicate Init(s: State) {
    && s.phase.Free? && s.healthy && s.links == map[] && s.history == []
    && s.torn == [] && s.unlogged == [] && s.missed == {} && Wf(s.store)
    && s.file == CommandLog.EncodeLog(Argvs(s.aofLog))
    && (forall i :: 0 <= i < |s.aofLog| ==> s.aofLog[i].argv != [])
    && (s.faithful ==> Agree(Replay(map[], s.aofLog), s.store, s.clock))
  }

  /** The state after a run, or None when some step of it was not possible. */
  function RunSteps(s: State, steps: seq<Step>): Option<State>
    decreases |steps|
  {
    if steps == [] then Some(s)
    else if !Enabled(s, steps[0]) then None
    else RunSteps(Do(s, steps[0]), steps[1..])
  }

  ghost predicate Reachable(s: State) {
    exists s0, steps :: Init(s0) && RunSteps(s0, steps) == Some(s)
  }
}
