/** The append queue of `persistence/aof.py` as a machine: a caller that appends under the
    write lock, the writer task, the periodic fsync task, and the completion futures. */
module AofWriter {
  import opened ByteStrings

  datatype Fsync = Always | EverySec | Never
  datatype Status = Pending | Succeeded | Failed

  /** The caller of append: checking the failure flag, queueing, awaiting completion. */
  datatype Caller = Idle | Checked(payload: Bytes) | Waiting(id: nat)

  /** The writer task: waiting on the queue, holding an item, having written it, having
      fsynced it, or stopped for good. */
  datatype Writer = Ready | Holding(id: nat) | Written(id: nat) | Synced(id: nat) | Stopped

  datatype State = State(
    fsync: Fsync, capacity: nat,
    caller: Caller, queue: seq<nat>, writer: Writer, failure: bool,
    file: Bytes, synced: nat,
    // history: the file at the start, every payload ever queued and what became of it, the
    // file when the current append began, and which items reached the file completely
    origin: Bytes, payloads: seq<Bytes>, status: seq<Status>, base: Bytes, logged: seq<nat>)

  datatype Step =
    | Check(payload: Bytes)
    | Put
    | Return
    | Take
    | Write
    | WriteError(n: nat)
    | SyncItem
    | SyncItemError
    | Complete
    | SyncPeriodic
    | SyncPeriodicError

  predicate Enabled(s: State, step: Step) {
    match step
    case Check(_) => s.caller.Idle? && !s.failure
    case Put => s.caller.Checked? && |s.queue| < s.capacity
    case Return => s.caller.Waiting? && s.caller.id < |s.status| && !s.status[s.caller.id].Pending?
    case Take => s.writer.Ready? && s.queue != []
    case Write => s.writer.Holding? && s.writer.id < |s.payloads|
    case WriteError(n) => s.writer.Holding? && s.writer.id < |s.payloads| && n < |s.payloads[s.writer.id]|
    case SyncItem => s.writer.Written? && s.fsync.Always?
    case SyncItemError => s.writer.Written? && s.fsync.Always?
    case Complete => s.writer.Synced? || (s.writer.Written? && !s.fsync.Always?)
    case SyncPeriodic => s.fsync.EverySec?
    case SyncPeriodicError => s.fsync.EverySec?
  }

  function SetStatus(status: seq<Status>, id: nat, v: Status): (r: seq<Status>)
    ensures |r| == |status|
  {
    if id < |status| && status[id].Pending? then status[id := v] else status
  }

  /** _fail_pending: everything still queued is failed and forgotten. */
  function FailAll(status: seq<Status>, queue: seq<nat>): (r: seq<Status>)
    ensures |r| == |status|
    decreases |queue|
  {
    if queue == [] then status else FailAll(SetStatus(status, queue[0], Failed), queue[1..])
  }

  /** The writer gives up: failure flag, its item failed, the queue failed. */
  function Stop(s: State, id: nat): State {
    s.(failure := true, writer := Stopped, queue := [],
       status := FailAll(SetStatus(s.status, id, Failed), s.queue))
  }

  function Do(s: State, step: Step): State
    requires Enabled(s, step)
  {
    match step
    case Check(p) => s.(caller := Checked(p), base := s.file)
    case Put =>
      s.(caller := Waiting(|s.payloads|), queue := s.queue + [|s.payloads|],
         payloads := s.payloads + [s.caller.payload], status := s.status + [Pending])
    case Return => s.(caller := Idle)
    case Take => s.(writer := Holding(s.queue[0]), queue := s.queue[1..])
    case Write =>
      s.(writer := Written(s.writer.id), file := s.file + s.payloads[s.writer.id],
         logged := s.logged + [s.writer.id])
    case WriteError(n) => Stop(s.(file := s.file + s.payloads[s.writer.id][..n]), s.writer.id)
    case SyncItem => s.(writer := Synced(s.writer.id), synced := |s.file|)
    case SyncItemError => Stop(s, s.writer.id)
    case Complete => s.(writer := Ready, status := SetStatus(s.status, s.writer.id, Succeeded))
    case SyncPeriodic => s.(synced := |s.file|)
    case SyncPeriodicError => s.(failure := true, queue := [], status := FailAll(s.status, s.queue))
  }

  predicate Init(s: State) {
    && s.caller.Idle? && s.queue == [] && s.writer.Ready? && !s.failure && s.capacity > 0
    && s.payloads == [] && s.status == [] && s.logged == [] && s.file == s.base == s.origin && s.synced <= |s.file|
  }

  // ---- the invariant -------------------------------------------------------

  predicate Settled(s: State) {
    forall i :: 0 <= i < |s.status| ==> !s.status[i].Pending?
  }

  /** Where the single outstanding item is, and what the file then holds. */
  ghost predicate StageOk(s: State) {
    match s.caller
    case Idle => Settled(s) && s.queue == [] && (s.writer.Ready? || s.writer.Stopped?)
    case Checked(_) => Settled(s) && s.queue == [] && s.writer.Ready? && s.file == s.base
    case Waiting(id) =>
      && |s.payloads| == |s.status| == id + 1
      && (forall i :: 0 <= i < id ==> !s.status[i].Pending?)
      && var p := s.payloads[id];
         match s.writer
         case Ready =>
           (match s.status[id]
            case Pending => s.queue == [id] && s.file == s.base
            case Succeeded => s.queue == [] && s.file == s.base + p
            case Failed => s.queue == [] && s.file == s.base)
         case Holding(w) => w == id && s.status[id].Pending? && s.queue == [] && s.file == s.base
         case Written(w) => w == id && s.status[id].Pending? && s.queue == [] && s.file == s.base + p
         case Synced(w) => w == id && s.status[id].Pending? && s.queue == [] && s.file == s.base + p
         case Stopped =>
           s.status[id].Failed? && s.queue == [] && exists n :: IsPartial(s.file, s.base, p, n)
  }

  predicate IsPartial(file: Bytes, base: Bytes, p: Bytes, n: nat) {
    n <= |p| && file == base + p[..n]
  }

  ghost predicate Ok(s: State) {
    && |s.status| == |s.payloads| && s.capacity > 0 && s.synced <= |s.file|
    && (s.writer.Stopped? ==> s.failure)
    && (s.writer.Synced? ==> s.synced == |s.file|)
    && (forall i :: 0 <= i < |s.status| && s.status[i].Failed? ==> s.failure)
    && StageOk(s)
  }

  lemma FailNone(status: seq<Status>, id: nat)
    ensures FailAll(status, []) == status
    ensures FailAll(status, [id]) == SetStatus(status, id, Failed)
  {
    assert [id][1..] == [];
    assert FailAll(SetStatus(status, id, Failed), []) == SetStatus(status, id, Failed);
  }

  lemma FailureKeepsOk(s: State, step: Step)
    requires Ok(s) && Enabled(s, step)
    requires step.WriteError? || step.SyncItemError? || step.SyncPeriodicError?
    ensures Ok(Do(s, step))
  {
    hide FailAll;
    var s' := Do(s, step);
    FailNone(s.status, if s.queue != [] then s.queue[0] else 0);
    if step.SyncPeriodicError? {
      if s.queue != [] {
        assert s.queue == [s.queue[0]];
      }
    } else {
      FailNone(SetStatus(s.status, s.writer.id, Failed), 0);
      var p := s.payloads[s.writer.id];
      assert p[..|p|] == p;
      assert IsPartial(s'.file, s.base, p, if step.WriteError? then step.n else |p|);
    }
  }

  lemma StepKeepsOk(s: State, step: Step)
    requires Ok(s) && Enabled(s, step)
    ensures Ok(Do(s, step))
  {
    hide FailAll, IsPartial, Stop;
    if step.WriteError? || step.SyncItemError? || step.SyncPeriodicError? {
      FailureKeepsOk(s, step);
    }
  }

  // ---- order and durability ------------------------------------------------

  /** The payloads of the completely written items, in the order they were written. */
  function LoggedPayloads(s: State, ids: seq<nat>): (r: seq<Bytes>)
    requires forall i :: 0 <= i < |ids| ==> ids[i] < |s.payloads|
    ensures |r| == |ids| && forall i :: 0 <= i < |r| ==> r[i] == s.payloads[ids[i]]
  {
    seq(|ids|, i requires 0 <= i < |ids| => s.payloads[ids[i]])
  }

  predicate InAppendOrder(s: State) {
    && (forall i :: 0 <= i < |s.logged| ==> s.logged[i] < |s.payloads|)
    && (forall i, j :: 0 <= i < j < |s.logged| ==> s.logged[i] < s.logged[j])
  }

  /** End of the i-th written item in the file. */
  function EndOf(s: State, i: nat): nat
    requires InAppendOrder(s) && i < |s.logged|
  {
    |s.origin| + TotalLength(LoggedPayloads(s, s.logged[..i + 1]))
  }

  predicate InWriter(s: State, id: nat) {
    (s.writer.Written? || s.writer.Synced?) && s.writer.id == id
  }

  ghost predicate LogOk(s: State) {
    && InAppendOrder(s)
    && s.origin + Flat(LoggedPayloads(s, s.logged)) <= s.file
    && (!s.writer.Stopped? ==> s.file == s.origin + Flat(LoggedPayloads(s, s.logged)))
    && |s.status| == |s.payloads|
    && (forall id :: 0 <= id < |s.status| && s.status[id].Succeeded? ==> id in s.logged)
    && (forall i :: 0 <= i < |s.logged| && s.status[s.logged[i]].Pending? ==> InWriter(s, s.logged[i]))
    && (s.writer.Written? || s.writer.Synced? ==> s.writer.id in s.logged)
    && (s.writer.Synced? ==> s.synced == |s.file|)
    && (s.fsync.Always? ==>
          forall i :: 0 <= i < |s.logged| && s.status[s.logged[i]].Succeeded? ==> EndOf(s, i) <= s.synced)
  }

  lemma EndWithin(s: State, i: nat)
    requires InAppendOrder(s) && i < |s.logged|
    requires s.origin + Flat(LoggedPayloads(s, s.logged)) <= s.file
    ensures EndOf(s, i) <= |s.file|
  {
    hide Flat, TotalLength;
    var all := LoggedPayloads(s, s.logged);
    var a, b := s.logged[..i + 1], s.logged[i + 1..];
    assert s.logged == a + b;
    assert all == LoggedPayloads(s, a) + LoggedPayloads(s, b);
    FlatAppend(LoggedPayloads(s, a), LoggedPayloads(s, b));
    FlatLength(LoggedPayloads(s, a));
  }

  /** Payloads queued later do not change what is already in the file. */
  lemma SameLogged(s: State, s': State)
    requires InAppendOrder(s) && s.payloads <= s'.payloads && s'.logged == s.logged && s'.origin == s.origin
    ensures InAppendOrder(s') && LoggedPayloads(s', s'.logged) == LoggedPayloads(s, s.logged)
    ensures forall i :: 0 <= i < |s.logged| ==> EndOf(s', i) == EndOf(s, i)
  {
    hide TotalLength;
    forall i | 0 <= i < |s.logged| ensures EndOf(s', i) == EndOf(s, i) {
      assert LoggedPayloads(s', s'.logged[..i + 1]) == LoggedPayloads(s, s.logged[..i + 1]);
    }
  }

  lemma NewestLast(s: State, s': State)
    requires Ok(s) && LogOk(s) && Enabled(s, Write) && s' == Do(s, Write)
    ensures InAppendOrder(s') && s.writer.id !in s.logged
  {
    hide EndOf, LoggedPayloads;
  }

  lemma WriteKeepsLog(s: State)
    requires Ok(s) && LogOk(s) && Enabled(s, Write)
    ensures LogOk(Do(s, Write))
  {
    hide TotalLength, Flat, SetStatus, FailAll;
    var s' := Do(s, Write);
    var id := s.writer.id;
    NewestLast(s, s');
    assert LoggedPayloads(s', s'.logged) == LoggedPayloads(s, s.logged) + [s.payloads[id]];
    FlatSnoc(LoggedPayloads(s, s.logged), s.payloads[id]);
    assert s'.logged[|s.logged|] == id;
    forall i | 0 <= i < |s.logged| ensures EndOf(s', i) == EndOf(s, i) {
      assert s'.logged[..i + 1] == s.logged[..i + 1];
      assert LoggedPayloads(s', s'.logged[..i + 1]) == LoggedPayloads(s, s.logged[..i + 1]);
    }
  }

  /** Steps that write nothing and complete nothing. */
  lemma QuietKeepsLog(s: State, step: Step)
    requires Ok(s) && LogOk(s) && Enabled(s, step)
    requires step.Check? || step.Put? || step.Return? || step.Take? || step.SyncPeriodic? || step.SyncItem?
    ensures LogOk(Do(s, step))
  {
    hide TotalLength, Flat, EndOf, LoggedPayloads;
    var s' := Do(s, step);
    SameLogged(s, s');
    if step.SyncItem? || step.SyncPeriodic? {
      forall i | 0 <= i < |s.logged| ensures EndOf(s, i) <= |s.file| {
        EndWithin(s, i);
      }
    }
  }

  lemma CompleteKeepsLog(s: State)
    requires Ok(s) && LogOk(s) && Enabled(s, Complete)
    ensures LogOk(Do(s, Complete))
  {
    hide TotalLength, Flat, EndOf, LoggedPayloads;
    SameLogged(s, Do(s, Complete));
    forall i | 0 <= i < |s.logged| ensures EndOf(s, i) <= |s.file| {
      EndWithin(s, i);
    }
  }

  lemma FailureKeepsLog(s: State, step: Step)
    requires Ok(s) && LogOk(s) && Enabled(s, step)
    requires step.WriteError? || step.SyncItemError? || step.SyncPeriodicError?
    ensures LogOk(Do(s, step))
  {
    hide TotalLength, Flat, EndOf, LoggedPayloads, FailAll, IsPartial;
    var s' := Do(s, step);
    SameLogged(s, s');
    FailNone(s.status, if s.queue != [] then s.queue[0] else 0);
    if step.SyncPeriodicError? {
      if s.queue != [] {
        assert s.queue == [s.queue[0]];
      }
    } else {
      FailNone(SetStatus(s.status, s.writer.id, Failed), 0);
    }
  }

  lemma StepKeepsLog(s: State, step: Step)
    requires Ok(s) && LogOk(s) && Enabled(s, step)
    ensures LogOk(Do(s, step))
  {
    hide Do, Ok, LogOk;
    if step.Write? {
      WriteKeepsLog(s);
    } else if step.Complete? {
      CompleteKeepsLog(s);
    } else if step.WriteError? || step.SyncItemError? || step.SyncPeriodicError? {
      FailureKeepsLog(s, step);
    } else {
      QuietKeepsLog(s, step);
    }
  }

  function RunSteps(s: State, steps: seq<Step>): Option<State>
    decreases |steps|
  {
    if steps == [] then Some(s)
    else if !Enabled(s, steps[0]) then None
    else RunSteps(Do(s, steps[0]), steps[1..])
  }

  ghost predicate Reachable(s: State) {
    exists s0, steps :: Init(s0) && RunSteps(s0, steps) == Some(s)
  }

  lemma {:induction false} RunKeepsOk(s: State, steps: seq<Step>)
    requires Ok(s) && LogOk(s) && RunSteps(s, steps).Some?
    ensures Ok(RunSteps(s, steps).value) && LogOk(RunSteps(s, steps).value)
    decreases |steps|
  {
    hide Do, Enabled, Ok, LogOk;
    if steps != [] {
      StepKeepsOk(s, steps[0]);
      StepKeepsLog(s, steps[0]);
      RunKeepsOk(Do(s, steps[0]), steps[1..]);
    }
  }

  lemma InitOk(s: State)
    requires Init(s)
    ensures Ok(s) && LogOk(s)
  {
    assert LoggedPayloads(s, []) == [];
    assert s.origin + [] == s.file;
  }

  lemma ReachableOk(s: State)
    requires Reachable(s)
    ensures Ok(s) && LogOk(s)
  {
    hide RunSteps, LogOk, Ok;
    var s0, steps :| Init(s0) && RunSteps(s0, steps) == Some(s);
    InitOk(s0);
    RunKeepsOk(s0, steps);
  }

  // ---- results -------------------------------------------------------------

  /** An append seen from its caller is atomic: when it returns normally the file has grown
      by exactly its payload, and when it raises by a prefix of it. */
  lemma AppendIsAtomic(s: State)
    requires Reachable(s) && Enabled(s, Return)
    ensures s.caller.id < |s.payloads|
    ensures s.status[s.caller.id].Succeeded? ==> s.file == s.base + s.payloads[s.caller.id]
    ensures s.status[s.caller.id].Failed? ==>
              s.failure && exists n :: IsPartial(s.file, s.base, s.payloads[s.caller.id], n)
  {
    hide Reachable;
    ReachableOk(s);
    var p := s.payloads[s.caller.id];
    if s.status[s.caller.id].Failed? && s.writer.Ready? {
      assert p[..0] == [];
      assert IsPartial(s.file, s.base, p, 0);
    }
  }

  /** At most one item is ever outstanding, so the queue always has room. */
  lemma QueueNeverFull(s: State)
    requires Reachable(s)
    ensures |s.queue| <= 1
    ensures s.caller.Checked? ==> Enabled(s, Put)
    ensures forall i, j :: 0 <= i < j < |s.status| ==> !(s.status[i].Pending? && s.status[j].Pending?)
  {
    hide Reachable;
    ReachableOk(s);
  }

  /** What the one append past the failure check is about to add. */
  function Outstanding(s: State): Bytes {
    match s.caller
    case Idle => []
    case Checked(p) => p
    case Waiting(id) => if id < |s.payloads| then s.payloads[id] else []
  }

  /** Once the failure flag is set, be it by the periodic fsync while the writer runs on,
      only the append already past the check can still reach the file. */
  ghost predicate Ending(s: State, base: Bytes, last: Bytes) {
    && s.failure
    && if s.caller.Idle? then exists n :: IsPartial(s.file, base, last, n)
       else s.base == base && Outstanding(s) == last
  }

  lemma StepKeepsEnding(s: State, step: Step, base: Bytes, last: Bytes)
    requires Ok(s) && Ending(s, base, last) && Enabled(s, step)
    ensures Ending(Do(s, step), base, last)
  {
    hide FailAll;
    if step.Return? {
      var p := s.payloads[s.caller.id];
      assert p[..0] == [] && p[..|p|] == p;
      assert s.writer.Ready? ==>
          IsPartial(s.file, base, last, if s.status[s.caller.id].Succeeded? then |p| else 0);
    }
  }

  lemma {:induction false} RunKeepsEnding(s: State, steps: seq<Step>, base: Bytes, last: Bytes)
    requires Ok(s) && LogOk(s) && Ending(s, base, last) && RunSteps(s, steps).Some?
    ensures Ending(RunSteps(s, steps).value, base, last)
    decreases |steps|
  {
    hide Do, Enabled, Ok, LogOk, Ending;
    if steps != [] {
      StepKeepsOk(s, steps[0]);
      StepKeepsLog(s, steps[0]);
      StepKeepsEnding(s, steps[0], base, last);
      RunKeepsEnding(Do(s, steps[0]), steps[1..], base, last);
    }
  }

  /** The failure flag is final: whatever happens afterwards, nothing more is accepted, and
      the file is what it was, or when an append was past the check, what it was when that
      append began and a prefix of its payload. */
  lemma FailureIsFinal(s: State, steps: seq<Step>, s': State)
    requires Reachable(s) && s.failure && RunSteps(s, steps) == Some(s')
    ensures s'.failure && forall p :: !Enabled(s', Check(p))
    ensures s.caller.Idle? ==> s'.file == s.file
    ensures !s.caller.Idle? ==> exists n :: IsPartial(s'.file, s.base, Outstanding(s), n)
  {
    hide Reachable, RunSteps, LogOk;
    ReachableOk(s);
    var base := if s.caller.Idle? then s.file else s.base;
    var last := Outstanding(s);
    if s.caller.Idle? {
      assert IsPartial(s.file, base, last, 0);
    }
    RunKeepsOk(s, steps);
    RunKeepsEnding(s, steps, base, last);
    if !s'.caller.Idle? {
      StagePartial(s');
    }
  }

  /** While an append is outstanding the file is its start and a prefix of the payload. */
  lemma StagePartial(s: State)
    requires Ok(s) && !s.caller.Idle?
    ensures exists n :: IsPartial(s.file, s.base, Outstanding(s), n)
  {
    var p := Outstanding(s);
    assert p[..0] == [] && p[..|p|] == p;
    assert IsPartial(s.file, s.base, p, 0) || IsPartial(s.file, s.base, p, |p|) || s.writer.Stopped?;
  }

  /** After the writer has stopped nobody is left waiting, and no step writes again. */
  lemma StoppedIsFinal(s: State, step: Step)
    requires Reachable(s) && s.writer.Stopped?
    ensures s.queue == [] && Settled(s) && s.failure
    ensures Enabled(s, step) ==> Do(s, step).file == s.file && Do(s, step).writer.Stopped?
  {
    hide Reachable;
    ReachableOk(s);
  }

  /** The file is the initial file followed by the completely written payloads in append
      order (and, once the writer has stopped, perhaps a torn one); a successful completion
      means the payload is among them, and under `always` that it has been fsynced. */
  lemma SuccessIsDurable(s: State, id: nat)
    requires Reachable(s) && id < |s.status| && s.status[id].Succeeded?
    ensures InAppendOrder(s) && s.origin + Flat(LoggedPayloads(s, s.logged)) <= s.file
    ensures !s.writer.Stopped? ==> s.file == s.origin + Flat(LoggedPayloads(s, s.logged))
    ensures exists i :: 0 <= i < |s.logged| && s.logged[i] == id && (s.fsync.Always? ==> EndOf(s, i) <= s.synced)
  {
    hide Reachable, Ok, EndOf, Flat, LoggedPayloads;
    ReachableOk(s);
    var i :| 0 <= i < |s.logged| && s.logged[i] == id;
  }

  /** What is on disk stays there. */
  lemma SyncedIsKept(s: State, step: Step)
    requires Reachable(s) && Enabled(s, step)
    ensures s.synced <= Do(s, step).synced && s.file <= Do(s, step).file
    ensures s.synced <= |s.file|
  {
    hide Reachable, FailAll;
    ReachableOk(s);
  }

  /** Under everysec a periodic fsync makes durable everything written before it. */
  lemma PeriodicSyncIsDurable(s: State, i: nat)
    requires Reachable(s) && Enabled(s, SyncPeriodic) && i < |s.logged|
    ensures InAppendOrder(s) && EndOf(s, i) <= Do(s, SyncPeriodic).synced
  {
    hide Reachable, Ok, EndOf, Flat, LoggedPayloads;
    ReachableOk(s);
    EndWithin(s, i);
  }

  // ---- every append is answered, and every torn length occurs ---------------

  lemma OneMore(s: State, step: Step, rest: seq<Step>)
    requires Enabled(s, step)
    ensures RunSteps(s, [step] + rest) == RunSteps(Do(s, step), rest)
  {
    hide Do, Enabled;
    assert ([step] + rest)[1..] == rest;
  }

  lemma NoMore(s: State)
    ensures RunSteps(s, []) == Some(s)
  {
  }

  /** Every length at which a write can be cut short occurs: the converse of AppendIsAtomic. */
  lemma EveryCutOccurs(s: State, payload: Bytes, n: nat) returns (s': State)
    requires Reachable(s) && s.caller.Idle? && !s.failure && n < |payload|
    ensures Reachable(s') && Enabled(s', Return) && s'.status[s'.caller.id].Failed?
    ensures s'.file == s.file + payload[..n] && s'.base == s.file
    ensures s'.caller.id < |s'.payloads| && s'.payloads[s'.caller.id] == payload
  {
    hide Reachable, FailAll, EndOf, Flat, LoggedPayloads;
    ReachableOk(s);
    var s1 := Advance(s, Check(payload));
    var s2 := Advance(s1, Put);
    assert s2.queue == [|s.payloads|];
    var s3 := Advance(s2, Take);
    assert s3.queue == [] && s3.status[|s.payloads|] == Pending;
    s' := Advance(s3, WriteError(n));
    FailNone(SetStatus(s3.status, s3.writer.id, Failed), 0);
  }

  lemma Advance(s: State, step: Step) returns (s': State)
    requires Reachable(s) && Enabled(s, step)
    ensures Reachable(s') && s' == Do(s, step)
  {
    hide Do, Enabled, Init;
    s' := Do(s, step);
    var s0, steps :| Init(s0) && RunSteps(s0, steps) == Some(s);
    RunSnoc(s0, steps, step);
  }

  lemma {:induction false} RunSnoc(s: State, steps: seq<Step>, step: Step)
    requires RunSteps(s, steps).Some? && Enabled(RunSteps(s, steps).value, step)
    ensures RunSteps(s, steps + [step]) == Some(Do(RunSteps(s, steps).value, step))
    decreases |steps|
  {
    hide Do, Enabled;
    if steps == [] {
      assert (steps + [step])[1..] == [];
      assert RunSteps(Do(s, step), []) == Some(Do(s, step));
    } else {
      assert (steps + [step])[1..] == steps[1..] + [step];
      RunSnoc(Do(s, steps[0]), steps[1..], step);
    }
  }

  /** Whoever waits for an append can get its answer, by steps of the writer alone. */
  lemma AppendIsAnswered(s: State) returns (steps: seq<Step>)
    requires Reachable(s) && s.caller.Waiting?
    ensures RunSteps(s, steps).Some? && Enabled(RunSteps(s, steps).value, Return)
    ensures !s.failure ==>
              var s' := RunSteps(s, steps).value;
              s'.caller.id < |s'.status| && s'.status[s'.caller.id].Succeeded?
  {
    hide Reachable, RunSteps, FailAll, Flat, LoggedPayloads, EndOf;
    ReachableOk(s);
    assert !s.failure ==> !s.status[s.caller.id].Failed?;
    steps := AnswerFrom(s, 5);
  }

  /** How many steps the writer needs at most. */
  function Distance(s: State): nat {
    match s.writer
    case Ready => 5
    case Holding(_) => 4
    case Written(_) => 3
    case Synced(_) => 2
    case Stopped => 0
  }

  lemma {:induction false} AnswerFrom(s: State, n: nat) returns (steps: seq<Step>)
    requires Ok(s) && s.caller.Waiting? && (!s.failure ==> !s.status[s.caller.id].Failed?)
    requires s.status[s.caller.id].Pending? ==> Distance(s) <= n
    ensures RunSteps(s, steps).Some? && Enabled(RunSteps(s, steps).value, Return)
    ensures !s.failure ==>
              var s' := RunSteps(s, steps).value;
              s'.caller.id < |s'.status| && s'.status[s'.caller.id].Succeeded?
    decreases n
  {
    hide RunSteps, FailAll;
    if !s.status[s.caller.id].Pending? {
      steps := [];
      NoMore(s);
    } else {
      var next := match s.writer
        case Ready => Take
        case Holding(_) => Write
        case Written(_) => if s.fsync.Always? then SyncItem else Complete
        case Synced(_) => Complete;
      StepKeepsOk(s, next);
      var rest := AnswerFrom(Do(s, next), n - 1);
      OneMore(s, next, rest);
      steps := [next] + rest;
    }
  }
}
