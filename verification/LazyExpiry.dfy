/** Lazy and active expiry refine an eager store: expired entries that are still in the
    dict can be seen neither in a reply nor in the live view. */
module LazyExpiry {
  import opened ByteStrings
  import opened Keyspace
  import opened Commands

  /** A command answers from the live view, and its effect is that of the same command on
      the live view. */
  lemma RunOnLive(c: Command, now: int, ks: Keyspace)
    requires Sane(c)
    ensures Run(c, now, ks).reply == Run(c, now, Live(ks, now)).reply
    ensures Live(Run(c, now, ks).ks, now) == Run(c, now, Live(ks, now)).ks
  {
    hide PushLeft, PutFields, AddedFields, Flatten;
    var lv := Live(ks, now);
    match c
    case Del(keys) =>
      DeleteKeys(ks, keys, now);
      DeleteKeys(lv, keys, now);
      DeleteCount(ks, keys, now);
      assert Live(ks - (set k | k in keys), now) == lv - (set k | k in keys);
    case DbSize =>
      LiveOfLive(ks, now, now);
    case Set(key, value, ex) =>
    case Invalid(_) =>
    case _ =>
      assert Touched(lv, c.key, now) == lv == Live(Touched(ks, c.key, now), now);
      RunOnTouched(c, now, Touched(ks, c.key, now));
  }

  /** The same for a keyspace whose entry under the command's key, if any, is live. */
  lemma RunOnTouched(c: Command, now: int, ks: Keyspace)
    requires c.Expire? || c.LPush? || c.RPop? || c.HSet? || c.Get? || c.Ttl? || c.HGetAll?
    requires c.key in ks ==> !IsExpired(ks[c.key].expireAt, now)
    ensures Run(c, now, ks).reply == Run(c, now, Live(ks, now)).reply
    ensures Live(Run(c, now, ks).ks, now) == Run(c, now, Live(ks, now)).ks
  {
    hide PushLeft, PutFields, AddedFields, Flatten;
  }

  // ---- which commands are writes -------------------------------------------

  /** A command that is not logged and propagated changes nothing visible, whatever its
      arguments: at most it drops expired entries. */
  lemma NonWriteChangesNothing(argv: Argv, t: int, ks: Keyspace)
    requires !IsWrite(argv)
    ensures Live(Apply(argv, t, ks).ks, t) == Live(ks, t)
  {
    hide PyInt, SetOptions, Pairs, Flatten, TtlSeconds;
  }

  // ---- whole runs ----------------------------------------------------------

  /** A run of the store: commands at their times, and expiry steps (active cycles, full
      purges) that delete some set of keys, of which only expired ones are really removed. */
  datatype Event = Do(command: Command, at: int) | Sweep(sample: set<Bytes>, at: int)

  predicate SaneEvents(events: seq<Event>) {
    forall i :: 0 <= i < |events| && events[i].Do? ==> Sane(events[i].command)
  }

  predicate Monotone(events: seq<Event>, from: int) {
    && (forall i :: 0 <= i < |events| ==> from <= events[i].at)
    && (forall i, j :: 0 <= i < j < |events| ==> events[i].at <= events[j].at)
  }

  /** active_expire_cycle on the given sample. */
  function SweepStep(ks: Keyspace, sample: set<Bytes>, now: int): Keyspace {
    map k | k in ks && !(k in sample && IsExpired(ks[k].expireAt, now)) :: ks[k]
  }

  datatype Trace = Trace(ks: Keyspace, replies: seq<Reply>)

  /** The store as written: expired entries stay until a command or a sweep meets them. */
  function LazyRun(ks: Keyspace, events: seq<Event>): Trace
    decreases |events|
  {
    if events == [] then Trace(ks, [])
    else
      match events[0]
      case Do(c, now) =>
        var o := Run(c, now, ks);
        var rest := LazyRun(o.ks, events[1..]);
        Trace(rest.ks, [o.reply] + rest.replies)
      case Sweep(sample, now) => LazyRun(SweepStep(ks, sample, now), events[1..])
  }

  /** The reference: every expired entry is gone before each command; sweeps do nothing. */
  function EagerRun(ks: Keyspace, events: seq<Event>): Trace
    decreases |events|
  {
    if events == [] then Trace(ks, [])
    else
      match events[0]
      case Do(c, now) =>
        var o := Run(c, now, Live(ks, now));
        var rest := EagerRun(o.ks, events[1..]);
        Trace(rest.ks, [o.reply] + rest.replies)
      case Sweep(_, _) => EagerRun(ks, events[1..])
  }

  lemma LiveAfterSweepStep(ks: Keyspace, sample: set<Bytes>, t: int, u: int)
    requires t <= u
    ensures Live(SweepStep(ks, sample, t), u) == Live(ks, u)
  {
  }

  /** Over every run with a monotone clock the lazy store gives the eager store's replies and
      live view, whatever expiry steps are mixed in. */
  lemma {:induction false} LazyRefinesEager(lazy: Keyspace, eager: Keyspace, events: seq<Event>, t: int)
    requires SaneEvents(events) && Monotone(events, t) && Live(lazy, t) == Live(eager, t)
    ensures LazyRun(lazy, events).replies == EagerRun(eager, events).replies
    ensures forall u :: t <= u && (forall i :: 0 <= i < |events| ==> events[i].at <= u) ==>
              Live(LazyRun(lazy, events).ks, u) == Live(EagerRun(eager, events).ks, u)
    decreases |events|
  {
    hide Run, Live, SweepStep;
    if events == [] {
      forall u | t <= u ensures Live(lazy, u) == Live(eager, u) {
        LiveOfLive(lazy, t, u);
        LiveOfLive(eager, t, u);
      }
    } else {
      var now := events[0].at;
      LiveOfLive(lazy, t, now);
      LiveOfLive(eager, t, now);
      if events[0].Do? {
        var c := events[0].command;
        RunOnLive(c, now, lazy);
        RunOnLive(c, now, Live(eager, now));
        LiveOfLive(eager, now, now);
        LazyRefinesEager(Run(c, now, lazy).ks, Run(c, now, Live(eager, now)).ks, events[1..], now);
      } else {
        LiveAfterSweepStep(lazy, events[0].sample, now, now);
        LazyRefinesEager(SweepStep(lazy, events[0].sample, now), eager, events[1..], now);
      }
      assert forall i :: 1 <= i < |events| ==> events[1..][i - 1] == events[i];
    }
  }

  function CommandsOnly(events: seq<Event>): seq<Event> {
    if events == [] then []
    else (if events[0].Do? then [events[0]] else []) + CommandsOnly(events[1..])
  }

  lemma {:induction false} EagerIgnoresSweeps(ks: Keyspace, events: seq<Event>)
    ensures EagerRun(ks, events) == EagerRun(ks, CommandsOnly(events))
    decreases |events|
  {
    hide Run, Live;
    if events != [] {
      if events[0].Do? {
        EagerIgnoresSweeps(Run(events[0].command, events[0].at, Live(ks, events[0].at)).ks, events[1..]);
        assert CommandsOnly(events)[1..] == CommandsOnly(events[1..]);
      } else {
        EagerIgnoresSweeps(ks, events[1..]);
        assert CommandsOnly(events) == CommandsOnly(events[1..]);
      }
    }
  }

  lemma {:induction false} CommandsOnlyKeeps(events: seq<Event>, t: int)
    requires SaneEvents(events) && Monotone(events, t)
    ensures SaneEvents(CommandsOnly(events)) && Monotone(CommandsOnly(events), t)
    ensures forall i :: 0 <= i < |CommandsOnly(events)| ==> CommandsOnly(events)[i] in events
    decreases |events|
  {
    if events != [] {
      var now, tail := events[0].at, events[1..];
      assert forall i :: 0 <= i < |tail| ==> tail[i] == events[i + 1];
      CommandsOnlyKeeps(tail, now);
    }
  }

  /** Inserting any number of expiry steps anywhere in a run changes no reply and no live view. */
  lemma ExpiryStepsInvisible(ks: Keyspace, events: seq<Event>, t: int, u: int)
    requires SaneEvents(events) && Monotone(events, t)
    requires t <= u && forall i :: 0 <= i < |events| ==> events[i].at <= u
    ensures LazyRun(ks, events).replies == LazyRun(ks, CommandsOnly(events)).replies
    ensures Live(LazyRun(ks, events).ks, u) == Live(LazyRun(ks, CommandsOnly(events)).ks, u)
  {
    hide Live, LazyRun, EagerRun;
    CommandsOnlyKeeps(events, t);
    LazyRefinesEager(ks, ks, events, t);
    LazyRefinesEager(ks, ks, CommandsOnly(events), t);
    EagerIgnoresSweeps(ks, events);
  }
}
