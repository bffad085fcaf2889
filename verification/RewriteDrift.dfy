/** A rewrite writes deadlines in whole seconds, so replaying the rewritten file keeps some
    entries a little longer than the store did. What that means for the commands after it. */
module RewriteDrift {
  import opened ByteStrings
  import opened Keyspace
  import opened Commands
  import opened TimedLog
  import opened AofRewrite
  import opened Primary
  import LazyExpiry
  import CommandLog
  import PrimaryDurability
  import Restart

  /** For each key the deadline a rewrite compiled. */
  type Due = map<Bytes, int>

  // ---- two keyspaces that differ in deadlines ------------------------------

  /** The same content; the deadline is the same too, or it is the compiled one and less than
      `slack` later in `b`. */
  predicate Near(k: Bytes, a: Entry, b: Entry, due: Due, slack: int) {
    && a.content == b.content
    && (a.expireAt == b.expireAt ||
        (a.expireAt.Some? && b.expireAt.Some? && k in due && a.expireAt.value == due[k] &&
         a.expireAt.value <= b.expireAt.value < a.expireAt.value + slack))
  }

  /** Past its compiled deadline, but not yet past the later one it got. */
  predicate Fading(k: Bytes, e: Entry, due: Due, slack: int, t: int) {
    k in due && e.expireAt.Some? && due[k] <= t < e.expireAt.value < due[k] + slack
  }

  /** `b` has the entries of `a`, and besides them only fading ones. */
  predicate Fades(a: Keyspace, b: Keyspace, due: Due, slack: int, t: int) {
    && a.Keys <= b.Keys
    && (forall k :: k in a ==> Near(k, a[k], b[k], due, slack))
    && (forall k :: k in b && k !in a ==> Fading(k, b[k], due, slack, t))
  }

  predicate LiveFades(a: Keyspace, b: Keyspace, due: Due, slack: int, t: int) {
    Fades(Live(a, t), Live(b, t), due, slack, t)
  }

  /** The same without any fading entry. */
  predicate LiveClose(a: Keyspace, b: Keyspace, due: Due, slack: int, t: int) {
    LiveFades(a, b, due, slack, t) && Live(a, t).Keys == Live(b, t).Keys
  }

  /** No key is within the time after its compiled deadline in which it may be fading. */
  predicate Clear(due: Due, slack: int, t: int) {
    forall k :: k in due ==> !(due[k] <= t < due[k] + slack)
  }

  lemma ClearIsClose(a: Keyspace, b: Keyspace, due: Due, slack: int, t: int)
    requires LiveFades(a, b, due, slack, t) && Clear(due, slack, t)
    ensures LiveClose(a, b, due, slack, t)
  {
    hide Live;
    assert Live(b, t).Keys <= Live(a, t).Keys;
  }

  /** Time alone takes nothing away from this: keys fade and go. */
  lemma FadesLater(a: Keyspace, b: Keyspace, due: Due, slack: int, t: int, u: int)
    requires LiveFades(a, b, due, slack, t) && t <= u
    ensures LiveFades(a, b, due, slack, u)
  {
    LiveOfLive(a, t, u);
    LiveOfLive(b, t, u);
    var x, y := Live(a, t), Live(b, t);
    forall k | k in x ensures IsExpired(y[k].expireAt, u) ==> IsExpired(x[k].expireAt, u) {
      assert Near(k, x[k], y[k], due, slack);
    }
    forall k | k in Live(b, u) && k !in Live(a, u) ensures Fading(k, b[k], due, slack, u) {
      assert k in y;
      if k in x {
        assert Near(k, x[k], y[k], due, slack);
      } else {
        assert Fading(k, y[k], due, slack, t);
      }
    }
  }

  // ---- one command ---------------------------------------------------------

  /** Gone from `a`, still in `b`. */
  predicate OnlyIn(k: Bytes, a: Keyspace, b: Keyspace) { k in b && k !in a }

  /** A command that takes an entry which is only fading for a living one: a push or field
      write on it, or a new deadline that outlives the compiled one by `slack`. */
  predicate Harmful(c: Command, t: int, a: Keyspace, b: Keyspace, due: Due, slack: int) {
    match c
    case LPush(key, _) => OnlyIn(key, a, b)
    case HSet(key, _) => OnlyIn(key, a, b)
    case Expire(key, n) =>
      OnlyIn(key, a, b) && n > 0 && (key in due ==> t + n * 1000 >= due[key] + slack)
    case _ => false
  }

  /** The command does not look at an entry that is only fading, nor at deadlines. */
  predicate Unaffected(c: Command, a: Keyspace, b: Keyspace) {
    match c
    case Ttl(_) => false
    case Set(_, _, _) => true
    case Invalid(_) => true
    case DbSize => a.Keys == b.Keys
    case Del(keys) => forall k :: k in keys ==> !OnlyIn(k, a, b)
    case _ => !OnlyIn(c.key, a, b)
  }

  lemma AllLive(ks: Keyspace, t: int)
    requires Live(ks, t) == ks
    ensures forall k :: k in ks ==> !IsExpired(ks[k].expireAt, t)
  {
    forall k | k in ks ensures !IsExpired(ks[k].expireAt, t) {
      assert k in Live(ks, t);
    }
  }

  /** A command on two such keyspaces, all live, leaves them so if and only if it is not
      harmful; and both answer alike if it looks at no fading entry. */
  lemma RunFades(c: Command, t: int, a: Keyspace, b: Keyspace, due: Due, slack: int)
    requires Fades(a, b, due, slack, t) && Live(a, t) == a && Live(b, t) == b
    ensures Fades(Run(c, t, a).ks, Run(c, t, b).ks, due, slack, t) <==> !Harmful(c, t, a, b, due, slack)
    ensures Unaffected(c, a, b) ==> Run(c, t, a).reply == Run(c, t, b).reply
  {
    hide RunExpire, RunLPush, RunHSet, RunRPop, RunRead, Live, Fades, Near, Fading, Delete;
    AllLive(a, t);
    AllLive(b, t);
    match c
    case Del(keys) => DeleteFades(keys, t, a, b, due, slack);
    case DbSize => assert |a| == |a.Keys| && |b.Keys| == |b|;
    case Set(key, value, ex) => SetFades(c, t, a, b, due, slack);
    case Invalid(_) =>
    case Expire(_, _) => OnKeyFades(c, t, a, b, due, slack);
    case LPush(_, _) => OnKeyFades(c, t, a, b, due, slack);
    case HSet(_, _) => OnKeyFades(c, t, a, b, due, slack);
    case RPop(_) => ReadFades(c, t, a, b, due, slack);
    case Get(_) => ReadFades(c, t, a, b, due, slack);
    case Ttl(_) => ReadFades(c, t, a, b, due, slack);
    case HGetAll(_) => ReadFades(c, t, a, b, due, slack);
  }

  lemma SetFades(c: Command, t: int, a: Keyspace, b: Keyspace, due: Due, slack: int)
    requires c.Set? && Fades(a, b, due, slack, t)
    ensures Fades(Run(c, t, a).ks, Run(c, t, b).ks, due, slack, t)
  {
  }

  lemma DeleteFades(keys: seq<Bytes>, t: int, a: Keyspace, b: Keyspace, due: Due, slack: int)
    requires Fades(a, b, due, slack, t)
    requires forall k :: k in a ==> !IsExpired(a[k].expireAt, t)
    requires forall k :: k in b ==> !IsExpired(b[k].expireAt, t)
    ensures Fades(Delete(a, keys, t).0, Delete(b, keys, t).0, due, slack, t)
    ensures Unaffected(Del(keys), a, b) ==> Delete(a, keys, t).1 == Delete(b, keys, t).1
  {
    DeleteKeys(a, keys, t);
    DeleteKeys(b, keys, t);
    if Unaffected(Del(keys), a, b) {
      DeleteAlike(a, b, keys, t);
    }
  }

  lemma OnKeyFades(c: Command, t: int, a: Keyspace, b: Keyspace, due: Due, slack: int)
    requires c.Expire? || c.LPush? || c.HSet?
    requires Fades(a, b, due, slack, t)
    requires c.key in a ==> !IsExpired(a[c.key].expireAt, t)
    requires c.key in b ==> !IsExpired(b[c.key].expireAt, t)
    ensures Fades(Run(c, t, a).ks, Run(c, t, b).ks, due, slack, t) <==> !Harmful(c, t, a, b, due, slack)
    ensures Unaffected(c, a, b) ==> Run(c, t, a).reply == Run(c, t, b).reply
  {
    hide Run, Fades;
    if Harmful(c, t, a, b, due, slack) {
      HarmShows(c, t, a, b, due, slack);
    } else {
      HarmlessFades(c, t, a, b, due, slack);
    }
  }

  lemma HarmlessFades(c: Command, t: int, a: Keyspace, b: Keyspace, due: Due, slack: int)
    requires (c.Expire? || c.LPush? || c.HSet?) && !Harmful(c, t, a, b, due, slack)
    requires Fades(a, b, due, slack, t)
    requires c.key in a ==> !IsExpired(a[c.key].expireAt, t)
    requires c.key in b ==> !IsExpired(b[c.key].expireAt, t)
    ensures Fades(Run(c, t, a).ks, Run(c, t, b).ks, due, slack, t)
    ensures Unaffected(c, a, b) ==> Run(c, t, a).reply == Run(c, t, b).reply
  {
    hide PushLeft, PutFields, AddedFields, Flatten;
    if OnlyIn(c.key, a, b) {
      assert Fading(c.key, b[c.key], due, slack, t);
    }
  }

  /** A push or field write brings the key back without deadline where it was gone, and with
      the old one where it was fading; a new deadline is too late for a fading key. */
  lemma HarmShows(c: Command, t: int, a: Keyspace, b: Keyspace, due: Due, slack: int)
    requires Fades(a, b, due, slack, t) && Harmful(c, t, a, b, due, slack)
    requires !IsExpired(b[c.key].expireAt, t)
    ensures !Fades(Run(c, t, a).ks, Run(c, t, b).ks, due, slack, t)
  {
    hide PushLeft, PutFields, AddedFields, Flatten;
    var a', b' := Run(c, t, a).ks, Run(c, t, b).ks;
    assert Fading(c.key, b[c.key], due, slack, t);
    match c
    case LPush(key, _) => assert key in a' && key in b' && !Near(key, a'[key], b'[key], due, slack);
    case HSet(key, _) => assert key in a' && key in b' && !Near(key, a'[key], b'[key], due, slack);
    case Expire(key, _) => assert key in b' && key !in a' && !Fading(key, b'[key], due, slack, t);
  }

  lemma ReadFades(c: Command, t: int, a: Keyspace, b: Keyspace, due: Due, slack: int)
    requires c.RPop? || c.Get? || c.Ttl? || c.HGetAll?
    requires Fades(a, b, due, slack, t)
    requires c.key in a ==> !IsExpired(a[c.key].expireAt, t)
    requires c.key in b ==> !IsExpired(b[c.key].expireAt, t)
    ensures Fades(Run(c, t, a).ks, Run(c, t, b).ks, due, slack, t)
    ensures Unaffected(c, a, b) ==> Run(c, t, a).reply == Run(c, t, b).reply
  {
    hide PushLeft, PutFields, AddedFields, Flatten;
  }

  lemma {:induction false} DeleteAlike(a: Keyspace, b: Keyspace, keys: seq<Bytes>, t: int)
    requires forall k :: k in keys ==> (k in a <==> k in b)
    requires forall k :: k in a ==> !IsExpired(a[k].expireAt, t)
    requires forall k :: k in b ==> !IsExpired(b[k].expireAt, t)
    ensures Delete(a, keys, t).1 == Delete(b, keys, t).1
    decreases |keys|
  {
    if keys != [] {
      DeleteAlike(a - {keys[0]}, b - {keys[0]}, keys[1..], t);
    }
  }

  /** The same of any two keyspaces, whatever expired entries linger in them. */
  lemma ApplyFadesIff(argv: Argv, t: int, a: Keyspace, b: Keyspace, due: Due, slack: int)
    requires LiveFades(a, b, due, slack, t)
    ensures LiveFades(Apply(argv, t, a).ks, Apply(argv, t, b).ks, due, slack, t) <==>
            !Harmful(Understand(argv), t, Live(a, t), Live(b, t), due, slack)
    ensures Unaffected(Understand(argv), Live(a, t), Live(b, t)) ==>
              Apply(argv, t, a).reply == Apply(argv, t, b).reply
  {
    hide Understand, Run, Live, Fades, Harmful, Unaffected;
    UnderstandSane(argv);
    LazyExpiry.RunOnLive(Understand(argv), t, a);
    LazyExpiry.RunOnLive(Understand(argv), t, b);
    LiveOfLive(a, t, t);
    LiveOfLive(b, t, t);
    RunFades(Understand(argv), t, Live(a, t), Live(b, t), due, slack);
  }

  // ---- a log of commands ---------------------------------------------------

  predicate OrderedFrom(log: seq<Timed>, t: int) {
    && (forall i :: 0 <= i < |log| ==> t <= log[i].at)
    && (forall i, j :: 0 <= i < j < |log| ==> log[i].at <= log[j].at)
  }

  /** After every command of the log. */
  predicate FadesThroughout(a: Keyspace, b: Keyspace, log: seq<Timed>, due: Due, slack: int)
    decreases |log|
  {
    log == [] ||
    (var a', b' := Apply(log[0].argv, log[0].at, a).ks, Apply(log[0].argv, log[0].at, b).ks;
     LiveFades(a', b', due, slack, log[0].at) && FadesThroughout(a', b', log[1..], due, slack))
  }

  predicate NoneHarmful(a: Keyspace, b: Keyspace, log: seq<Timed>, due: Due, slack: int)
    decreases |log|
  {
    log == [] ||
    (var c := log[0];
     && !Harmful(Understand(c.argv), c.at, Live(a, c.at), Live(b, c.at), due, slack)
     && NoneHarmful(Apply(c.argv, c.at, a).ks, Apply(c.argv, c.at, b).ks, log[1..], due, slack))
  }

  /** Exactly the logs without a harmful command keep the difference to fading entries all
      the way; and then it is so at the end, too. */
  lemma {:induction false} ReplayFadesIff(a: Keyspace, b: Keyspace, log: seq<Timed>, due: Due, slack: int,
                                          t: int, u: int)
    requires LiveFades(a, b, due, slack, t) && OrderedFrom(log, t)
    requires t <= u && forall i :: 0 <= i < |log| ==> log[i].at <= u
    ensures FadesThroughout(a, b, log, due, slack) <==> NoneHarmful(a, b, log, due, slack)
    ensures NoneHarmful(a, b, log, due, slack) ==> LiveFades(Replay(a, log), Replay(b, log), due, slack, u)
    decreases |log|
  {
    hide Apply, LiveFades, Harmful;
    if log == [] {
      FadesLater(a, b, due, slack, t, u);
    } else {
      var c, rest := log[0], log[1..];
      var a', b' := Apply(c.argv, c.at, a).ks, Apply(c.argv, c.at, b).ks;
      FadesLater(a, b, due, slack, t, c.at);
      ApplyFadesIff(c.argv, c.at, a, b, due, slack);
      if LiveFades(a', b', due, slack, c.at) {
        assert forall i :: 0 <= i < |rest| ==> rest[i] == log[i + 1];
        ReplayFadesIff(a', b', rest, due, slack, c.at, u);
      }
    }
  }

  /** What can make a key live on: LPUSH, HSET, and EXPIRE with a positive time. */
  predicate Revives(c: Command) {
    c.LPush? || c.HSet? || (c.Expire? && c.seconds > 0)
  }

  /** No such command hits a key just after its own compiled deadline. */
  predicate Spared(log: seq<Timed>, due: Due, slack: int) {
    forall i :: 0 <= i < |log| ==>
      var c := Understand(log[i].argv);
      Revives(c) && c.key in due ==> !(due[c.key] <= log[i].at < due[c.key] + slack)
  }

  /** Harm is only done in that time. */
  lemma HarmfulInWindow(c: Command, t: int, a: Keyspace, b: Keyspace, due: Due, slack: int)
    requires Fades(a, b, due, slack, t) && Harmful(c, t, a, b, due, slack)
    ensures Revives(c) && c.key in due && due[c.key] <= t < due[c.key] + slack
  {
    assert Fading(c.key, b[c.key], due, slack, t);
  }

  /** With a slack of a second, which is what a rewrite costs, every new deadline is too late. */
  lemma HarmfulIsReviving(c: Command, t: int, a: Keyspace, b: Keyspace, due: Due)
    requires Fades(a, b, due, 1000, t)
    ensures Harmful(c, t, a, b, due, 1000) <==> Revives(c) && OnlyIn(c.key, a, b)
  {
    if Revives(c) && OnlyIn(c.key, a, b) {
      assert Fading(c.key, b[c.key], due, 1000, t);
    }
  }

  lemma {:induction false} SparedIsHarmless(a: Keyspace, b: Keyspace, log: seq<Timed>, due: Due, slack: int, t: int)
    requires LiveFades(a, b, due, slack, t) && OrderedFrom(log, t) && Spared(log, due, slack)
    ensures NoneHarmful(a, b, log, due, slack)
    decreases |log|
  {
    hide Apply, Fades, Harmful, Understand, Revives, Live;
    if log != [] {
      var c, rest := log[0], log[1..];
      FadesLater(a, b, due, slack, t, c.at);
      ApplyFadesIff(c.argv, c.at, a, b, due, slack);
      if Harmful(Understand(c.argv), c.at, Live(a, c.at), Live(b, c.at), due, slack) {
        HarmfulInWindow(Understand(c.argv), c.at, Live(a, c.at), Live(b, c.at), due, slack);
        assert false;
      }
      assert forall i :: 0 <= i < |rest| ==> rest[i] == log[i + 1];
      SparedIsHarmless(Apply(c.argv, c.at, a).ks, Apply(c.argv, c.at, b).ks, rest, due, slack, c.at);
    }
  }

  // ---- after a rewrite -----------------------------------------------------

  /** The deadlines a rewrite compiles. */
  function Deadlines(ks: Keyspace): Due {
    map k | k in ks && ks[k].expireAt.Some? :: ks[k].expireAt.value
  }

  lemma RewriteFades(ks: Keyspace, items: seq<Item>, program: seq<Timed>, now: int, delay: int)
    requires Enumerates(items, ks) && Wf(ks) && Live(ks, now) == ks
    requires Argvs(program) == Program(items, now) && Within(program, now, delay)
    ensures Replay(map[], program).Keys == ks.Keys
    ensures LiveFades(ks, Replay(map[], program), Deadlines(ks), 1000 + delay, now)
  {
    hide Replay, Program, Live;
    AllLive(ks, now);
    RewritePreserves(ks, items, program, now, delay);
    var out := Replay(map[], program);
    assert out.Keys == ks.Keys;
    forall k | k in ks
      ensures Near(k, ks[k], out[k], Deadlines(ks), 1000 + delay) && !IsExpired(out[k].expireAt, now)
    {
      assert Rebuilt(ks[k], out[k], now, delay);
    }
    LiveWhole(out, now);
  }

  lemma LiveWhole(ks: Keyspace, t: int)
    requires forall k :: k in ks ==> !IsExpired(ks[k].expireAt, t)
    ensures Live(ks, t) == ks
  {
  }

  /** A rewritten file followed by more commands. All along it stands for the store's keys and
      contents with nothing but fading keys besides, if and only if no command is harmful;
      and none is if LPUSH, HSET and EXPIRE leave each key alone for a second (and the
      delay) after its own compiled deadline. */
  lemma RewriteThenCommands(ks: Keyspace, items: seq<Item>, program: seq<Timed>, more: seq<Timed>,
                            now: int, delay: nat, u: int)
    requires Enumerates(items, ks) && Wf(ks) && Live(ks, now) == ks
    requires Argvs(program) == Program(items, now) && Within(program, now, delay)
    requires OrderedFrom(more, now + delay) && now + delay <= u
    requires forall i :: 0 <= i < |more| ==> more[i].at <= u
    ensures var due, slack, out := Deadlines(ks), 1000 + delay, Replay(map[], program);
            && (FadesThroughout(ks, out, more, due, slack) <==> NoneHarmful(ks, out, more, due, slack))
            && (Spared(more, due, slack) ==> NoneHarmful(ks, out, more, due, slack))
            && (NoneHarmful(ks, out, more, due, slack) ==>
                  LiveFades(Replay(ks, more), Replay(map[], program + more), due, slack, u))
  {
    hide Replay, Program, Live, LiveFades, FadesThroughout, NoneHarmful, Spared, Wf, Enumerates, Deadlines;
    var due, slack, t := Deadlines(ks), 1000 + delay, now + delay;
    var out := Replay(map[], program);
    RewriteFades(ks, items, program, now, delay);
    FadesLater(ks, out, due, slack, now, t);
    ReplayFadesIff(ks, out, more, due, slack, t, u);
    if Spared(more, due, slack) {
      SparedIsHarmless(ks, out, more, due, slack, t);
    }
    ReplayAppend(map[], program, more);
  }

  // ---- in the machine ------------------------------------------------------

  predicate NoRewrite(steps: seq<Step>) {
    forall i :: 0 <= i < |steps| ==> !steps[i].RewriteOk?
  }

  /** Other steps only add to the commands in the file. */
  lemma StepKeepsPrefix(s: State, step: Step)
    requires Enabled(s, step) && !step.RewriteOk?
    ensures s.aofLog <= Do(s, step).aofLog && Do(s, step).cfg == s.cfg
  {
    hide Apply, Live, Payload, LazyExpiry.SweepStep, Program, CommandLog.EncodeLog, PropagateLink,
      TakeBatchLink, Enumerates, IsWrite, TtlFree;
  }

  /** In the file since the rewrite that left `n` commands, and in time order. */
  ghost predicate Since(s: State, n: nat, base: Keyspace) {
    && PrimaryDurability.Durable(s) && s.cfg.aofEnabled
    && PrimaryDurability.Stands(s, n, base) && Restart.Limited(s, 0)
  }

  lemma StepKeepsSince(s: State, step: Step, n: nat, base: Keyspace)
    requires Since(s, n, base) && Enabled(s, step) && !step.RewriteOk?
    ensures Since(Do(s, step), n, base)
  {
    hide PrimaryDurability.Sound, PrimaryDurability.Rebuilds, PrimaryDurability.Stands, Restart.Limited, Do, Enabled;
    PrimaryDurability.StepKeepsDurable(s, step);
    PrimaryDurability.StepKeepsStands(s, step, n, base);
    StepKeepsPrefix(s, step);
    Restart.StepKeepsLimited(s, step, 0);
  }

  lemma {:induction false} RunKeepsSince(s: State, steps: seq<Step>, n: nat, base: Keyspace)
    requires Since(s, n, base) && RunSteps(s, steps).Some? && NoRewrite(steps)
    ensures Since(RunSteps(s, steps).value, n, base) && s.aofLog <= RunSteps(s, steps).value.aofLog
    decreases |steps|
  {
    hide Since, Do, Enabled;
    if steps != [] {
      StepKeepsSince(s, steps[0], n, base);
      StepKeepsPrefix(s, steps[0]);
      RunKeepsSince(Do(s, steps[0]), steps[1..], n, base);
    }
  }

  lemma SinceRewrite(r: State, items: seq<Item>)
    requires Reachable(r) && r.cfg.aofEnabled && Enabled(r, RewriteOk(items))
    ensures var s := Do(r, RewriteOk(items)); Since(s, |s.aofLog|, r.phase.entries)
  {
    hide Reachable, Program, CommandLog.EncodeLog, PrimaryDurability.Sound, PrimaryDurability.Rebuilds,
      PrimaryDurability.Stands, Enumerates, TtlFree;
    PrimaryDurability.ReachableIsDurable(r);
    PrimaryDurability.RewriteKeeps(r, items);
    var s := Do(r, RewriteOk(items));
    assert Restart.Pending(s) == s.aofLog;
  }

  /** After a rewrite with deadlines and any run up to the next one, with the write lock free
      and nothing left unlogged: the file replayed at the master's times stands for the
      store's keys and contents with nothing but fading keys besides, and has done so after
      every command, if and only if no command since was harmful. None is if LPUSH, HSET and
      EXPIRE left each key alone in the second after its own compiled deadline. Whenever no
      key is in that second, the keys are the same. */
  lemma RewrittenFileStaysClose(r: State, items: seq<Item>, steps: seq<Step>, s: State)
    requires Reachable(r) && r.cfg.aofEnabled && Enabled(r, RewriteOk(items))
    requires Live(r.phase.entries, r.clock) == r.phase.entries
    requires RunSteps(Do(r, RewriteOk(items)), steps) == Some(s) && NoRewrite(steps)
    requires s.phase.Free? && s.unlogged == []
    ensures Do(r, RewriteOk(items)).aofLog <= s.aofLog
    ensures var program := Do(r, RewriteOk(items)).aofLog;
            StaysClose(r.phase.entries, program, s.aofLog[|program|..], s)
  {
    hide Reachable, CommandLog.EncodeLog, RunSteps, StaysClose, Replay, Live, Enumerates, Wf, Program,
      PrimaryDurability.Durable, PrimaryDurability.Stands, Restart.Limited, TtlFree;
    var s' := Do(r, RewriteOk(items));
    SinceRewrite(r, items);
    RunKeepsSince(s', steps, |s'.aofLog|, r.phase.entries);
    assert Wf(r.phase.entries) by { EntriesWf(r); }
    CloseSince(r.phase.entries, items, r.clock, s'.aofLog, s);
  }

  /** A store and its file, a rewrite of `ks` and the commands logged since. */
  predicate StaysClose(ks: Keyspace, program: seq<Timed>, more: seq<Timed>, s: State) {
    var due, out, file := Deadlines(ks), Replay(map[], program), Replay(map[], s.aofLog);
    && (FadesThroughout(ks, out, more, due, 1000) <==> NoneHarmful(ks, out, more, due, 1000))
    && (Spared(more, due, 1000) ==> NoneHarmful(ks, out, more, due, 1000))
    && (NoneHarmful(ks, out, more, due, 1000) ==> LiveFades(s.store, file, due, 1000, s.clock))
    && (NoneHarmful(ks, out, more, due, 1000) && Clear(due, 1000, s.clock) ==>
          LiveClose(s.store, file, due, 1000, s.clock))
  }

  lemma CloseSince(ks: Keyspace, items: seq<Item>, now: int, program: seq<Timed>, s: State)
    requires Enumerates(items, ks) && Wf(ks) && Live(ks, now) == ks
    requires program == Stamped(Program(items, now), now) <= s.aofLog && Since(s, |program|, ks)
    requires s.phase.Free? && s.unlogged == []
    ensures StaysClose(ks, program, s.aofLog[|program|..], s)
  {
    hide Program, Replay, Live, Enumerates, Wf, PrimaryDurability.Durable, Restart.Limited, TtlFree, StaysClose, Agree;
    var n := |program|;
    var more := s.aofLog[n..];
    assert s.aofLog == program + more;
    assert more + PrimaryDurability.Behind(s) == more;
    InOrderSince(s, n);
    assert n > 0 ==> s.aofLog[n - 1] == program[n - 1];
    CloseAfter(ks, items, now, program, more, s);
  }

  lemma CloseAfter(ks: Keyspace, items: seq<Item>, now: int, program: seq<Timed>, more: seq<Timed>, s: State)
    requires Enumerates(items, ks) && Wf(ks) && Live(ks, now) == ks && program == Stamped(Program(items, now), now)
    requires s.aofLog == program + more && Agree(Replay(ks, more), s.store, s.clock)
    requires InOrder(more, s.clock) && (program != [] ==> OrderedFrom(more, now) && now <= s.clock)
    ensures StaysClose(ks, program, more, s)
  {
    hide Program, Clear, Fades, Replay, Live, Enumerates, Wf, Deadlines, FadesThroughout, NoneHarmful, Spared;
    var due, out := Deadlines(ks), Replay(map[], program);
    assert Argvs(program) == Program(items, now);
    if program == [] {
      RewriteFades(ks, items, program, now, 0);
      ReplayEmpty(map[]);
      assert ks == map[];
      AlikeFades(ks, more, due, 1000, s.clock);
      assert s.aofLog == more;
    } else {
      RewriteThenCommands(ks, items, program, more, now, 0, s.clock);
    }
    if LiveFades(s.store, Replay(map[], s.aofLog), due, 1000, s.clock) && Clear(due, 1000, s.clock) {
      ClearIsClose(s.store, Replay(map[], s.aofLog), due, 1000, s.clock);
    }
  }

  /** A keyspace beside itself. */
  lemma {:induction false} AlikeFades(ks: Keyspace, log: seq<Timed>, due: Due, slack: int, u: int)
    ensures FadesThroughout(ks, ks, log, due, slack) && NoneHarmful(ks, ks, log, due, slack)
    ensures LiveFades(Replay(ks, log), Replay(ks, log), due, slack, u)
    decreases |log|
  {
    hide Apply, Live, Understand;
    if log != [] {
      AlikeFades(Apply(log[0].argv, log[0].at, ks).ks, log[1..], due, slack, u);
    }
  }

  lemma InOrderSince(s: State, n: nat)
    requires Restart.Limited(s, 0) && s.phase.Free? && n <= |s.aofLog|
    ensures InOrder(s.aofLog, s.clock) && InOrder(s.aofLog[n..], s.clock)
  {
    assert Restart.Pending(s) == s.aofLog;
  }

  lemma EntriesWf(r: State)
    requires Reachable(r) && r.phase.Rewriting?
    ensures Wf(r.phase.entries)
  {
    hide Reachable, Wf;
    PrimaryDurability.ReachableIsDurable(r);
  }
}
