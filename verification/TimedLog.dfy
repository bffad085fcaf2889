/** Logs of commands paired with the time at which each one is applied. */
module TimedLog {
  import opened Keyspace
  import opened Commands
  import opened LazyExpiry

  datatype Timed = Timed(argv: Argv, at: int)

  /** Applying a log, without memory limit, to a keyspace. */
  function Replay(ks: Keyspace, log: seq<Timed>): Keyspace
    decreases |log|
  {
    if log == [] then ks else Replay(Apply(log[0].argv, log[0].at, ks).ks, log[1..])
  }

  function Argvs(log: seq<Timed>): (r: seq<Argv>)
    ensures |r| == |log| && forall i :: 0 <= i < |r| ==> r[i] == log[i].argv
  {
    seq(|log|, i requires 0 <= i < |log| => log[i].argv)
  }

  lemma {:induction false} ReplayAppend(ks: Keyspace, a: seq<Timed>, b: seq<Timed>)
    ensures Replay(ks, a + b) == Replay(Replay(ks, a), b)
    decreases |a|
  {
    hide Apply;
    if a == [] {
      assert a + b == b;
    } else {
      assert (a + b)[1..] == a[1..] + b;
      ReplayAppend(Apply(a[0].argv, a[0].at, ks).ks, a[1..], b);
    }
  }

  lemma ReplaySnoc(ks: Keyspace, log: seq<Timed>, c: Timed)
    ensures Replay(ks, log + [c]) == Apply(c.argv, c.at, Replay(ks, log)).ks
  {
    hide Apply;
    ReplayAppend(ks, log, [c]);
    var last := Replay(ks, log);
    assert [c][1..] == [];
    assert Replay(last, [c]) == Replay(Apply(c.argv, c.at, last).ks, []);
  }

  /** No later than `t`, and never going backwards. */
  predicate InOrder(log: seq<Timed>, t: int) {
    && (forall i :: 0 <= i < |log| ==> log[i].at <= t)
    && (forall i, j :: 0 <= i < j < |log| ==> log[i].at <= log[j].at)
  }

  predicate LogSetsNoTtl(log: seq<Timed>) {
    forall i :: 0 <= i < |log| ==> SetsNoTtl(Understand(log[i].argv))
  }

  /** A log that sets no deadline rebuilds the same keyspace whatever the clock says. */
  lemma {:induction false} ReplayTimeless(ks: Keyspace, log: seq<Timed>, log': seq<Timed>)
    requires TtlFree(ks) && LogSetsNoTtl(log) && Argvs(log) == Argvs(log')
    ensures Replay(ks, log) == Replay(ks, log') && TtlFree(Replay(ks, log))
    decreases |log|
  {
    hide Understand, Run, TtlFree, SetsNoTtl;
    assert |log| == |Argvs(log)| == |Argvs(log')| == |log'|;
    if log != [] {
      assert log[0].argv == Argvs(log)[0] == Argvs(log')[0] == log'[0].argv;
      RunTtlFree(Understand(log[0].argv), log[0].at, log'[0].at, ks);
      assert Argvs(log[1..]) == Argvs(log)[1..] == Argvs(log'[1..]);
      ReplayTimeless(Apply(log[0].argv, log[0].at, ks).ks, log[1..], log'[1..]);
    }
  }

  /** Keyspaces with the same live view at `t` still agree after the same command. */
  lemma ApplyLive(argv: Argv, t: int, a: Keyspace, b: Keyspace)
    requires Live(a, t) == Live(b, t)
    ensures Live(Apply(argv, t, a).ks, t) == Live(Apply(argv, t, b).ks, t)
  {
    hide Understand, Run, Live;
    UnderstandSane(argv);
    RunOnLive(Understand(argv), t, a);
    RunOnLive(Understand(argv), t, b);
  }

  /** Applied to a live view, a command leaves nothing expired behind. */
  lemma LiveOutcome(argv: Argv, now: int, ks: Keyspace)
    ensures Live(Apply(argv, now, Live(ks, now)).ks, now) == Apply(argv, now, Live(ks, now)).ks
  {
    hide Understand, Run, Live;
    UnderstandSane(argv);
    LiveOfLive(ks, now, now);
    RunOnLive(Understand(argv), now, Live(ks, now));
  }
}
