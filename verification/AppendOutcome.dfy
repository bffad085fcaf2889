/** An append through queue, writer and fsync is one append step of the master. */
module AppendOutcome {
  import opened ByteStrings
  import AofWriter
  import Primary

  /** Seen from its caller, an append that passed the failure check is AppendOk or AppendFail
      on the file as it was then; a periodic fsync may have failed in the meantime. File and
      health end up as the queue and writer leave them, and a failed append always leaves
      the log unhealthy. */
  lemma AppendIsOneStep(w: AofWriter.State, s: Primary.State) returns (steps: seq<Primary.Step>)
    requires AofWriter.Reachable(w) && AofWriter.Enabled(w, AofWriter.Return)
    requires s.phase.Append? && s.phase.todo != [] && s.cfg.aofEnabled && s.healthy
    requires w.caller.id < |w.payloads| && w.payloads[w.caller.id] == Primary.Payload(s.phase.todo[0])
    requires s.file == w.base
    ensures steps == [Primary.AppendOk] || steps == [Primary.AppendOk, Primary.FsyncFail] ||
            (|steps| == 1 && steps[0].AppendFail?)
    ensures Primary.RunSteps(s, steps).Some?
    ensures var s' := Primary.RunSteps(s, steps).value;
            && s'.file == w.file && s'.healthy == !w.failure
            && (w.status[w.caller.id].Succeeded? <==> s'.phase.Propagate?)
            && (w.status[w.caller.id].Failed? <==> s'.phase.Free?)
  {
    hide AofWriter.Reachable, Primary.Payload;
    AofWriter.AppendIsAtomic(w);
    var p := w.payloads[w.caller.id];
    if w.status[w.caller.id].Succeeded? {
      if w.failure {
        steps := [Primary.AppendOk, Primary.FsyncFail];
        assert steps[1..] == [Primary.FsyncFail] && steps[1..][1..] == [];
      } else {
        steps := [Primary.AppendOk];
        assert steps[1..] == [];
      }
    } else {
      var n :| AofWriter.IsPartial(w.file, w.base, p, n);
      steps := [Primary.AppendFail(n)];
      assert steps[1..] == [];
    }
  }

  /** An append that does not pass the check is AppendFail without a byte written. */
  lemma RejectedIsOneStep(w: AofWriter.State, s: Primary.State, payload: Bytes)
    requires w.failure && w.caller.Idle?
    requires s.phase.Append? && s.phase.todo != [] && s.cfg.aofEnabled && !s.healthy && s.file == w.file
    ensures !AofWriter.Enabled(w, AofWriter.Check(payload)) && !Primary.Enabled(s, Primary.AppendOk)
    ensures Primary.Enabled(s, Primary.AppendFail(0))
    ensures Primary.Do(s, Primary.AppendFail(0)).file == w.file
  {
    hide Primary.Payload;
    assert w.file + [] == w.file;
  }
}
