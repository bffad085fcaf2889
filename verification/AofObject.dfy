/** The writer side of `AOFLog`: items with completion futures in a queue, the file and
    the failure flag, updated in place. */
module AofObject {
  import opened ByteStrings
  import opened AofWriter

  class AofItem {
    const payload: Bytes
    var status: Status

    constructor (payload: Bytes)
      ensures this.payload == payload && status == Pending
    {
      this.payload := payload;
      status := Pending;
    }

    /** set_result / set_exception, unless the future is already done. */
    method Finish(v: Status)
      modifies this
      ensures status == if old(status).Pending? then v else old(status)
    {
      if status.Pending? {
        status := v;
      }
    }
  }

  predicate DistinctItems(queue: seq<AofItem>) {
    forall i, j :: 0 <= i < j < |queue| ==> queue[i] != queue[j]
  }

  function Finished(s: Status, v: Status): Status { if s.Pending? then v else s }

  class AofLog {
    var queue: seq<AofItem>
    var failure: bool
    var file: Bytes
    var dirty: bool
    var synced: nat
    const fsync: Fsync

    constructor (fsync: Fsync, file: Bytes)
      ensures this.fsync == fsync && this.file == file && queue == [] && !failure && !dirty && synced == |file|
    {
      this.fsync, this.file := fsync, file;
      queue, failure, dirty, synced := [], false, false, |file|;
    }

    /** _fail_pending: fails every waiter still queued. */
    method FailPending()
      requires DistinctItems(queue)
      modifies this`queue, queue
      ensures queue == []
      ensures forall i :: 0 <= i < |old(queue)| ==> old(queue)[i].status == Finished(old(queue[i].status), Failed)
    {
      ghost var items := queue;
      ghost var n := 0;
      while queue != []
        invariant n <= |items| && queue == items[n..]
        invariant forall i :: 0 <= i < n ==> items[i].status == Finished(old(items[i].status), Failed)
        invariant forall i :: n <= i < |items| ==> items[i].status == old(items[i].status)
        decreases |queue|
      {
        var item := queue[0];
        queue := queue[1..];
        item.Finish(Failed);
        n := n + 1;
      }
    }

    /** One round of the writer loop on the item at the head of the queue. The operating
        system lets `wrote` bytes through and may refuse the fsync. */
    method WriterTurn(wrote: nat, syncOk: bool) returns (running: bool)
      requires queue != [] && DistinctItems(queue) && queue[0].status.Pending?
      requires wrote <= |queue[0].payload|
      modifies this, queue
      ensures var item := old(queue)[0];
              var good := wrote == |item.payload| && (fsync.Always? ==> syncOk);
              && running == good
              && file == old(file) + item.payload[..wrote]
              && item.status == (if good then Succeeded else Failed)
              && (good ==> queue == old(queue)[1..] && failure == old(failure))
              && (good && fsync.Always? ==> synced == |file| && !dirty)
              && (!good ==> failure && queue == [])
      ensures forall i :: 1 <= i < |old(queue)| ==>
                old(queue)[i].status ==
                (if running then old(queue[i].status) else Finished(old(queue[i].status), Failed))
    {
      var item := queue[0];
      queue := queue[1..];
      file := file + item.payload[..wrote];
      dirty := true;
      var good := wrote == |item.payload|;
      if good && fsync.Always? {
        if syncOk {
          synced, dirty := |file|, false;
        } else {
          good := false;
        }
      }
      if !good {
        failure := true;
        item.Finish(Failed);
        FailPending();
        return false;
      }
      item.Finish(Succeeded);
      return true;
    }
  }
}
