/** `MasterReplication` and its links as objects: propagation loops over the registered
    links and updates each one in place. */
module MasterObject {
  import opened ByteStrings
  import opened Primary
  import Resp

  /** A registered link after propagate, its place in the history left aside. */
  function Delivered(l: Link, payload: Bytes, offset: nat, cfg: Config, broken: bool): Link {
    PropagateLink(l, payload, offset, cfg, broken).(upTo := l.upTo)
  }

  class ReplicaLink {
    var offset: nat
    var alive: bool
    var live: bool
    var backlog: seq<Bytes>
    var backlogBytes: nat
    var pending: nat
    var written: seq<Bytes>

    constructor (offset: nat)
      ensures this.offset == offset && alive && !live
      ensures backlog == [] && backlogBytes == 0 && pending == 0 && written == []
    {
      this.offset := offset;
      alive, live, backlog, backlogBytes, pending, written := true, false, [], 0, 0, [];
    }

    /** The link as a value of the interleaved machine; what a registered link does not
        store is taken from `rest`. */
    function View(rest: Link): Link
      reads this
    {
      rest.(registered := true, alive := alive, live := live, offset := offset, backlog := backlog,
            backlogBytes := backlogBytes, sent := written, pending := pending)
    }

    /** Alive, with room for `n` more bytes while syncing; once live, with fewer outstanding
        drains than allowed and a working connection. */
    predicate HasRoom(n: nat, cfg: Config, broken: bool)
      reads this
    {
      && alive
      && if live then pending < cfg.pendingMax && !broken else backlogBytes + n <= cfg.backlogMax
    }

    /** The decision under the state lock: take the backlog, or go live when it is empty. */
    method TakeBatch(offset: nat, ghost rest: Link) returns (batch: seq<Bytes>)
      modifies this
      ensures batch == old(backlog)
      ensures live == (old(live) || batch == []) && (batch == [] ==> this.offset == offset)
      ensures rest.inflight == [] ==>
                View(rest).(inflight := batch) == TakeBatchLink(old(View(rest)), offset)
    {
      batch := backlog;
      backlog, backlogBytes := [], 0;
      if batch == [] {
        live := true;
        this.offset := offset;
      }
    }

    /** What propagate does for this link; false when it is to be unregistered. */
    method Deliver(payload: Bytes, offset: nat, cfg: Config, broken: bool, ghost rest: Link) returns (ok: bool)
      modifies this
      ensures ok == alive
      ensures ok <==> old(HasRoom(|payload|, cfg, broken))
      ensures ok && old(live) ==> written == old(written) + [payload] && pending == old(pending) + 1
      ensures ok && !old(live) ==> backlog == old(backlog) + [payload]
      ensures View(rest) == Delivered(old(View(rest)), payload, offset, cfg, broken)
    {
      if !alive {
        return false;
      }
      if !live {
        if backlogBytes + |payload| > cfg.backlogMax {
          alive := false;
          return false;
        }
        backlog := backlog + [payload];
        backlogBytes := backlogBytes + |payload|;
        this.offset := offset;
        return true;
      }
      if pending >= cfg.pendingMax || broken {
        alive := false;
        return false;
      }
      written := written + [payload];
      this.offset := offset;
      pending := pending + 1;
      return true;
    }
  }

  class MasterReplication {
    var offset: nat
    var replicas: map<ConnId, ReplicaLink>
    const cfg: Config

    constructor (cfg: Config)
      ensures this.cfg == cfg && offset == 0 && replicas == map[]
    {
      this.cfg := cfg;
      offset, replicas := 0, map[];
    }

    ghost predicate Valid()
      reads this
    {
      forall i, j :: i in replicas && j in replicas && i != j ==> replicas[i] != replicas[j]
    }

    ghost function Links(): set<object>
      reads this
    {
      set id | id in replicas :: replicas[id]
    }

    /** register_syncing */
    method RegisterSyncing(id: ConnId) returns (link: ReplicaLink)
      requires Valid()
      modifies this
      ensures Valid() && offset == old(offset) && fresh(link)
      ensures replicas == old(replicas)[id := link]
      ensures link.alive && !link.live && link.backlog == [] && link.backlogBytes == 0
      ensures link.offset == offset && link.written == [] && link.pending == 0
    {
      link := new ReplicaLink(offset);
      replicas := replicas[id := link];
    }

    /** unregister: the link is forgotten and marked dead. */
    method Unregister(id: ConnId)
      requires Valid()
      modifies this, Links()
      ensures Valid() && offset == old(offset) && replicas == old(replicas) - {id}
      ensures id in old(replicas) ==> !old(replicas)[id].alive
      ensures forall i :: i in replicas ==> unchanged(replicas[i])
    {
      if id in replicas {
        var link := replicas[id];
        replicas := replicas - {id};
        link.alive := false;
      }
    }

    /** propagate: every registered link changes as Delivered says, the offset advances
        when there is any, and the dead ones are reported for unregistering. */
    method Propagate(argv: Resp.Argv, broken: set<ConnId>, ghost rest: Link) returns (dead: set<ConnId>)
      requires Valid()
      modifies this`offset, Links()
      ensures Valid() && replicas == old(replicas)
      ensures offset == old(offset) + (if replicas == map[] then 0 else |Resp.EncodeCommand(argv)|)
      ensures forall id :: id in replicas ==>
                replicas[id].View(rest) ==
                Delivered(old(replicas[id].View(rest)), Resp.EncodeCommand(argv), offset, cfg, id in broken)
      ensures forall id :: id in dead <==> id in replicas && !replicas[id].alive
      ensures forall id :: id in replicas ==>
                (replicas[id].alive <==> old(replicas[id].HasRoom(|Resp.EncodeCommand(argv)|, cfg, id in broken)))
    {
      hide Resp.EncodeCommand, Delivered, ReplicaLink.View, ReplicaLink.HasRoom;
      dead := {};
      if replicas == map[] {
        return;
      }
      var payload := Resp.EncodeCommand(argv);
      offset := offset + |payload|;
      dead := DeliverAll(payload, broken, rest);
    }

    /** The loop of propagate over the registered links. */
    method DeliverAll(payload: Bytes, broken: set<ConnId>, ghost rest: Link) returns (dead: set<ConnId>)
      requires Valid()
      modifies Links()
      ensures forall id :: id in replicas ==>
                replicas[id].View(rest) == Delivered(old(replicas[id].View(rest)), payload, offset, cfg, id in broken)
      ensures dead <= replicas.Keys
      ensures forall id :: id in replicas ==> (id in dead <==> !replicas[id].alive)
      ensures forall id :: id in replicas ==>
                (replicas[id].alive <==> old(replicas[id].HasRoom(|payload|, cfg, id in broken)))
    {
      hide Delivered, ReplicaLink.View, ReplicaLink.HasRoom;
      dead := {};
      var todo := replicas.Keys;
      while todo != {}
        invariant todo <= replicas.Keys
        invariant forall id :: id in todo ==> unchanged(replicas[id])
        invariant forall id :: id in replicas && id !in todo ==>
                    replicas[id].View(rest) ==
                    Delivered(old(replicas[id].View(rest)), payload, offset, cfg, id in broken)
        invariant forall id :: id in replicas && id !in todo ==>
                    (replicas[id].alive <==> old(replicas[id].HasRoom(|payload|, cfg, id in broken)))
        invariant dead <= replicas.Keys - todo
        invariant forall id :: id in replicas && id !in todo ==> (id in dead <==> !replicas[id].alive)
        decreases todo
      {
        var id :| id in todo;
        todo := todo - {id};
        var link := replicas[id];
        assert link.View(rest) == old(link.View(rest));
        var ok := link.Deliver(payload, offset, cfg, id in broken, rest);
        if !ok {
          dead := dead + {id};
        }
      }
    }
  }
}
