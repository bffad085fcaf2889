/** The replica side (`replication/replica.py`): framing of the snapshot on the wire, and
    the command stream after it. */
module Replica {
  import opened ByteStrings
  import opened Resp
  import opened RespFraming
  import CommandLog

  /** Outcome of reading the snapshot: connection closed early, protocol error, or the
      body, the bytes read beyond it, and the reads not yet made. */
  datatype BulkRead = Closed | Malformed | Body(rdb: Bytes, leftover: Bytes, unread: seq<Bytes>)

  /** The same, for the whole incoming stream at once. */
  datatype Framed = NoBody | BadFrame | Frame(body: Bytes, rest: Bytes)

  function FrameOf(s: Bytes, maxLen: nat): Framed {
    if s == [] then NoBody
    else if s[0] != DOLLAR then BadFrame
    else
      var i := FindCrlf(s);
      if i.None? then NoBody
      else
        var n := if i.value == 0 then None else PyInt(s[1..i.value]);
        if n.None? || n.value < 0 || n.value > maxLen then BadFrame
        else if |s| < i.value + 2 + n.value then NoBody
        else Frame(s[i.value + 2..i.value + 2 + n.value], s[i.value + 2 + n.value..])
  }

  predicate Matches(r: BulkRead, f: Framed) {
    match r
    case Closed => f == NoBody
    case Malformed => f == BadFrame
    case Body(rdb, leftover, unread) => f == Frame(rdb, leftover + Flat(unread))
  }

  /** `ensure(n)`: read until at least `n` bytes are buffered; false when the peer closes. */
  method Ensure(buf: Bytes, chunks: seq<Bytes>, n: nat) returns (ok: bool, buf': Bytes, chunks': seq<Bytes>)
    requires forall i :: 0 <= i < |chunks| ==> chunks[i] != []
    ensures buf' + Flat(chunks') == buf + Flat(chunks)
    ensures buf <= buf' && |chunks'| <= |chunks|
    ensures forall i :: 0 <= i < |chunks'| ==> chunks'[i] != []
    ensures ok ==> |buf'| >= n
    ensures !ok ==> chunks' == [] && |buf'| < n
    ensures |buf| < n && ok ==> |chunks'| < |chunks|
  {
    buf', chunks' := buf, chunks;
    while |buf'| < n
      invariant buf' + Flat(chunks') == buf + Flat(chunks)
      invariant buf <= buf' && |chunks'| <= |chunks|
      invariant forall i :: 0 <= i < |chunks'| ==> chunks'[i] != []
      invariant |buf| < n && |buf'| >= n ==> |chunks'| < |chunks|
      decreases |chunks'|
    {
      if chunks' == [] {
        return false, buf', chunks';
      }
      assert buf' + Flat(chunks') == (buf' + chunks'[0]) + Flat(chunks'[1..]);
      buf', chunks' := buf' + chunks'[0], chunks'[1..];
    }
    return true, buf', chunks';
  }

  /** Read until the header line is complete; None when the peer closes first. */
  method ReadUntilCrlf(start: Bytes, chunks: seq<Bytes>) returns (idx: Option<nat>, buf: Bytes, todo: seq<Bytes>)
    requires forall i :: 0 <= i < |chunks| ==> chunks[i] != []
    ensures buf + Flat(todo) == start + Flat(chunks)
    ensures forall i :: 0 <= i < |todo| ==> todo[i] != []
    ensures idx == FindCrlf(start + Flat(chunks))
    ensures idx.Some? ==> idx.value + 2 <= |buf|
  {
    hide FindCrlf;
    buf, todo, idx := start, chunks, FindCrlf(start);
    while idx.None?
      invariant buf + Flat(todo) == start + Flat(chunks)
      invariant idx == FindCrlf(buf)
      invariant forall i :: 0 <= i < |todo| ==> todo[i] != []
      decreases |todo|
    {
      ghost var had := buf;
      var ok;
      ok, buf, todo := Ensure(buf, todo, |buf| + 1);
      if !ok {
        assert start + Flat(chunks) == buf + [] == had;
        return;
      }
      idx := FindCrlf(buf);
    }
    FindCrlfStable(buf, Flat(todo));
  }

  /** _read_rdb_bulk, from what the handshake parser still holds and the reads to come:
      the outcome depends only on the concatenated stream. */
  method ReadRdbBulk(parserBuf: Bytes, chunks: seq<Bytes>, maxLen: nat) returns (r: BulkRead)
    requires forall i :: 0 <= i < |chunks| ==> chunks[i] != []
    ensures Matches(r, FrameOf(parserBuf + Flat(chunks), maxLen))
  {
    hide PyInt, FindCrlf;
    ghost var stream := parserBuf + Flat(chunks);
    var ok, buf, todo := Ensure(parserBuf, chunks, 1);
    if !ok {
      assert stream == buf + [];
      return Closed;
    }
    assert stream[0] == buf[0];
    if buf[0] != DOLLAR {
      return Malformed;
    }
    var idx;
    idx, buf, todo := ReadUntilCrlf(buf, todo);
    if idx.None? {
      return Closed;
    }
    assert idx.value > 0;
    var header := buf[1..idx.value];
    assert header == stream[1..idx.value];
    var n := PyInt(header);
    if n.None? || n.value < 0 || n.value > maxLen {
      return Malformed;
    }
    var start := idx.value + 2;
    ok, buf, todo := Ensure(buf, todo, start + n.value);
    if !ok {
      assert stream == buf + [] == buf;
      return Closed;
    }
    r := Body(buf[start..start + n.value], buf[start + n.value..], todo);
    assert stream[start..start + n.value] == r.rdb && stream[start + n.value..] == r.leftover + Flat(todo);
  }

  /** What the master writes for a snapshot is framed as exactly that snapshot, wherever
      the stream is cut. */
  lemma FrameOfSnapshot(rdb: Bytes, rest: Bytes, maxLen: nat)
    requires |rdb| <= maxLen
    ensures FrameOf(Header(DOLLAR, |rdb|) + rdb + rest, maxLen) == Frame(rdb, rest)
  {
    hide PyInt, Decimal;
    var h := Header(DOLLAR, |rdb|);
    var s := h + rdb + rest;
    DecimalNoCr(|rdb|);
    PyIntOfDecimal(|rdb|);
    var line := [DOLLAR] + Decimal(|rdb|);
    assert s == line + CRLF + (rdb + rest);
    FindCrlfAfterLine(line, rdb + rest);
    assert s[1..|line|] == Decimal(|rdb|);
    assert s[|h|..|h| + |rdb|] == rdb && s[|h| + |rdb|..] == rest;
  }

  // ---- the command stream --------------------------------------------------

  datatype Incoming = Ignored | BadArgv | Command(argv: Argv)

  /** How _apply_messages reads one message. */
  function ToCommand(msg: Value, recode: Bytes -> Bytes): Incoming {
    if !msg.Array? || msg.items == [] then Ignored
    else if exists i :: 0 <= i < |msg.items| && !(msg.items[i].Bulk? || msg.items[i].Simple? || msg.items[i].Null?)
    then BadArgv
    else
      Command(seq(|msg.items|, i requires 0 <= i < |msg.items| =>
        if msg.items[i].Bulk? then msg.items[i].bytes
        else if msg.items[i].Simple? then recode(msg.items[i].line)
        else []))
  }

  /** What _apply_messages has applied, and whether it got through: a bad element raises
      after the commands before it have been applied. */
  datatype Taken = Taken(applied: seq<Argv>, ok: bool)

  function ToCommands(msgs: seq<Value>, recode: Bytes -> Bytes): Taken {
    if msgs == [] then Taken([], true)
    else
      match ToCommand(msgs[0], recode)
      case BadArgv => Taken([], false)
      case Ignored => ToCommands(msgs[1..], recode)
      case Command(argv) =>
        var rest := ToCommands(msgs[1..], recode);
        Taken([argv] + rest.applied, rest.ok)
  }

  /** One message element by element, as the inner loop does. */
  method BuildArgv(msg: Value, recode: Bytes -> Bytes) returns (r: Incoming)
    ensures r == ToCommand(msg, recode)
  {
    if !msg.Array? || msg.items == [] {
      return Ignored;
    }
    var argv: Argv := [];
    for i := 0 to |msg.items|
      invariant |argv| == i
      invariant forall j :: 0 <= j < i ==> msg.items[j].Bulk? || msg.items[j].Simple? || msg.items[j].Null?
      invariant forall j :: 0 <= j < i ==>
                  argv[j] == if msg.items[j].Bulk? then msg.items[j].bytes
                             else if msg.items[j].Simple? then recode(msg.items[j].line) else []
    {
      match msg.items[i] {
        case Bulk(b) => argv := argv + [b];
        case Simple(line) => argv := argv + [recode(line)];
        case Null => argv := argv + [[]];
        case _ =>
          assert !(msg.items[i].Bulk? || msg.items[i].Simple? || msg.items[i].Null?);
          return BadArgv;
      }
    }
    var want := ToCommand(msg, recode);
    assert want.argv == argv;
    return Command(argv);
  }

  /** _apply_messages: the commands handed to the server, in order. */
  method ApplyMessages(msgs: seq<Value>, recode: Bytes -> Bytes) returns (t: Taken)
    ensures t == ToCommands(msgs, recode)
  {
    hide ToCommand;
    var applied: seq<Argv> := [];
    ghost var all := ToCommands(msgs, recode);
    assert [] + all.applied == all.applied;
    for i := 0 to |msgs|
      invariant var rest := ToCommands(msgs[i..], recode);
                all == Taken(applied + rest.applied, rest.ok)
    {
      assert msgs[i..][0] == msgs[i] && msgs[i..][1..] == msgs[i + 1..];
      var c := BuildArgv(msgs[i], recode);
      match c {
        case Ignored =>
        case BadArgv =>
          assert applied + [] == applied;
          return Taken(applied, false);
        case Command(argv) =>
          ghost var rest := ToCommands(msgs[i + 1..], recode);
          assert applied + ([argv] + rest.applied) == (applied + [argv]) + rest.applied;
          applied := applied + [argv];
      }
    }
    assert applied + [] == applied;
    return Taken(applied, true);
  }

  lemma {:induction false} CommandsOfLog(cmds: seq<Argv>, recode: Bytes -> Bytes)
    requires forall i :: 0 <= i < |cmds| ==> cmds[i] != []
    ensures ToCommands(CommandLog.Messages(cmds), recode) == Taken(cmds, true)
    decreases |cmds|
  {
    hide ToCommand;
    if cmds != [] {
      CommandOfArgv(cmds[0], recode);
      assert CommandLog.Messages(cmds)[1..] == CommandLog.Messages(cmds[1..]);
      CommandsOfLog(cmds[1..], recode);
      assert [cmds[0]] + cmds[1..] == cmds;
    }
  }

  lemma CommandOfArgv(argv: Argv, recode: Bytes -> Bytes)
    requires argv != []
    ensures ToCommand(Array(BulkItems(argv)), recode) == Command(argv)
  {
    var r := ToCommand(Array(BulkItems(argv)), recode);
    assert r.argv == argv;
  }

  /** The messages the replica acts on after the snapshot: those of the leftover bytes are
      fed to the parser but dropped, only later reads are applied. */
  function Applied(leftover: Bytes, unread: seq<Bytes>, lim: Limits, maxBuffer: nat): Drained {
    match Feed([], leftover, lim, maxBuffer)
    case Failed => Failed
    case Drained(_, rest) => FeedChunks(rest, unread, lim, maxBuffer)
  }

  /** Exactly the messages that were complete within the leftover bytes are lost: the
      replica acts on the whole stream if and only if there were none. */
  lemma LostIffCompleteInLeftover(leftover: Bytes, unread: seq<Bytes>, lim: Limits, maxBuffer: nat)
    requires FeedsFit([], [leftover] + unread, lim, maxBuffer)
    requires Drain(leftover + Flat(unread), lim).Drained?
    ensures Drain(leftover, lim).Drained? && Applied(leftover, unread, lim, maxBuffer).Drained?
    ensures Drain(leftover + Flat(unread), lim).messages ==
            Drain(leftover, lim).messages + Applied(leftover, unread, lim, maxBuffer).messages
    ensures Applied(leftover, unread, lim, maxBuffer).messages == Drain(leftover + Flat(unread), lim).messages <==>
            Drain(leftover, lim).messages == []
  {
    hide Drain;
    DrainSplit(leftover, Flat(unread), lim);
    assert [] + leftover == leftover && ([leftover] + unread)[1..] == unread;
    var d := Drain(leftover, lim);
    ChunksFeedTheStream(d.rest, unread, lim, maxBuffer);
    var a := Applied(leftover, unread, lim, maxBuffer);
    assert |d.messages + a.messages| == |d.messages| + |a.messages|;
    if d.messages == [] {
      assert d.messages + a.messages == a.messages;
    }
  }

  /** In particular a command that arrives whole with the end of the snapshot is lost. */
  lemma WholeCommandWithSnapshotIsLost(argv: Argv, lim: Limits, maxBuffer: nat)
    requires CommandLog.CommandFits(argv, lim) && |EncodeCommand(argv)| <= maxBuffer
    ensures Drain(EncodeCommand(argv), lim).Drained? && |Drain(EncodeCommand(argv), lim).messages| == 1
    ensures Applied(EncodeCommand(argv), [], lim, maxBuffer) == Drained([], [])
  {
    hide CommandLog.CommandFits, EncodeCommand, PyInt;
    var e := EncodeCommand(argv);
    CommandLog.ParseOfCommand(argv, [], lim);
    assert e + [] == e && [] + e == e && e[|e|..] == [];
    assert Drain([], lim) == Drained([], []);
  }
}
