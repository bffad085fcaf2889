/** Reading the append-only log back (`AOFLog.read_commands`): a log is a
    concatenation of encoded commands, possibly cut short by a crash. */
module CommandLog {
  import opened ByteStrings
  import opened Resp
  import opened RespFraming
  import RespParser

  datatype ReadResult = Corrupt | Commands(commands: seq<Argv>)

  function Payloads(cmds: seq<Argv>): (r: seq<Bytes>)
    ensures |r| == |cmds| && forall i :: 0 <= i < |r| ==> r[i] == EncodeCommand(cmds[i])
  {
    seq(|cmds|, i requires 0 <= i < |cmds| => EncodeCommand(cmds[i]))
  }

  /** The bytes of a log holding these commands. */
  function EncodeLog(cmds: seq<Argv>): Bytes {
    Flat(Payloads(cmds))
  }

  lemma EncodeLogEmpty()
    ensures EncodeLog([]) == []
  {
  }

  lemma EncodeLogAppend(a: seq<Argv>, b: seq<Argv>)
    ensures EncodeLog(a + b) == EncodeLog(a) + EncodeLog(b)
  {
    assert Payloads(a + b) == Payloads(a) + Payloads(b);
    FlatAppend(Payloads(a), Payloads(b));
  }

  lemma EncodeLogCons(cmds: seq<Argv>)
    requires cmds != []
    ensures EncodeLog(cmds) == EncodeCommand(cmds[0]) + EncodeLog(cmds[1..])
  {
    hide EncodeCommand;
    assert Payloads(cmds)[1..] == Payloads(cmds[1..]);
  }

  lemma EncodeLogOne(argv: Argv)
    ensures EncodeLog([argv]) == EncodeCommand(argv)
  {
    hide EncodeCommand;
    EncodeLogCons([argv]);
    assert Flat(Payloads([])) == [];
  }

  /** Within the limits of the parser that reads the log. */
  predicate CommandFits(argv: Argv, lim: Limits) {
    && 0 < lim.maxDepth
    && |argv| <= lim.maxArray
    && forall i :: 0 <= i < |argv| ==> |argv[i]| <= lim.maxBulk
  }

  lemma {:induction false} BulksEncodable(items: seq<Value>)
    requires forall i :: 0 <= i < |items| ==> items[i].Bulk?
    ensures AllEncodable(items)
    decreases |items|
  {
    if items != [] {
      BulksEncodable(items[1..]);
    }
  }

  lemma {:induction false} BulksFit(items: seq<Value>, depth: nat, lim: Limits)
    requires forall i :: 0 <= i < |items| ==> items[i].Bulk?
    ensures AllFit(items, depth, lim) <==> forall i :: 0 <= i < |items| ==> |items[i].bytes| <= lim.maxBulk
    decreases |items|
  {
    if items != [] {
      BulksFit(items[1..], depth, lim);
      assert Fits(items[0], depth, lim) <==> |items[0].bytes| <= lim.maxBulk;
      assert items == [items[0]] + items[1..];
    }
  }

  /** An encoded command reads back as itself exactly when it is within limits. */
  lemma ParseOfCommand(argv: Argv, rest: Bytes, lim: Limits)
    ensures Parse(EncodeCommand(argv) + rest, 0, lim) ==
            if CommandFits(argv, lim) then Done(Array(BulkItems(argv)), |EncodeCommand(argv)|) else Bad
  {
    hide Parse, Encode;
    var v := Array(BulkItems(argv));
    BulksEncodable(BulkItems(argv));
    BulksFit(BulkItems(argv), 1, lim);
    ParseOfEncode(v, rest, 0, lim);
    if CommandFits(argv, lim) {
      assert Fits(v, 0, lim);
    } else if Fits(v, 0, lim) {
      forall i | 0 <= i < |argv| ensures |argv[i]| <= lim.maxBulk {
        assert BulkItems(argv)[i] == Bulk(argv[i]);
      }
      assert false;
    }
  }

  /** Every proper prefix of an encoded command is merely incomplete, whatever bytes its
      arguments contain. */
  lemma CommandPrefixIncomplete(argv: Argv, cut: nat, lim: Limits)
    requires CommandFits(argv, lim) && cut < |EncodeCommand(argv)|
    ensures Parse(EncodeCommand(argv)[..cut], 0, lim) == More
  {
    hide Parse, EncodeCommand;
    var e := EncodeCommand(argv);
    ParseOfCommand(argv, [], lim);
    assert e + [] == e && e[..cut] + e[cut..] == e;
    if !Parse(e[..cut], 0, lim).More? {
      ParseStable(e[..cut], e[cut..], 0, lim);
      assert false;
    }
  }

  // ---- from messages to commands -------------------------------------------

  predicate AllBulkOrNull(items: seq<Value>) {
    forall i :: 0 <= i < |items| ==> items[i].Bulk? || items[i].Null?
  }

  predicate AllBulkOrSimple(items: seq<Value>) {
    forall i :: 0 <= i < |items| ==> items[i].Bulk? || items[i].Simple?
  }

  /** The argv a message stands for, or None when the reader skips it. `recode` is the
      effect on a line of decoding it as UTF-8 with replacement and encoding it again. */
  function ToArgv(msg: Value, recode: Bytes -> Bytes): Option<Argv> {
    if !msg.Array? || msg.items == [] then None
    else if AllBulkOrNull(msg.items) then
      Some(seq(|msg.items|, i requires 0 <= i < |msg.items| =>
        if msg.items[i].Bulk? then msg.items[i].bytes else []))
    else if AllBulkOrSimple(msg.items) then
      Some(seq(|msg.items|, i requires 0 <= i < |msg.items| && (msg.items[i].Bulk? || msg.items[i].Simple?) =>
        if msg.items[i].Bulk? then msg.items[i].bytes else recode(msg.items[i].line)))
    else None
  }

  function ToArgvs(msgs: seq<Value>, recode: Bytes -> Bytes): seq<Argv> {
    if msgs == [] then []
    else
      var a := ToArgv(msgs[0], recode);
      (if a.Some? then [a.value] else []) + ToArgvs(msgs[1..], recode)
  }

  lemma {:induction false} ToArgvsAppend(a: seq<Value>, b: seq<Value>, recode: Bytes -> Bytes)
    ensures ToArgvs(a + b, recode) == ToArgvs(a, recode) + ToArgvs(b, recode)
  {
    hide ToArgv;
    if a == [] {
      assert a + b == b;
    } else {
      assert (a + b)[1..] == a[1..] + b;
      ToArgvsAppend(a[1..], b, recode);
    }
  }

  lemma ToArgvOfCommand(argv: Argv, recode: Bytes -> Bytes)
    requires argv != []
    ensures ToArgv(Array(BulkItems(argv)), recode) == Some(argv)
  {
    var r := ToArgv(Array(BulkItems(argv)), recode);
    assert r.value == argv;
  }

  /** The contents of a log file as commands; Corrupt stands for AofError. */
  function ReadLog(data: Bytes, lim: Limits, maxBuffer: nat, maxFile: nat, recode: Bytes -> Bytes): ReadResult {
    if data == [] then Commands([])
    else if |data| > maxFile then Corrupt
    else
      match Feed([], data, lim, maxBuffer)
      case Failed => Corrupt
      case Drained(ms, _) => Commands(ToArgvs(ms, recode))
  }

  /** The reader itself: parse the whole file, then turn messages into commands. */
  method ReadCommands(data: Bytes, lim: Limits, maxBuffer: nat, maxFile: nat, recode: Bytes -> Bytes)
    returns (r: ReadResult)
    ensures r == ReadLog(data, lim, maxBuffer, maxFile, recode)
  {
    hide Drain, ToArgv;
    if data == [] {
      return Commands([]);
    }
    if |data| > maxFile {
      return Corrupt;
    }
    var parser := new RespParser.RespParser(lim, maxBuffer);
    var ok, messages := parser.FeedBytes(data);
    if !ok {
      return Corrupt;
    }
    var commands := [];
    for i := 0 to |messages|
      invariant commands == ToArgvs(messages[..i], recode)
    {
      var a := ToArgv(messages[i], recode);
      if a.Some? {
        commands := commands + [a.value];
      }
      assert messages[..i + 1] == messages[..i] + [messages[i]];
      ToArgvsAppend(messages[..i], [messages[i]], recode);
    }
    assert messages[..|messages|] == messages;
    return Commands(commands);
  }

  // ---- whole logs and cut logs ---------------------------------------------

  predicate AllFitLog(cmds: seq<Argv>, lim: Limits) {
    forall i :: 0 <= i < |cmds| ==> cmds[i] != [] && CommandFits(cmds[i], lim)
  }

  function Messages(cmds: seq<Argv>): (r: seq<Value>)
    ensures |r| == |cmds| && forall i :: 0 <= i < |r| ==> r[i] == Array(BulkItems(cmds[i]))
  {
    seq(|cmds|, i requires 0 <= i < |cmds| => Array(BulkItems(cmds[i])))
  }

  /** A log followed by an incomplete frame drains to its commands and that frame. */
  lemma {:induction false} DrainOfLog(cmds: seq<Argv>, tail: Bytes, lim: Limits)
    requires AllFitLog(cmds, lim) && Parse(tail, 0, lim).More?
    ensures Drain(EncodeLog(cmds) + tail, lim) == Drained(Messages(cmds), tail)
    decreases |cmds|
  {
    hide Parse, EncodeCommand, CommandFits;
    if cmds == [] {
      assert EncodeLog(cmds) + tail == tail;
    } else {
      EncodeLogCons(cmds);
      var e := EncodeCommand(cmds[0]);
      var rest := EncodeLog(cmds[1..]) + tail;
      assert EncodeLog(cmds) + tail == e + rest;
      ParseOfCommand(cmds[0], rest, lim);
      assert (e + rest)[|e|..] == rest;
      DrainOfLog(cmds[1..], tail, lim);
      assert Messages(cmds) == [Array(BulkItems(cmds[0]))] + Messages(cmds[1..]);
    }
  }

  lemma {:induction false} ToArgvsOfLog(cmds: seq<Argv>, recode: Bytes -> Bytes)
    requires forall i :: 0 <= i < |cmds| ==> cmds[i] != []
    ensures ToArgvs(Messages(cmds), recode) == cmds
    decreases |cmds|
  {
    hide ToArgv;
    if cmds != [] {
      ToArgvOfCommand(cmds[0], recode);
      assert Messages(cmds)[1..] == Messages(cmds[1..]);
      ToArgvsOfLog(cmds[1..], recode);
    }
  }

  lemma EncodedNonempty(cmds: seq<Argv>)
    requires cmds != []
    ensures EncodeLog(cmds) != []
  {
    EncodeLogCons(cmds);
    assert EncodeCommand(cmds[0])[0] == STAR;
  }

  lemma ReadOfLogAndTail(cmds: seq<Argv>, tail: Bytes, lim: Limits, maxBuffer: nat, maxFile: nat,
                         recode: Bytes -> Bytes)
    requires AllFitLog(cmds, lim) && Parse(tail, 0, lim).More?
    requires |EncodeLog(cmds) + tail| <= maxBuffer && |EncodeLog(cmds) + tail| <= maxFile
    ensures ReadLog(EncodeLog(cmds) + tail, lim, maxBuffer, maxFile, recode) == Commands(cmds)
  {
    hide Parse, EncodeCommand, CommandFits, ToArgv, Drain;
    var data := EncodeLog(cmds) + tail;
    DrainOfLog(cmds, tail, lim);
    ToArgvsOfLog(cmds, recode);
    assert [] + data == data;
    if cmds != [] {
      EncodedNonempty(cmds);
    }
  }

  /** How many commands lie wholly before the cut. */
  function WholeBefore(cmds: seq<Argv>, cut: nat): (k: nat)
    ensures k <= |cmds| && |EncodeLog(cmds[..k])| <= cut
    ensures k < |cmds| ==> cut < |EncodeLog(cmds[..k + 1])|
    decreases |cmds|
  {
    if cmds == [] || cut < |EncodeCommand(cmds[0])| then
      (if cmds == [] then 0
       else assert cmds[..1] == [cmds[0]]; EncodeLogOne(cmds[0]); 0)
    else
      var k := WholeBefore(cmds[1..], cut - |EncodeCommand(cmds[0])|);
      EncodeLogCons(cmds[..k + 1]);
      assert cmds[..k + 1][1..] == cmds[1..][..k];
      assert k + 1 < |cmds| ==>
          EncodeLog(cmds[..k + 2]) == EncodeCommand(cmds[0]) + EncodeLog(cmds[1..][..k + 1]) by {
        if k + 1 < |cmds| {
          EncodeLogCons(cmds[..k + 2]);
          assert cmds[..k + 2][1..] == cmds[1..][..k + 1];
        }
      }
      k + 1
  }

  /** Crash truncation: whatever byte the file was cut at, reading it returns exactly the
      commands that lie wholly before the cut, and never a protocol error. */
  lemma CrashCut(cmds: seq<Argv>, cut: nat, lim: Limits, maxBuffer: nat, maxFile: nat, recode: Bytes -> Bytes)
    requires AllFitLog(cmds, lim) && cut <= |EncodeLog(cmds)|
    requires cut <= maxBuffer && cut <= maxFile
    ensures ReadLog(EncodeLog(cmds)[..cut], lim, maxBuffer, maxFile, recode) ==
            Commands(cmds[..WholeBefore(cmds, cut)])
  {
    hide Parse, EncodeCommand, CommandFits, ReadLog, EncodeLog;
    var k := WholeBefore(cmds, cut);
    var whole := EncodeLog(cmds[..k]);
    EncodeLogAppend(cmds[..k], cmds[k..]);
    assert cmds[..k] + cmds[k..] == cmds;
    var tail := EncodeLog(cmds)[..cut][|whole|..];
    assert EncodeLog(cmds)[..cut] == whole + tail;
    assert Parse(tail, 0, lim).More? by {
      CutTail(cmds, k, cut, lim);
    }
    ReadOfLogAndTail(cmds[..k], tail, lim, maxBuffer, maxFile, recode);
  }

  lemma CutTail(cmds: seq<Argv>, k: nat, cut: nat, lim: Limits)
    requires AllFitLog(cmds, lim) && k <= |cmds|
    requires |EncodeLog(cmds[..k])| <= cut <= |EncodeLog(cmds)|
    requires k < |cmds| ==> cut < |EncodeLog(cmds[..k + 1])|
    ensures Parse(EncodeLog(cmds)[..cut][|EncodeLog(cmds[..k])|..], 0, lim).More?
  {
    hide EncodeCommand, CommandFits, EncodeLog, PyInt;
    var whole := EncodeLog(cmds[..k]);
    EncodeLogAppend(cmds[..k], cmds[k..]);
    assert cmds[..k] + cmds[k..] == cmds;
    var tail := EncodeLog(cmds)[..cut][|whole|..];
    if k == |cmds| {
      assert cmds[..k] == cmds;
      assert tail == [];
    } else {
      EncodeLogCons(cmds[k..]);
      assert cmds[..k + 1] == cmds[..k] + [cmds[k]];
      EncodeLogAppend(cmds[..k], [cmds[k]]);
      EncodeLogOne(cmds[k]);
      var e := EncodeCommand(cmds[k]);
      assert tail == e[..cut - |whole|];
      CommandPrefixIncomplete(cmds[k], cut - |whole|, lim);
    }
  }

  /** A log and an incomplete frame after it parse exactly if every command fits. */
  lemma {:induction false} DrainableIffFits(cmds: seq<Argv>, tail: Bytes, lim: Limits)
    requires Parse(tail, 0, lim).More?
    ensures Drain(EncodeLog(cmds) + tail, lim).Drained? <==>
            forall i :: 0 <= i < |cmds| ==> CommandFits(cmds[i], lim)
    decreases |cmds|
  {
    hide EncodeCommand, CommandFits, PyInt, Parse;
    if cmds == [] {
      assert EncodeLog(cmds) + tail == tail;
    } else {
      EncodeLogCons(cmds);
      var e := EncodeCommand(cmds[0]);
      var rest := EncodeLog(cmds[1..]) + tail;
      assert EncodeLog(cmds) + tail == e + rest;
      ParseOfCommand(cmds[0], rest, lim);
      if CommandFits(cmds[0], lim) {
        assert (e + rest)[|e|..] == rest;
        DrainableIffFits(cmds[1..], tail, lim);
        assert forall i :: 1 <= i < |cmds| ==> cmds[i] == cmds[1..][i - 1];
      }
    }
  }

  /** A log, perhaps with an incomplete frame after it, is readable exactly when every command
      is within the reader's limits and the whole of it within both the file limit and the
      buffer of the parser, which is given the file in one piece. */
  lemma ReadableIffFits(cmds: seq<Argv>, tail: Bytes, lim: Limits, maxBuffer: nat, maxFile: nat,
                        recode: Bytes -> Bytes)
    requires Parse(tail, 0, lim).More? && forall i :: 0 <= i < |cmds| ==> cmds[i] != []
    ensures var data := EncodeLog(cmds) + tail;
            var read := ReadLog(data, lim, maxBuffer, maxFile, recode);
            && (read.Commands? <==>
                |data| <= maxBuffer && |data| <= maxFile && forall i :: 0 <= i < |cmds| ==> CommandFits(cmds[i], lim))
            && (read.Commands? ==> read == Commands(cmds))
  {
    hide EncodeCommand, CommandFits, Parse, Drain, ToArgv, EncodeLog;
    var data := EncodeLog(cmds) + tail;
    DrainableIffFits(cmds, tail, lim);
    assert [] + data == data;
    if data == [] {
      NothingLogged(cmds, tail);
    } else if |data| <= maxBuffer && |data| <= maxFile && AllFitLog(cmds, lim) {
      ReadOfLogAndTail(cmds, tail, lim, maxBuffer, maxFile, recode);
    }
  }

  lemma EmptyIsIncomplete(lim: Limits)
    ensures Parse([], 0, lim).More?
  {
  }

  lemma NothingLogged(cmds: seq<Argv>, tail: Bytes)
    requires EncodeLog(cmds) + tail == []
    ensures cmds == []
  {
    if cmds != [] {
      EncodedNonempty(cmds);
    }
  }

  // ---- a log larger than the parser's buffer -------------------------------

  /** The limits of the parser that reads the log, unless configured otherwise. */
  const DEFAULTS := Limits(16_777_216, 1024, 64)
  const DEFAULT_BUFFER := 32_000_000
  const DEFAULT_FILE := 1024 * 1024 * 1024

  lemma BulkLength(b: Bytes)
    requires b != []
    ensures |b| <= |EncodeBulk(b)| <= 2 * |b| + 5
  {
    DigitsLength(|b|);
  }

  /** SET of this key and value, encoded: at least as long as the value, and not much more. */
  lemma PairLength(name: Bytes, key: Bytes, value: Bytes)
    requires name != [] && key != [] && value != []
    ensures |value| < |EncodeCommand([name, key, value])| <= 10 + 2 * (|name| + |key| + |value|) + 15
  {
    hide EncodeBulk;
    var items := BulkItems([name, key, value]);
    assert items == [Bulk(name), Bulk(key), Bulk(value)];
    assert items[1..] == [Bulk(key), Bulk(value)] && items[1..][1..] == [Bulk(value)] && items[1..][1..][1..] == [];
    BulkLength(name);
    BulkLength(key);
    BulkLength(value);
    assert EncodeItems([]) == [];
    assert EncodeItems([Bulk(value)]) == EncodeBulk(value) + [];
    assert EncodeItems([Bulk(key), Bulk(value)]) == EncodeBulk(key) + EncodeItems([Bulk(value)]);
    assert EncodeItems(items) == EncodeBulk(name) + EncodeItems([Bulk(key), Bulk(value)]);
    DigitsLength(3);
  }

  /** Two writes of a 16 MB value under the default limits: both fit, the file is far below
      the file limit, and it cannot be loaded. */
  lemma FittingLogRefused(name: Bytes, key: Bytes, value: Bytes, recode: Bytes -> Bytes)
    requires 0 < |name| <= 6 && 0 < |key| <= 6 && |value| == 16_000_000
    ensures var log := [[name, key, value], [name, key, value]];
            && AllFitLog(log, DEFAULTS) && |EncodeLog(log)| <= DEFAULT_FILE
            && ReadLog(EncodeLog(log), DEFAULTS, DEFAULT_BUFFER, DEFAULT_FILE, recode) == Corrupt
  {
    hide EncodeCommand, Drain, Parse;
    var c := [name, key, value];
    PairLength(name, key, value);
    EncodeLogCons([c, c]);
    assert [c, c][1..] == [c];
    EncodeLogOne(c);
  }
}
