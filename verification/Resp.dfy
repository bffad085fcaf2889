/** RESP2 values, their encoding (`protocol/encoder.py`) and the frame grammar
    accepted by the incremental parser (`protocol/parser.py`). */
module Resp {
  import opened ByteStrings

  /** What a top-level frame decodes to. Both null forms decode to `Null`; a simple
      string or an error keeps the raw bytes of its line. */
  datatype Value =
    | Null
    | Integer(i: int)
    | Bulk(bytes: Bytes)
    | Array(items: seq<Value>)
    | Simple(line: Bytes)
    | Error(line: Bytes)

  type Argv = seq<Bytes>

  datatype Limits = Limits(maxBulk: nat, maxArray: nat, maxDepth: nat)

  const PLUS: byte := 43
  const MINUS: byte := 45
  const COLON: byte := 58
  const DOLLAR: byte := 36
  const STAR: byte := 42

  // ---- encoding ------------------------------------------------------------

  function Header(prefix: byte, n: int): Bytes {
    [prefix] + Decimal(n) + CRLF
  }

  function EncodeBulk(b: Bytes): Bytes {
    Header(DOLLAR, |b|) + b + CRLF
  }

  /** encode_simple_string: CR and LF are refused (ValueError). */
  function EncodeSimple(line: Bytes): Option<Bytes> {
    if CR in line || LF in line then None else Some([PLUS] + line + CRLF)
  }

  /** The line encode_error writes: every CR and LF becomes a space. */
  function Sanitise(line: Bytes): (r: Bytes)
    ensures |r| == |line| && CR !in r && LF !in r
    ensures forall i :: 0 <= i < |r| ==> r[i] == line[i] || (line[i] in CRLF && r[i] == SPACE)
  {
    seq(|line|, i requires 0 <= i < |line| => if line[i] == CR || line[i] == LF then SPACE else line[i])
  }

  function EncodeError(line: Bytes): Bytes {
    [MINUS] + Sanitise(line) + CRLF
  }

  /** encode_value on null, integers, byte strings and lists of these. */
  function Encode(v: Value): Bytes
    decreases v, 0
  {
    match v
    case Null => Header(DOLLAR, -1)
    case Integer(i) => Header(COLON, i)
    case Bulk(b) => EncodeBulk(b)
    case Array(items) => Header(STAR, |items|) + EncodeItems(items)
    case Simple(line) => [PLUS] + line + CRLF
    case Error(line) => EncodeError(line)
  }

  function EncodeItems(items: seq<Value>): Bytes
    decreases items
  {
    if items == [] then [] else Encode(items[0]) + EncodeItems(items[1..])
  }

  function BulkItems(argv: Argv): (r: seq<Value>)
    ensures |r| == |argv|
    ensures forall i :: 0 <= i < |r| ==> r[i] == Bulk(argv[i])
  {
    seq(|argv|, i requires 0 <= i < |argv| => Bulk(argv[i]))
  }

  /** encode_command: an argv as an array of bulk strings. */
  function EncodeCommand(argv: Argv): Bytes {
    Encode(Array(BulkItems(argv)))
  }

  // ---- the frame grammar ---------------------------------------------------

  /** Outcome of trying to read one frame at the front of a byte string:
      incomplete, a protocol error, or a value and the bytes it used. */
  datatype Parsed = More | Bad | Done(value: Value, used: nat)
  datatype ParsedItems = MoreItems | BadItems | DoneItems(items: seq<Value>, used: nat)

  /** _read_line after a one-byte prefix: the line and the bytes used with the prefix. */
  datatype Line = NoLine | GotLine(line: Bytes, used: nat)

  function ReadLine(s: Bytes): (r: Line)
    requires s != []
    ensures r.GotLine? ==> 3 <= r.used <= |s|
  {
    var i := FindCrlf(s[1..]);
    if i.None? then NoLine else GotLine(s[1..1 + i.value], i.value + 3)
  }

  function ParseBulk(s: Bytes, lim: Limits): (r: Parsed)
    requires s != []
    ensures r.Done? ==> 0 < r.used <= |s|
  {
    var l := ReadLine(s);
    if l.NoLine? then More
    else
      var n := PyInt(l.line);
      if n.None? then Bad
      else if n.value == -1 then Done(Null, l.used)
      else if n.value < -1 || n.value > lim.maxBulk then Bad
      else if |s| < l.used + n.value + 2 then More
      else if s[l.used + n.value..l.used + n.value + 2] != CRLF then Bad
      else Done(Bulk(s[l.used..l.used + n.value]), l.used + n.value + 2)
  }

  /** _try_parse at the front of `s`. */
  function Parse(s: Bytes, depth: nat, lim: Limits): (r: Parsed)
    requires depth <= lim.maxDepth
    ensures r.Done? ==> 0 < r.used <= |s|
    decreases lim.maxDepth - depth, 0, 0
  {
    if s == [] then More
    else if s[0] == PLUS then
      (var l := ReadLine(s); if l.NoLine? then More else Done(Simple(l.line), l.used))
    else if s[0] == MINUS then
      (var l := ReadLine(s); if l.NoLine? then More else Done(Error(l.line), l.used))
    else if s[0] == COLON then
      (var l := ReadLine(s);
       if l.NoLine? then More
       else var n := PyInt(l.line); if n.None? then Bad else Done(Integer(n.value), l.used))
    else if s[0] == DOLLAR then ParseBulk(s, lim)
    else if s[0] == STAR then
      if depth >= lim.maxDepth then Bad
      else
        var l := ReadLine(s);
        if l.NoLine? then More
        else
          var n := PyInt(l.line);
          if n.None? then Bad
          else if n.value == -1 then Done(Null, l.used)
          else if n.value < -1 || n.value > lim.maxArray then Bad
          else
            match ParseItems(s[l.used..], n.value, depth + 1, lim)
            case MoreItems => More
            case BadItems => Bad
            case DoneItems(items, used) => Done(Array(items), l.used + used)
    else Bad
  }

  /** The element loop of _parse_array. */
  function ParseItems(s: Bytes, count: nat, depth: nat, lim: Limits): (r: ParsedItems)
    requires depth <= lim.maxDepth
    ensures r.DoneItems? ==> r.used <= |s| && |r.items| == count
    decreases lim.maxDepth - depth, 1, count
  {
    if count == 0 then DoneItems([], 0)
    else
      match Parse(s, depth, lim)
      case More => MoreItems
      case Bad => BadItems
      case Done(v, n) =>
        match ParseItems(s[n..], count - 1, depth, lim)
        case MoreItems => MoreItems
        case BadItems => BadItems
        case DoneItems(vs, m) => DoneItems([v] + vs, n + m)
  }

  /** What the message loop of feed makes of a buffer: every complete frame, then
      the bytes left over, or a protocol error. */
  datatype Drained = Failed | Drained(messages: seq<Value>, rest: Bytes)

  function Drain(s: Bytes, lim: Limits): (r: Drained)
    ensures r.Drained? ==> |r.rest| <= |s| && Parse(r.rest, 0, lim).More?
    decreases |s|
  {
    match Parse(s, 0, lim)
    case More => Drained([], s)
    case Bad => Failed
    case Done(v, n) =>
      match Drain(s[n..], lim)
      case Failed => Failed
      case Drained(vs, rest) => Drained([v] + vs, rest)
  }

  /** One call of feed on a parser holding `buf`: refused when residual and incoming
      bytes exceed the buffer limit, otherwise the buffer is drained. */
  function Feed(buf: Bytes, data: Bytes, lim: Limits, maxBuffer: nat): Drained {
    if |buf| + |data| > maxBuffer then Failed else Drain(buf + data, lim)
  }
}
