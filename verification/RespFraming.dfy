/** Incremental parsing: complete frames and protocol errors are both stable under
    more input, so the way a stream is cut into chunks cannot be observed. */
module RespFraming {
  import opened ByteStrings
  import opened Resp

  lemma ReadLineStable(s: Bytes, t: Bytes)
    requires s != [] && ReadLine(s).GotLine?
    ensures ReadLine(s + t) == ReadLine(s)
  {
    FindCrlfStable(s[1..], t);
    assert (s + t)[1..] == s[1..] + t;
  }

  lemma ParseBulkStable(s: Bytes, t: Bytes, lim: Limits)
    requires s != [] && !ParseBulk(s, lim).More?
    ensures ParseBulk(s + t, lim) == ParseBulk(s, lim)
  {
    ReadLineStable(s, t);
    var l := ReadLine(s);
    var n := PyInt(l.line);
    if n.Some? && 0 <= n.value <= lim.maxBulk {
      var e := l.used + n.value;
      assert (s + t)[e..e + 2] == s[e..e + 2];
      assert (s + t)[l.used..e] == s[l.used..e];
    }
  }

  /** A frame that is complete, or already wrong, is read the same way whatever follows. */
  lemma {:induction false} ParseStable(s: Bytes, t: Bytes, depth: nat, lim: Limits)
    requires depth <= lim.maxDepth && !Parse(s, depth, lim).More?
    ensures Parse(s + t, depth, lim) == Parse(s, depth, lim)
    decreases lim.maxDepth - depth, 0, 0
  {
    hide PyInt, ReadLine, ParseBulk;
    assert (s + t)[0] == s[0];
    if s[0] == DOLLAR {
      ParseBulkStable(s, t, lim);
    } else if s[0] == STAR {
      if depth < lim.maxDepth {
        ReadLineStable(s, t);
        var l := ReadLine(s);
        var n := PyInt(l.line);
        if n.Some? && 0 <= n.value <= lim.maxArray {
          assert (s + t)[l.used..] == s[l.used..] + t;
          ParseItemsStable(s[l.used..], t, n.value, depth + 1, lim);
        }
      }
    } else if s[0] == PLUS || s[0] == MINUS || s[0] == COLON {
      ReadLineStable(s, t);
    }
  }

  lemma {:induction false} ParseItemsStable(s: Bytes, t: Bytes, count: nat, depth: nat, lim: Limits)
    requires depth <= lim.maxDepth && !ParseItems(s, count, depth, lim).MoreItems?
    ensures ParseItems(s + t, count, depth, lim) == ParseItems(s, count, depth, lim)
    decreases lim.maxDepth - depth, 1, count
  {
    hide Parse;
    if count > 0 {
      ParseStable(s, t, depth, lim);
      var p := Parse(s, depth, lim);
      if p.Done? {
        assert (s + t)[p.used..] == s[p.used..] + t;
        ParseItemsStable(s[p.used..], t, count - 1, depth, lim);
      }
    }
  }

  /** The first round of the message loop. */
  lemma DrainOne(s: Bytes, lim: Limits)
    ensures var p := Parse(s, 0, lim);
            && (p.More? ==> Drain(s, lim) == Drained([], s))
            && (p.Bad? ==> Drain(s, lim) == Failed)
            && (p.Done? ==>
                  var d := Drain(s[p.used..], lim);
                  Drain(s, lim) == if d.Failed? then Failed else Drained([p.value] + d.messages, d.rest))
  {
    hide Parse;
  }

  /** Draining a stream is draining a first part, then what was left over with the
      second part; an error in the first part is an error of the whole. */
  lemma {:induction false} DrainSplit(s: Bytes, t: Bytes, lim: Limits)
    ensures Drain(s + t, lim) ==
            match Drain(s, lim)
            case Failed => Failed
            case Drained(ms, rest) =>
              match Drain(rest + t, lim)
              case Failed => Failed
              case Drained(ms', rest') => Drained(ms + ms', rest')
    decreases |s|
  {
    hide Parse, Drain;
    if !Parse(s, 0, lim).More? {
      ParseStable(s, t, 0, lim);
    }
    DrainOne(s, lim);
    DrainOne(s + t, lim);
    match Parse(s, 0, lim)
    case More =>
      var d := Drain(s + t, lim);
      assert d.Drained? ==> [] + d.messages == d.messages;
    case Bad =>
    case Done(v, n) =>
      assert (s + t)[n..] == s[n..] + t;
      DrainSplit(s[n..], t, lim);
      var d, d' := Drain(s[n..], lim), Drain(s[n..] + t, lim);
      if d.Drained? && d'.Drained? {
        var tail := Drain(d.rest + t, lim);
        assert [v] + (d.messages + tail.messages) == ([v] + d.messages) + tail.messages;
      }
  }

  /** Feeding chunks one after another, stopping at the first protocol error. */
  function FeedChunks(buf: Bytes, chunks: seq<Bytes>, lim: Limits, maxBuffer: nat): Drained
    decreases |chunks|
  {
    if chunks == [] then Drained([], buf)
    else
      match Feed(buf, chunks[0], lim, maxBuffer)
      case Failed => Failed
      case Drained(ms, rest) =>
        match FeedChunks(rest, chunks[1..], lim, maxBuffer)
        case Failed => Failed
        case Drained(ms', rest') => Drained(ms + ms', rest')
  }

  /** Each feed, with what was left over from the ones before, is within the buffer limit. */
  predicate FeedsFit(buf: Bytes, chunks: seq<Bytes>, lim: Limits, maxBuffer: nat)
    decreases |chunks|
  {
    chunks == [] ||
    (|buf| + |chunks[0]| <= maxBuffer &&
     var d := Drain(buf + chunks[0], lim);
     d.Drained? ==> FeedsFit(d.rest, chunks[1..], lim, maxBuffer))
  }

  /** However a stream of any length is cut into chunks, feeding them gives the messages,
      the left-over bytes and the error verdict of the whole, exactly if no single feed
      overflows the buffer. */
  lemma {:induction false} ChunksFeedTheStream(buf: Bytes, chunks: seq<Bytes>, lim: Limits, maxBuffer: nat)
    requires Parse(buf, 0, lim).More?
    ensures FeedChunks(buf, chunks, lim, maxBuffer) ==
            if FeedsFit(buf, chunks, lim, maxBuffer) then Drain(buf + Flat(chunks), lim) else Failed
    decreases |chunks|
  {
    hide Parse;
    if chunks == [] {
      assert buf + Flat(chunks) == buf;
    } else {
      var c := chunks[0];
      assert buf + Flat(chunks) == (buf + c) + Flat(chunks[1..]);
      DrainSplit(buf + c, Flat(chunks[1..]), lim);
      var d := Drain(buf + c, lim);
      if d.Drained? {
        ChunksFeedTheStream(d.rest, chunks[1..], lim, maxBuffer);
      }
    }
  }

  lemma {:induction false} ShortStreamFits(buf: Bytes, chunks: seq<Bytes>, lim: Limits, maxBuffer: nat)
    requires |buf| + |Flat(chunks)| <= maxBuffer
    ensures FeedsFit(buf, chunks, lim, maxBuffer)
    decreases |chunks|
  {
    hide Parse, Drain;
    if chunks != [] {
      var d := Drain(buf + chunks[0], lim);
      if d.Drained? {
        ShortStreamFits(d.rest, chunks[1..], lim, maxBuffer);
      }
    }
  }

  /** Every way of cutting a stream within the buffer limit into chunks gives the messages,
      the left-over bytes and the error verdict of feeding it whole. */
  lemma ChunkingIsInvisible(buf: Bytes, chunks: seq<Bytes>, lim: Limits, maxBuffer: nat)
    requires Parse(buf, 0, lim).More?
    requires |buf| + |Flat(chunks)| <= maxBuffer
    ensures FeedChunks(buf, chunks, lim, maxBuffer) == Feed(buf, Flat(chunks), lim, maxBuffer)
  {
    hide Parse, Drain, FeedsFit, FeedChunks;
    ShortStreamFits(buf, chunks, lim, maxBuffer);
    ChunksFeedTheStream(buf, chunks, lim, maxBuffer);
  }

  // ---- round trip ----------------------------------------------------------

  /** Values encode_value can produce: nulls, integers, byte strings, nested arrays. */
  predicate Encodable(v: Value)
    decreases v, 0
  {
    match v
    case Array(items) => AllEncodable(items)
    case Simple(_) => false
    case Error(_) => false
    case _ => true
  }

  predicate AllEncodable(items: seq<Value>)
    decreases items
  {
    items != [] ==> Encodable(items[0]) && AllEncodable(items[1..])
  }

  /** Within the parser's bulk, array and nesting limits. */
  predicate Fits(v: Value, depth: nat, lim: Limits)
    decreases v, 0
  {
    match v
    case Bulk(b) => |b| <= lim.maxBulk
    case Array(items) => depth < lim.maxDepth && |items| <= lim.maxArray && AllFit(items, depth + 1, lim)
    case _ => true
  }

  predicate AllFit(items: seq<Value>, depth: nat, lim: Limits)
    decreases items
  {
    items != [] ==> Fits(items[0], depth, lim) && AllFit(items[1..], depth, lim)
  }

  lemma ReadHeader(prefix: byte, n: int, rest: Bytes)
    ensures ReadLine(Header(prefix, n) + rest) == GotLine(Decimal(n), |Header(prefix, n)|)
    ensures (Header(prefix, n) + rest)[0] == prefix
    ensures (Header(prefix, n) + rest)[|Header(prefix, n)|..] == rest
  {
    var s := Header(prefix, n) + rest;
    assert s[1..] == Decimal(n) + CRLF + rest;
    DecimalNoCr(n);
    FindCrlfAfterLine(Decimal(n), rest);
    assert s[1..1 + |Decimal(n)|] == Decimal(n);
  }

  lemma ParseBulkOfEncode(b: Bytes, rest: Bytes, lim: Limits)
    ensures ParseBulk(EncodeBulk(b) + rest, lim) ==
            if |b| <= lim.maxBulk then Done(Bulk(b), |EncodeBulk(b)|) else Bad
  {
    hide PyInt, Decimal, ReadLine;
    var h := Header(DOLLAR, |b|);
    var body := b + CRLF + rest;
    var s := EncodeBulk(b) + rest;
    assert s == h + body;
    ReadHeader(DOLLAR, |b|, body);
    PyIntOfDecimal(|b|);
    assert s[|h|..|h| + |b|] == b && s[|h| + |b|..|h| + |b| + 2] == CRLF by {
      assert s[|h|..|h| + |b|] == body[..|b|] == b;
      assert s[|h| + |b|..|h| + |b| + 2] == body[|b|..|b| + 2] == CRLF;
    }
  }

  lemma ParseNull(rest: Bytes, lim: Limits)
    ensures ParseBulk(Encode(Null) + rest, lim) == Done(Null, |Encode(Null)|)
  {
    hide PyInt, Decimal;
    ReadHeader(DOLLAR, -1, rest);
    PyIntOfDecimal(-1);
  }

  lemma ParseScalarOfEncode(v: Value, rest: Bytes, depth: nat, lim: Limits)
    requires v.Null? || v.Integer? || v.Bulk?
    requires depth <= lim.maxDepth
    ensures Parse(Encode(v) + rest, depth, lim) ==
            if Fits(v, depth, lim) then Done(v, |Encode(v)|) else Bad
  {
    hide PyInt, Decimal, ParseBulk;
    match v
    case Null =>
      ParseNull(rest, lim);
    case Integer(i) =>
      ReadHeader(COLON, i, rest);
      PyIntOfDecimal(i);
    case Bulk(b) =>
      ParseBulkOfEncode(b, rest, lim);
  }

  /** Reading an encoded value gives the value back and leaves exactly what followed it,
      when the value is within limits; otherwise it is a protocol error. */
  lemma {:induction false} ParseOfEncode(v: Value, rest: Bytes, depth: nat, lim: Limits)
    requires Encodable(v) && depth <= lim.maxDepth
    ensures Parse(Encode(v) + rest, depth, lim) ==
            if Fits(v, depth, lim) then Done(v, |Encode(v)|) else Bad
    decreases v, 0
  {
    hide PyInt, Decimal, ParseBulk, ReadLine, Header;
    if !v.Array? {
      ParseScalarOfEncode(v, rest, depth, lim);
    } else {
      var items := v.items;
      var h := Header(STAR, |items|);
      var tail := EncodeItems(items) + rest;
      assert Encode(v) + rest == h + tail;
      ReadHeader(STAR, |items|, tail);
      PyIntOfDecimal(|items|);
      if depth < lim.maxDepth && |items| <= lim.maxArray {
        ParseItemsOfEncode(items, rest, depth + 1, lim);
      }
    }
  }

  lemma {:induction false} ParseItemsOfEncode(items: seq<Value>, rest: Bytes, depth: nat, lim: Limits)
    requires AllEncodable(items) && depth <= lim.maxDepth
    ensures ParseItems(EncodeItems(items) + rest, |items|, depth, lim) ==
            if AllFit(items, depth, lim) then DoneItems(items, |EncodeItems(items)|) else BadItems
    decreases items
  {
    hide Parse, Fits, Encode, Encodable;
    if items != [] {
      var e := Encode(items[0]);
      var tail := EncodeItems(items[1..]) + rest;
      assert EncodeItems(items) + rest == e + tail;
      ParseOfEncode(items[0], tail, depth, lim);
      if Fits(items[0], depth, lim) {
        assert (e + tail)[|e|..] == tail;
        ParseItemsOfEncode(items[1..], rest, depth, lim);
        assert [items[0]] + items[1..] == items;
      }
    }
  }

  // ---- replies on one connection -------------------------------------------

  /** One reply as the server writes it: a value, a simple string or an error line. */
  predicate IsReply(v: Value) {
    match v
    case Simple(line) => EncodeSimple(line).Some?
    case Error(_) => true
    case _ => Encodable(v)
  }

  /** The message the client reads for that reply. */
  function AsRead(v: Value): Value {
    if v.Error? then Error(Sanitise(v.line)) else v
  }

  lemma ParseOfReply(v: Value, rest: Bytes, lim: Limits)
    requires IsReply(v) && Fits(v, 0, lim)
    ensures Parse(Encode(v) + rest, 0, lim) == Done(AsRead(v), |Encode(v)|)
  {
    if v.Simple? || v.Error? {
      var line := if v.Simple? then v.line else Sanitise(v.line);
      var s := Encode(v) + rest;
      assert s[1..] == line + CRLF + rest;
      FindCrlfAfterLine(line, rest);
      assert s[1..1 + |line|] == line;
    } else {
      ParseOfEncode(v, rest, 0, lim);
    }
  }

  /** Any concatenation of replies reads back as exactly one message per reply. */
  lemma {:induction false} RepliesReadBack(replies: seq<Value>, lim: Limits)
    requires forall i :: 0 <= i < |replies| ==> IsReply(replies[i]) && Fits(replies[i], 0, lim)
    ensures Drain(EncodeItems(replies), lim) ==
            Drained(seq(|replies|, i requires 0 <= i < |replies| => AsRead(replies[i])), [])
  {
    if replies != [] {
      var e := Encode(replies[0]);
      var tail := EncodeItems(replies[1..]);
      ParseOfReply(replies[0], tail, lim);
      assert (e + tail)[|e|..] == tail;
      RepliesReadBack(replies[1..], lim);
      assert [AsRead(replies[0])] +
        seq(|replies| - 1, i requires 0 <= i < |replies| - 1 => AsRead(replies[1..][i])) ==
        seq(|replies|, i requires 0 <= i < |replies| => AsRead(replies[i]));
    }
  }
}
