/** The incremental parser object of `protocol/parser.py`: a byte buffer that `Feed`
    extends and consumes, and cursor-based readers over it. */
module RespParser {
  import opened ByteStrings
  import opened Resp

  /** A reading relative to `start`, as an absolute end index into the buffer. */
  function At(p: Parsed, start: nat): Parsed {
    if p.Done? then Done(p.value, start + p.used) else p
  }

  /** Items already read, then the outcome for the remaining ones. */
  function Prepend(vs: seq<Value>, n: nat, p: ParsedItems): ParsedItems {
    if p.DoneItems? then DoneItems(vs + p.items, n + p.used) else p
  }

  function PrependMessages(ms: seq<Value>, d: Drained): Drained {
    if d.Drained? then Drained(ms + d.messages, d.rest) else d
  }

  class RespParser {
    var buf: Bytes
    const lim: Limits
    const maxBuffer: nat

    constructor (lim: Limits, maxBuffer: nat)
      ensures this.lim == lim && this.maxBuffer == maxBuffer && buf == []
    {
      this.lim := lim;
      this.maxBuffer := maxBuffer;
      buf := [];
    }

    /** Accepts new bytes and returns every complete message. On success the messages and
        the residual buffer are those of Feed; on a protocol error the buffer starts
        with the offending frame; on an oversized input it is unchanged. */
    method FeedBytes(data: Bytes) returns (ok: bool, messages: seq<Value>)
      modifies this
      ensures ok <==> Feed(old(buf), data, lim, maxBuffer).Drained?
      ensures ok ==> Drained(messages, buf) == Feed(old(buf), data, lim, maxBuffer)
      ensures !ok ==> messages == []
      ensures !ok && |old(buf)| + |data| > maxBuffer ==> buf == old(buf)
      ensures !ok && |old(buf)| + |data| <= maxBuffer ==>
                Parse(buf, 0, lim).Bad? && |buf| <= |old(buf) + data| &&
                buf == (old(buf) + data)[|old(buf) + data| - |buf|..]
    {
      hide Parse;
      if |buf| + |data| > maxBuffer {
        return false, [];
      }
      buf := buf + data;
      ghost var all := buf;
      messages := [];
      while true
        invariant |buf| <= |all| && buf == all[|all| - |buf|..]
        invariant Drain(all, lim) == PrependMessages(messages, Drain(buf, lim))
        decreases |buf|
      {
        var p := TryParse(0, 0);
        assert buf[0..] == buf;
        ghost var before := buf;
        match p {
          case More =>
            assert messages + [] == messages;
            return true, messages;
          case Bad =>
            return false, [];
          case Done(v, used) =>
            buf := buf[used..];
            messages := messages + [v];
            DrainStep(all, before, v, used, messages[..|messages| - 1], lim);
            assert messages == messages[..|messages| - 1] + [v];
        }
      }
    }

    method TryParse(start: nat, depth: nat) returns (r: Parsed)
      requires start <= |buf| && depth <= lim.maxDepth
      ensures r == At(Parse(buf[start..], depth, lim), start)
      decreases lim.maxDepth - depth, 1
    {
      if start >= |buf| {
        return More;
      }
      var prefix := buf[start];
      if prefix == PLUS || prefix == MINUS || prefix == COLON {
        var l := ReadLine(buf[start..]);
        if l.NoLine? {
          r := More;
        } else if prefix == PLUS {
          r := Done(Simple(l.line), start + l.used);
        } else if prefix == MINUS {
          r := Done(Error(l.line), start + l.used);
        } else {
          var n := PyInt(l.line);
          r := if n.None? then Bad else Done(Integer(n.value), start + l.used);
        }
      } else if prefix == DOLLAR {
        r := At(ParseBulk(buf[start..], lim), start);
      } else if prefix == STAR {
        r := ParseArray(start, depth);
      } else {
        r := Bad;
      }
    }

    method ParseArray(start: nat, depth: nat) returns (r: Parsed)
      requires start < |buf| && buf[start] == STAR && depth <= lim.maxDepth
      ensures r == At(Parse(buf[start..], depth, lim), start)
      decreases lim.maxDepth - depth, 0
    {
      hide PyInt, ReadLine;
      if depth >= lim.maxDepth {
        return Bad;
      }
      var l := ReadLine(buf[start..]);
      if l.NoLine? {
        return More;
      }
      var n := PyInt(l.line);
      if n.None? {
        return Bad;
      }
      if n.value == -1 {
        return Done(Null, start + l.used);
      }
      if n.value < -1 || n.value > lim.maxArray {
        return Bad;
      }
      var p := ParseElements(start + l.used, n.value, depth + 1);
      assert buf[start..][l.used..] == buf[start + l.used..];
      match p {
        case MoreItems => return More;
        case BadItems => return Bad;
        case DoneItems(items, used) => return Done(Array(items), start + l.used + used);
      }
    }

    /** The cursor loop over the announced number of elements. */
    method ParseElements(start: nat, count: nat, depth: nat) returns (r: ParsedItems)
      requires start <= |buf| && depth <= lim.maxDepth
      ensures r == ParseItems(buf[start..], count, depth, lim)
      decreases lim.maxDepth - depth, 2
    {
      hide Parse;
      var items := [];
      var cursor := start;
      for i := 0 to count
        invariant start <= cursor <= |buf|
        invariant ParseItems(buf[start..], count, depth, lim) ==
                  Prepend(items, cursor - start, ParseItems(buf[cursor..], count - i, depth, lim))
      {
        var p := TryParse(cursor, depth);
        match p {
          case More => return MoreItems;
          case Bad => return BadItems;
          case Done(v, end) =>
            assert buf[cursor..][end - cursor..] == buf[end..];
            PrependStep(items, v, cursor - start, end - cursor, ParseItems(buf[end..], count - i - 1, depth, lim));
            items := items + [v];
            cursor := end;
        }
      }
      assert Prepend(items, cursor - start, DoneItems([], 0)) == DoneItems(items, cursor - start);
      r := DoneItems(items, cursor - start);
    }
  }

  lemma PrependStep(vs: seq<Value>, v: Value, n: nat, m: nat, p: ParsedItems)
    ensures Prepend(vs, n, Prepend([v], m, p)) == Prepend(vs + [v], n + m, p)
  {
    if p.DoneItems? {
      assert vs + ([v] + p.items) == (vs + [v]) + p.items;
    }
  }

  lemma DrainStep(all: Bytes, s: Bytes, v: Value, used: nat, ms: seq<Value>, lim: Limits)
    requires Parse(s, 0, lim) == Done(v, used)
    requires Drain(all, lim) == PrependMessages(ms, Drain(s, lim))
    ensures Drain(all, lim) == PrependMessages(ms + [v], Drain(s[used..], lim))
  {
    var d := Drain(s[used..], lim);
    if d.Drained? {
      assert ms + ([v] + d.messages) == (ms + [v]) + d.messages;
    }
  }
}
