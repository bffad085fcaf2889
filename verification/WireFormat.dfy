/** The bytes themselves: examples of the encoding, every kind of malformed header, the text
    of integers, and what readers make of odd messages. */
module WireFormat {
  import opened ByteStrings
  import opened Resp
  import CommandLog
  import Replica
  import Understanding

  // ---- integers as text ----------------------------------------------------

  predicate AllDigits(s: Bytes) { forall i :: 0 <= i < |s| ==> IsDigit(s[i]) }

  predicate AllSpace(s: Bytes) { forall i :: 0 <= i < |s| ==> IsSpace(s[i]) }

  /** Digits in groups separated by single underscores. */
  predicate Grouped(s: Bytes) {
    && s != [] && IsDigit(s[0]) && IsDigit(s[|s| - 1])
    && (forall i :: 0 <= i < |s| ==> IsDigit(s[i]) || s[i] == 95)
    && (forall i :: 0 <= i < |s| - 1 ==> IsDigit(s[i]) || IsDigit(s[i + 1]))
  }

  /** The number these digits spell, underscores left out. */
  function Spelled(s: Bytes, sofar: nat): nat
    decreases |s|
  {
    if s == [] then sofar
    else if IsDigit(s[0]) then Spelled(s[1..], 10 * sofar + (s[0] as nat - 48))
    else Spelled(s[1..], sofar)
  }

  lemma {:induction false} SpelledSnoc(s: Bytes, b: byte, sofar: nat)
    ensures Spelled(s + [b], sofar) ==
            if IsDigit(b) then 10 * Spelled(s, sofar) + (b as nat - 48) else Spelled(s, sofar)
    decreases |s|
  {
    if s == [] {
      assert (s + [b])[1..] == [];
    } else {
      assert (s + [b])[1..] == s[1..] + [b];
      SpelledSnoc(s[1..], b, if IsDigit(s[0]) then 10 * sofar + (s[0] as nat - 48) else sofar);
    }
  }

  /** Digits are accepted exactly in such groups, and mean what they spell. */
  lemma {:induction false} MagnitudeIff(s: Bytes)
    ensures Magnitude(s) == if Grouped(s) then Some(Spelled(s, 0)) else None
    decreases |s|
  {
    hide Grouped;
    GroupedEnds(s);
    if s != [] && IsDigit(s[|s| - 1]) {
      var n := |s| - 1;
      var d, pre := s[n], s[..n];
      assert s == pre + [d];
      SpelledSnoc(pre, d, 0);
      if pre == [] {
        assert Spelled([], 0) == 0;
      } else if pre[|pre| - 1] == 95 {
        var pre' := pre[..|pre| - 1];
        assert pre == pre' + [95];
        SpelledSnoc(pre', 95, 0);
        MagnitudeIff(pre');
        GroupedPair(pre', d);
        assert s == pre' + [95, d];
      } else {
        MagnitudeIff(pre);
        GroupedSnoc(pre, d);
      }
    }
  }

  lemma GroupedEnds(s: Bytes)
    ensures Grouped(s) ==> s != [] && IsDigit(s[|s| - 1])
    ensures |s| == 1 && IsDigit(s[0]) ==> Grouped(s)
  {
  }

  lemma GroupedSnoc(pre: Bytes, d: byte)
    requires pre != [] && pre[|pre| - 1] != 95 && IsDigit(d)
    ensures Grouped(pre + [d]) <==> Grouped(pre)
  {
    var s := pre + [d];
    assert forall i :: 0 <= i < |pre| ==> s[i] == pre[i];
    if Grouped(s) {
      assert IsDigit(s[|pre| - 1]);
    }
  }

  lemma GroupedPair(pre: Bytes, d: byte)
    requires IsDigit(d)
    ensures Grouped(pre + [95, d]) <==> Grouped(pre)
  {
    var s := pre + [95, d];
    assert forall i :: 0 <= i < |pre| ==> s[i] == pre[i];
    if pre == [] {
      assert !IsDigit(s[0]);
    } else if Grouped(s) {
      var i := |pre| - 1;
      assert !IsDigit(s[i + 1]);
    }
  }

  lemma {:induction false} LStripped(pre: Bytes, t: Bytes)
    requires AllSpace(pre) && (t == [] || !IsSpace(t[0]))
    ensures LStrip(pre + t) == t
    decreases |pre|
  {
    if pre == [] {
      assert pre + t == t;
    } else {
      assert (pre + t)[1..] == pre[1..] + t;
      LStripped(pre[1..], t);
    }
  }

  lemma {:induction false} RStripped(t: Bytes, post: Bytes)
    requires AllSpace(post) && (t == [] || !IsSpace(t[|t| - 1]))
    ensures RStrip(t + post) == t
    decreases |post|
  {
    if post == [] {
      assert t + post == t;
    } else {
      var n := |post| - 1;
      assert (t + post)[..|t + post| - 1] == t + post[..n];
      assert (t + post)[|t + post| - 1] == post[n];
      RStripped(t, post[..n]);
    }
  }

  function Signed(sign: Bytes, n: nat): int { if sign == [45] then -(n as int) else n }

  /** Python's int(): white space around, one optional sign, then grouped digits. */
  lemma PyIntOfText(pre: Bytes, sign: Bytes, digits: Bytes, post: Bytes)
    requires AllSpace(pre) && AllSpace(post) && sign in {[], [43], [45]}
    requires digits != [] && !IsSpace(digits[0]) && !IsSpace(digits[|digits| - 1]) && digits[0] != 43 && digits[0] != 45
    ensures PyInt(pre + (sign + digits + post)) ==
            if !Grouped(digits) then None else Some(Signed(sign, Spelled(digits, 0)))
  {
    hide Magnitude, Grouped;
    var t := sign + digits;
    LStripped(pre, t + post);
    RStripped(t, post);
    MagnitudeIff(digits);
    assert sign != [] ==> t[1..] == digits;
    assert sign == [] ==> t == digits;
  }

  /** Nothing but white space and signs is not a number. */
  lemma NoDigitsNoInt(pre: Bytes)
    requires AllSpace(pre)
    ensures PyInt(pre).None? && PyInt([43]).None? && PyInt([45]).None?
  {
    LStripped(pre, []);
    assert pre + [] == pre;
    assert [43][1..] == [] && [45][1..] == [];
  }

  // ---- headers -------------------------------------------------------------

  lemma HeaderLine(prefix: byte, n: int, rest: Bytes)
    ensures ReadLine(Header(prefix, n) + rest) == GotLine(Decimal(n), |Decimal(n)| + 3)
    ensures (Header(prefix, n) + rest)[|Decimal(n)| + 3..] == rest
  {
    hide Decimal, FindCrlf;
    var s := Header(prefix, n) + rest;
    DecimalNoCr(n);
    FindCrlfAfterLine(Decimal(n), rest);
    assert s[1..] == Decimal(n) + CRLF + rest;
    assert s[1..1 + |Decimal(n)|] == Decimal(n);
  }

  /** A bulk header and what follows it: null, refused, unfinished, or content with the
      line end that must follow. */
  lemma BulkAfterHeader(n: int, rest: Bytes, depth: nat, lim: Limits)
    requires depth <= lim.maxDepth
    ensures var p := Parse(Header(DOLLAR, n) + rest, depth, lim);
            if n == -1 then p == Done(Null, |Header(DOLLAR, n)|)
            else if n < -1 || n > lim.maxBulk then p == Bad
            else if |rest| < n + 2 then p == More
            else if rest[n..n + 2] != CRLF then p == Bad
            else p == Done(Bulk(rest[..n]), |Header(DOLLAR, n)| + n + 2)
  {
    hide PyInt, Decimal, ReadLine;
    var s := Header(DOLLAR, n) + rest;
    HeaderLine(DOLLAR, n, rest);
    PyIntOfDecimal(n);
    assert s[0] == DOLLAR;
    var h := |Decimal(n)| + 3;
    if 0 <= n && n + 2 <= |rest| {
      assert s[h + n..h + n + 2] == rest[n..n + 2];
      assert s[h..h + n] == rest[..n];
    }
  }

  /** An array header: refused at the depth limit, null, refused by its count, or empty. */
  lemma ArrayAfterHeader(n: int, rest: Bytes, depth: nat, lim: Limits)
    requires depth <= lim.maxDepth
    ensures var p := Parse(Header(STAR, n) + rest, depth, lim);
            && (depth == lim.maxDepth ==> p == Bad)
            && (depth < lim.maxDepth && n == -1 ==> p == Done(Null, |Header(STAR, n)|))
            && (depth < lim.maxDepth && (n < -1 || n > lim.maxArray) ==> p == Bad)
            && (depth < lim.maxDepth && n == 0 ==> p == Done(Array([]), |Header(STAR, n)|))
  {
    hide PyInt, Decimal, ReadLine;
    HeaderLine(STAR, n, rest);
    PyIntOfDecimal(n);
    assert (Header(STAR, n) + rest)[0] == STAR;
  }

  /** Lines: a status, an error, or an integer if its text is one. */
  lemma LineFrames(line: Bytes, rest: Bytes, depth: nat, lim: Limits)
    requires NoCr(line) && depth <= lim.maxDepth
    ensures Parse([PLUS] + line + CRLF + rest, depth, lim) == Done(Simple(line), |line| + 3)
    ensures Parse([MINUS] + line + CRLF + rest, depth, lim) == Done(Error(line), |line| + 3)
    ensures Parse([COLON] + line + CRLF + rest, depth, lim) ==
            if PyInt(line).None? then Bad else Done(Integer(PyInt(line).value), |line| + 3)
  {
    hide PyInt, FindCrlf;
    FindCrlfAfterLine(line, rest);
    LineOf(PLUS, line, rest);
    LineOf(MINUS, line, rest);
    LineOf(COLON, line, rest);
  }

  lemma LineOf(prefix: byte, line: Bytes, rest: Bytes)
    ensures var s := [prefix] + line + CRLF + rest;
            s[0] == prefix && s[1..] == line + CRLF + rest && s[1..1 + |line|] == line
  {
  }

  /** No other byte starts a frame. */
  lemma UnknownPrefix(b: byte, rest: Bytes, depth: nat, lim: Limits)
    requires b !in {PLUS, MINUS, COLON, DOLLAR, STAR} && depth <= lim.maxDepth
    ensures Parse([b] + rest, depth, lim) == Bad
  {
    assert ([b] + rest)[0] == b;
  }

  // ---- examples ------------------------------------------------------------

  lemma SmallDecimals()
    ensures Decimal(0) == [48] && Decimal(1) == [49] && Decimal(3) == [51] && Decimal(-1) == [45, 49]
    ensures Decimal(-17) == [45, 49, 55]
  {
    assert Digits(17) == Digits(1) + [55];
  }

  /** Replies as they are sent: null, an integer, the empty array, a status, an error. */
  lemma ExampleReplies()
    ensures Encode(Null) == Understanding.Ascii("$-1\r\n")
    ensures Encode(Integer(-17)) == Understanding.Ascii(":-17\r\n")
    ensures Encode(Array([])) == Understanding.Ascii("*0\r\n")
    ensures Encode(Simple([79, 75])) == Understanding.Ascii("+OK\r\n")
    ensures EncodeError([69, 13, 10, 66]) == Understanding.Ascii("-E  B\r\n")
  {
    hide Decimal;
    SmallDecimals();
    assert EncodeItems([]) == [];
  }

  /** `SET k v` as it is sent. */
  lemma ExampleCommand()
    ensures EncodeCommand([[83, 69, 84], [107], [118]]) ==
            Understanding.Ascii("*3\r\n") + Understanding.Ascii("$3\r\nSET\r\n") +
            Understanding.Ascii("$1\r\nk\r\n") + Understanding.Ascii("$1\r\nv\r\n")
  {
    hide EncodeBulk, Header, Understanding.Ascii;
    var argv: Argv := [[83, 69, 84], [107], [118]];
    var items := BulkItems(argv);
    assert items == [Bulk(argv[0]), Bulk(argv[1]), Bulk(argv[2])];
    assert items[1..] == [Bulk(argv[1]), Bulk(argv[2])] && items[1..][1..] == [Bulk(argv[2])];
    assert items[1..][1..][1..] == [];
    assert EncodeItems([]) == [];
    assert EncodeItems([Bulk(argv[2])]) == EncodeBulk(argv[2]) + [];
    assert EncodeItems([Bulk(argv[1]), Bulk(argv[2])]) == EncodeBulk(argv[1]) + EncodeItems([Bulk(argv[2])]);
    assert EncodeItems(items) == EncodeBulk(argv[0]) + EncodeItems([Bulk(argv[1]), Bulk(argv[2])]);
    ExamplePieces();
  }

  lemma ExamplePieces()
    ensures Header(STAR, 3) == Understanding.Ascii("*3\r\n")
    ensures EncodeBulk([83, 69, 84]) == Understanding.Ascii("$3\r\nSET\r\n")
    ensures EncodeBulk([107]) == Understanding.Ascii("$1\r\nk\r\n")
    ensures EncodeBulk([118]) == Understanding.Ascii("$1\r\nv\r\n")
  {
    hide Decimal;
    SmallDecimals();
  }

  // ---- odd messages --------------------------------------------------------

  /** What the log reader makes of a message: arrays of byte strings, with nulls read as empty
      strings, or with status lines but then without nulls; anything else is skipped. */
  lemma LoggedMessage(msg: Value, recode: Bytes -> Bytes)
    ensures var a := CommandLog.ToArgv(msg, recode);
            && (a.Some? <==>
                msg.Array? && msg.items != [] &&
                ((forall i :: 0 <= i < |msg.items| ==> msg.items[i].Bulk? || msg.items[i].Null?) ||
                 (forall i :: 0 <= i < |msg.items| ==> msg.items[i].Bulk? || msg.items[i].Simple?)))
            && (a.Some? ==> |a.value| == |msg.items|)
            && (a.Some? ==> forall i :: 0 <= i < |a.value| ==>
                  && (msg.items[i].Bulk? ==> a.value[i] == msg.items[i].bytes)
                  && (msg.items[i].Null? ==> a.value[i] == [])
                  && (msg.items[i].Simple? ==> a.value[i] == recode(msg.items[i].line)))
  {
  }

  /** What a replica makes of one: it takes nulls and status lines together, and an element of
      another kind ends the connection. */
  lemma ReplicatedMessage(msg: Value, recode: Bytes -> Bytes)
    ensures var c := Replica.ToCommand(msg, recode);
            && (c.Ignored? <==> !msg.Array? || msg.items == [])
            && (c.Command? <==>
                msg.Array? && msg.items != [] &&
                forall i :: 0 <= i < |msg.items| ==>
                  msg.items[i].Bulk? || msg.items[i].Simple? || msg.items[i].Null?)
            && (c.Command? ==> |c.argv| == |msg.items|)
            && (c.Command? ==> forall i :: 0 <= i < |c.argv| ==>
                  && (msg.items[i].Bulk? ==> c.argv[i] == msg.items[i].bytes)
                  && (msg.items[i].Null? ==> c.argv[i] == [])
                  && (msg.items[i].Simple? ==> c.argv[i] == recode(msg.items[i].line)))
  {
  }

  /** How a replica frames a snapshot: the length must be a number within the limit, and the
      body is exactly that many bytes, with no line end after it. */
  lemma SnapshotFrame(n: int, rest: Bytes, maxLen: nat)
    ensures Replica.FrameOf(Header(DOLLAR, n) + rest, maxLen) ==
            if n < 0 || n > maxLen then Replica.BadFrame
            else if |rest| < n then Replica.NoBody
            else Replica.Frame(rest[..n], rest[n..])
  {
    hide PyInt, Decimal, FindCrlf;
    var s := Header(DOLLAR, n) + rest;
    var line := [DOLLAR] + Decimal(n);
    DecimalNoCr(n);
    assert NoCr(line);
    FindCrlfAfterLine(line, rest);
    assert s == line + CRLF + rest && s[0] == DOLLAR;
    assert s[1..|line|] == Decimal(n);
    PyIntOfDecimal(n);
    if 0 <= n <= |rest| {
      assert s[|line| + 2..|line| + 2 + n] == rest[..n] && s[|line| + 2 + n..] == rest[n..];
    }
  }

  /** Anything that does not start with `$`, or whose header is not a number, is refused. */
  lemma SnapshotFrameRefused(line: Bytes, rest: Bytes, maxLen: nat)
    requires line != [] && NoCr(line) && (line[0] != DOLLAR || PyInt(line[1..]).None?)
    ensures Replica.FrameOf(line + CRLF + rest, maxLen) == Replica.BadFrame
  {
    hide PyInt, FindCrlf;
    var s := line + CRLF + rest;
    FindCrlfAfterLine(line, rest);
    assert s[0] == line[0] && s[1..|line|] == line[1..];
  }

  /** A message with a bad element ends the batch: what came before it is applied, what comes
      after it is not. */
  lemma {:induction false} BadMessageStops(before: seq<Value>, bad: Value, after: seq<Value>, recode: Bytes -> Bytes)
    requires Replica.ToCommand(bad, recode).BadArgv? && Replica.ToCommands(before, recode).ok
    ensures Replica.ToCommands(before + ([bad] + after), recode) ==
            Replica.Taken(Replica.ToCommands(before, recode).applied, false)
    decreases |before|
  {
    hide Replica.ToCommand;
    var msgs := before + ([bad] + after);
    if before == [] {
      assert msgs[0] == bad;
    } else {
      assert msgs[0] == before[0] && msgs[1..] == before[1..] + ([bad] + after);
      BadMessageStops(before[1..], bad, after, recode);
    }
  }

  /** Ignored messages leave no trace, and commands are applied in their order. */
  lemma {:induction false} BatchesAppend(a: seq<Value>, b: seq<Value>, recode: Bytes -> Bytes)
    requires Replica.ToCommands(a, recode).ok
    ensures var x, y := Replica.ToCommands(a, recode), Replica.ToCommands(b, recode);
            Replica.ToCommands(a + b, recode) == Replica.Taken(x.applied + y.applied, y.ok)
    decreases |a|
  {
    hide Replica.ToCommand;
    if a == [] {
      assert a + b == b;
      assert [] + Replica.ToCommands(b, recode).applied == Replica.ToCommands(b, recode).applied;
    } else {
      assert (a + b)[0] == a[0] && (a + b)[1..] == a[1..] + b;
      BatchesAppend(a[1..], b, recode);
      var x, y := Replica.ToCommands(a[1..], recode), Replica.ToCommands(b, recode);
      if Replica.ToCommand(a[0], recode).Command? {
        var argv := Replica.ToCommand(a[0], recode).argv;
        assert [argv] + (x.applied + y.applied) == ([argv] + x.applied) + y.applied;
      }
    }
  }
}
