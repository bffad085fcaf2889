/** What happens when the log is appended to after a torn tail. read_commands ignores an
    incomplete tail but does not remove it from the file, so the next append lands behind
    it: unless an argument holds a star, it is readable if and only if there was no tail. */
module TornTail {
  import opened ByteStrings
  import opened Resp
  import opened RespFraming
  import opened CommandLog

  // ---- integers and the '*' byte -------------------------------------------

  lemma {:induction false} LStripKeeps(s: Bytes)
    requires STAR in s
    ensures STAR in LStrip(s)
  {
    if IsSpace(s[0]) {
      assert s == [s[0]] + s[1..];
      LStripKeeps(s[1..]);
    }
  }

  lemma {:induction false} RStripKeeps(s: Bytes)
    requires STAR in s
    ensures STAR in RStrip(s)
  {
    if IsSpace(s[|s| - 1]) {
      assert s == s[..|s| - 1] + [s[|s| - 1]];
      RStripKeeps(s[..|s| - 1]);
    }
  }

  lemma {:induction false} MagnitudeNoStar(s: Bytes)
    requires STAR in s
    ensures Magnitude(s).None?
    decreases |s|
  {
    if IsDigit(s[|s| - 1]) {
      var pre := s[..|s| - 1];
      assert s == pre + [s[|s| - 1]];
      var pre' := if pre[|pre| - 1] == 95 then pre[..|pre| - 1] else pre;
      assert pre == pre[..|pre| - 1] + [pre[|pre| - 1]];
      MagnitudeNoStar(pre');
    }
  }

  /** No text with a '*' in it is an integer. */
  lemma PyIntNoStar(s: Bytes)
    requires STAR in s
    ensures PyInt(s).None?
  {
    hide LStrip, RStrip, Magnitude;
    LStripKeeps(s);
    RStripKeeps(LStrip(s));
    var t := RStrip(LStrip(s));
    if t[0] == 45 || t[0] == 43 {
      assert t == [t[0]] + t[1..];
      MagnitudeNoStar(t[1..]);
    } else {
      MagnitudeNoStar(t);
    }
  }

  lemma {:induction false} RStripHead(s: Bytes)
    requires s != [] && !IsSpace(s[0])
    ensures RStrip(s) != [] && RStrip(s)[0] == s[0]
  {
    if IsSpace(s[|s| - 1]) {
      RStripHead(s[..|s| - 1]);
    }
  }

  lemma PyIntDigitFirst(s: Bytes)
    requires s != [] && IsDigit(s[0]) && PyInt(s).Some?
    ensures PyInt(s).value >= 0
  {
    hide RStrip, Magnitude;
    assert LStrip(s) == s;
    RStripHead(s);
  }

  // ---- a frame reads only the bytes it uses --------------------------------

  lemma ReadLinePrefix(s: Bytes, m: nat)
    requires s != [] && ReadLine(s).GotLine? && ReadLine(s).used <= m <= |s|
    ensures ReadLine(s[..m]) == ReadLine(s)
  {
    hide FindCrlf;
    var i := FindCrlf(s[1..]).value;
    var t := s[..m];
    assert t[1..] == s[1..m];
    assert forall j :: 0 <= j <= i ==> CrlfAt(t[1..], j) == CrlfAt(s[1..], j);
    FindCrlfIs(t[1..], i);
    assert t[1..1 + i] == s[1..1 + i];
  }

  lemma {:induction false} ParsePrefix(s: Bytes, m: nat, depth: nat, lim: Limits)
    requires depth <= lim.maxDepth && Parse(s, depth, lim).Done?
    requires Parse(s, depth, lim).used <= m <= |s|
    ensures Parse(s[..m], depth, lim) == Parse(s, depth, lim)
    decreases lim.maxDepth - depth, 0, 0
  {
    hide PyInt, ReadLine;
    ReadLinePrefix(s, m);
    var t, l := s[..m], ReadLine(s);
    if s[0] == DOLLAR {
      var n := PyInt(l.line).value;
      if n >= 0 {
        var e := l.used + n;
        assert t[e..e + 2] == s[e..e + 2] && t[l.used..e] == s[l.used..e];
      }
    } else if s[0] == STAR {
      var n := PyInt(l.line).value;
      if n >= 0 {
        assert t[l.used..] == s[l.used..][..m - l.used];
        ParseItemsPrefix(s[l.used..], m - l.used, n, depth + 1, lim);
      }
    }
  }

  lemma {:induction false} ParseItemsPrefix(s: Bytes, m: nat, count: nat, depth: nat, lim: Limits)
    requires depth <= lim.maxDepth && ParseItems(s, count, depth, lim).DoneItems?
    requires ParseItems(s, count, depth, lim).used <= m <= |s|
    ensures ParseItems(s[..m], count, depth, lim) == ParseItems(s, count, depth, lim)
    decreases lim.maxDepth - depth, 1, count
  {
    hide Parse;
    if count > 0 {
      var p := Parse(s, depth, lim);
      ParsePrefix(s, m, depth, lim);
      assert s[..m][p.used..] == s[p.used..][..m - p.used];
      ParseItemsPrefix(s[p.used..], m - p.used, count - 1, depth, lim);
    }
  }

  // ---- a '*' inside a frame shows in its value -----------------------------

  predicate Starred(v: Value)
    decreases v, 0
  {
    match v
    case Bulk(b) => STAR in b
    case Simple(line) => STAR in line
    case Error(line) => STAR in line
    case Array(items) => AnyStarred(items)
    case _ => false
  }

  /** Some element is itself an array, or shows a '*'. */
  predicate AnyStarred(items: seq<Value>)
    decreases items
  {
    items != [] && (items[0].Array? || Starred(items[0]) || AnyStarred(items[1..]))
  }

  /** The start of an encoded command: '*' and a digit. */
  predicate CommandAt(s: Bytes, p: nat) {
    p + 1 < |s| && s[p] == STAR && IsDigit(s[p + 1])
  }

  lemma StarInLine(s: Bytes, p: nat)
    requires s != [] && ReadLine(s).GotLine? && 0 < p < ReadLine(s).used && s[p] == STAR
    ensures STAR in ReadLine(s).line
  {
    hide FindCrlf;
    var l := ReadLine(s);
    var i := FindCrlf(s[1..]).value;
    assert s[i + 1] == s[1..][i] && s[i + 2] == s[1..][i + 1];
    assert l.line[p - 1] == s[p];
  }

  lemma StarInBulk(s: Bytes, p: nat, lim: Limits)
    requires s != [] && ParseBulk(s, lim).Done? && 0 < p < ParseBulk(s, lim).used && s[p] == STAR
    ensures Starred(ParseBulk(s, lim).value)
  {
    hide PyInt, ReadLine;
    var l := ReadLine(s);
    if p < l.used {
      StarInLine(s, p);
      PyIntNoStar(l.line);
      assert false;
    }
    var n := PyInt(l.line).value;
    var e := l.used + n;
    assert s[e..e + 2][0] == s[e] && s[e..e + 2][1] == s[e + 1];
    assert p < e;
    assert s[l.used..e][p - l.used] == STAR;
  }

  lemma {:induction false} StarInFrame(s: Bytes, p: nat, depth: nat, lim: Limits)
    requires depth <= lim.maxDepth && Parse(s, depth, lim).Done?
    requires 0 < p < Parse(s, depth, lim).used && CommandAt(s, p)
    ensures Starred(Parse(s, depth, lim).value)
    decreases lim.maxDepth - depth, 0, 0
  {
    hide PyInt, ReadLine, ParseBulk;
    if s[0] == DOLLAR {
      StarInBulk(s, p, lim);
    } else {
      var l := ReadLine(s);
      if p < l.used {
        StarInLine(s, p);
        PyIntNoStar(l.line);
      } else {
        var n := PyInt(l.line).value;
        assert CommandAt(s[l.used..], p - l.used);
        StarInItems(s[l.used..], p - l.used, n, depth + 1, lim);
      }
    }
  }

  lemma {:induction false} StarInItems(s: Bytes, p: nat, count: nat, depth: nat, lim: Limits)
    requires depth <= lim.maxDepth && ParseItems(s, count, depth, lim).DoneItems?
    requires p < ParseItems(s, count, depth, lim).used && CommandAt(s, p)
    ensures AnyStarred(ParseItems(s, count, depth, lim).items)
    decreases lim.maxDepth - depth, 1, count
  {
    hide Parse;
    var r := ParseItems(s, count, depth, lim);
    var f := Parse(s, depth, lim);
    var rest := ParseItems(s[f.used..], count - 1, depth, lim);
    assert r.items == [f.value] + rest.items;
    assert r.items[1..] == rest.items;
    if p == 0 {
      NestedIsArray(s, depth, lim);
    } else if p < f.used {
      StarInFrame(s, p, depth, lim);
    } else {
      assert CommandAt(s[f.used..], p - f.used);
      StarInItems(s[f.used..], p - f.used, count - 1, depth, lim);
    }
  }

  lemma NestedIsArray(s: Bytes, depth: nat, lim: Limits)
    requires depth <= lim.maxDepth && Parse(s, depth, lim).Done? && CommandAt(s, 0)
    ensures Parse(s, depth, lim).value.Array?
  {
    hide PyInt, FindCrlf;
    var l := ReadLine(s);
    var i := FindCrlf(s[1..]).value;
    assert s[1..][0] == s[1];
    assert l.line[0] == s[1];
    PyIntDigitFirst(l.line);
  }

  // ---- what follows the broken frame ---------------------------------------

  /** Without a '*' there is no array, hence no command. */
  lemma {:induction false} NoStarNoCommands(s: Bytes, lim: Limits, recode: Bytes -> Bytes)
    requires STAR !in s && Drain(s, lim).Drained?
    ensures ToArgvs(Drain(s, lim).messages, recode) == []
    decreases |s|
  {
    hide PyInt, ReadLine, ParseBulk;
    var p := Parse(s, 0, lim);
    if p.Done? {
      NotArray(s, lim);
      NoStarNoCommands(s[p.used..], lim, recode);
      var d := Drain(s[p.used..], lim);
      assert ([p.value] + d.messages)[1..] == d.messages;
    }
  }

  lemma NotArray(s: Bytes, lim: Limits)
    requires STAR !in s && Parse(s, 0, lim).Done?
    ensures !Parse(s, 0, lim).value.Array?
  {
    hide PyInt, ReadLine;
    assert s[0] in s;
  }

  predicate NoStars(argv: Argv) {
    forall i :: 0 <= i < |argv| ==> STAR !in argv[i]
  }

  lemma {:induction false} BulksNoStar(items: seq<Value>)
    requires forall i :: 0 <= i < |items| ==> items[i].Bulk? && STAR !in items[i].bytes
    ensures STAR !in EncodeItems(items)
    decreases |items|
  {
    hide Decimal;
    if items != [] {
      assert STAR !in Header(DOLLAR, |items[0].bytes|) by { HeaderNoStar(|items[0].bytes|); }
      BulksNoStar(items[1..]);
    }
  }

  lemma HeaderNoStar(n: int)
    ensures STAR !in Header(DOLLAR, n) && STAR !in Decimal(n)
  {
  }

  lemma CommandNoStar(argv: Argv)
    requires NoStars(argv)
    ensures CommandAt(EncodeCommand(argv), 0) && STAR !in EncodeCommand(argv)[1..]
  {
    hide Digits;
    var items := BulkItems(argv);
    var e := EncodeCommand(argv);
    HeaderNoStar(|argv|);
    BulksNoStar(items);
    assert e == [STAR] + Decimal(|argv|) + CRLF + EncodeItems(items);
    assert e[1..] == Decimal(|argv|) + CRLF + EncodeItems(items);
    assert e[1] == Decimal(|argv|)[0];
  }

  lemma {:induction false} StarredItem(items: seq<Value>) returns (i: nat)
    requires AnyStarred(items)
    ensures i < |items| && (items[i].Array? || Starred(items[i]))
    decreases |items|
  {
    if items[0].Array? || Starred(items[0]) {
      i := 0;
    } else {
      var j := StarredItem(items[1..]);
      i := j + 1;
    }
  }

  /** A starred message is not the command `argv` when that has no '*' in it. */
  lemma StarredIsNot(v: Value, argv: Argv, recode: Bytes -> Bytes)
    requires Starred(v) && NoStars(argv)
    requires forall b :: STAR in b ==> STAR in recode(b)
    ensures ToArgv(v, recode) != Some(argv)
  {
    if v.Array? {
      var i := StarredItem(v.items);
      var a := ToArgv(v, recode);
      assert a.Some? ==> STAR in a.value[i];
    }
  }

  lemma AfterTail(tail: Bytes, c: Argv, lim: Limits, recode: Bytes -> Bytes)
    requires tail != [] && Parse(tail, 0, lim).More? && NoStars(c)
    requires forall b :: STAR in b ==> STAR in recode(b)
    requires Drain(tail + EncodeCommand(c), lim).Drained?
    ensures ToArgvs(Drain(tail + EncodeCommand(c), lim).messages, recode) != [c]
  {
    hide Parse, EncodeCommand, ToArgv, Starred, NoStars, CommandAt;
    var e := EncodeCommand(c);
    var s := tail + e;
    var p := Parse(s, 0, lim);
    CommandNoStar(c);
    if p.Done? {
      assert s[..|tail|] == tail;
      if p.used <= |tail| {
        ParsePrefix(s, |tail|, 0, lim);
        assert false;
      }
      CommandMoves(tail, e);
      StarInFrame(s, |tail|, 0, lim);
      var rest := s[p.used..];
      assert rest == e[1..][p.used - |tail| - 1..];
      NoStarNoCommands(rest, lim, recode);
      StarredIsNot(p.value, c, recode);
      var ms := Drain(s, lim).messages;
      assert ms == [p.value] + Drain(rest, lim).messages;
      assert ms[0] == p.value && ms[1..] == Drain(rest, lim).messages;
      var a := ToArgv(p.value, recode);
      assert ToArgvs(ms, recode) == (if a.Some? then [a.value] else []) + [];
      if a.Some? {
        assert ToArgvs(ms, recode)[0] == a.value;
      }
    }
  }

  lemma CommandMoves(tail: Bytes, e: Bytes)
    requires CommandAt(e, 0)
    ensures CommandAt(tail + e, |tail|)
  {
    var s := tail + e;
    assert s[|tail|] == e[0] && s[|tail| + 1] == e[1];
  }

  /** Appending a command to a log that ends in the incomplete bytes `tail`: the log reads
      back with the new command at its end if `tail` is empty, and unless an argument of the
      command holds a star, only then. */
  lemma AppendReadableIffNoTail(cmds: seq<Argv>, tail: Bytes, c: Argv, lim: Limits, maxBuffer: nat, maxFile: nat,
                                recode: Bytes -> Bytes)
    requires AllFitLog(cmds, lim) && Parse(tail, 0, lim).More?
    requires c != [] && CommandFits(c, lim)
    requires forall b :: STAR in b ==> STAR in recode(b)
    requires |EncodeLog(cmds) + tail + EncodeCommand(c)| <= maxBuffer
    requires |EncodeLog(cmds) + tail + EncodeCommand(c)| <= maxFile
    ensures var read := ReadLog(EncodeLog(cmds) + tail + EncodeCommand(c), lim, maxBuffer, maxFile, recode);
            && (tail == [] ==> read == Commands(cmds + [c]))
            && (NoStars(c) ==> (read == Commands(cmds + [c]) <==> tail == []))
  {
    hide Parse, EncodeCommand, ToArgv, NoStars, CommandFits, Drain, EncodeLog;
    var e := EncodeCommand(c);
    var data := EncodeLog(cmds) + tail + e;
    if tail == [] {
      assert data == EncodeLog(cmds) + e;
      EncodeLogAppend(cmds, [c]);
      EncodeLogOne(c);
      assert data == EncodeLog(cmds + [c]) + [];
      ReadOfLogAndTail(cmds + [c], [], lim, maxBuffer, maxFile, recode);
    } else if NoStars(c) {
      DrainOfLog(cmds, tail, lim);
      DrainSplit(EncodeLog(cmds) + tail, e, lim);
      assert [] + data == data;
      var d := Drain(tail + e, lim);
      if d.Drained? {
        ToArgvsAppend(Messages(cmds), d.messages, recode);
        ToArgvsOfLog(cmds, recode);
        AfterTail(tail, c, lim, recode);
        var more := ToArgvs(d.messages, recode);
        assert (cmds + more)[|cmds|..] == more && (cmds + [c])[|cmds|..] == [c];
      }
    }
  }

  /** The header of a command with one argument of six bytes. */
  const HEADER: Bytes := [STAR, 49] + CRLF + [DOLLAR, 54] + CRLF

  /** The command whose one argument spells that header without its last line end. */
  const SELF: Argv := [HEADER[..6]]

  lemma SelfIsTwice()
    ensures EncodeCommand(SELF) == HEADER + HEADER
  {
    var b := HEADER[..6];
    assert Decimal(1) == [49] && Decimal(6) == [54];
    assert b + CRLF == HEADER;
    assert BulkItems(SELF) == [Bulk(b)];
    assert Encode(Bulk(b)) == Header(DOLLAR, 6) + b + CRLF;
    assert [Bulk(b)][1..] == [];
    assert EncodeItems([]) == [];
    assert EncodeItems([Bulk(b)]) == Encode(Bulk(b)) + [] == Encode(Bulk(b));
    assert EncodeCommand(SELF) == Header(STAR, 1) + (Header(DOLLAR, 6) + b + CRLF);
    assert HEADER == Header(STAR, 1) + Header(DOLLAR, 6);
  }

  /** With a star in an argument a tail can be invisible: this command appended to a log
      that ends in its own header reads back intact. */
  lemma TailOfStarsReadsBack(cmds: seq<Argv>, lim: Limits, maxBuffer: nat, maxFile: nat, recode: Bytes -> Bytes)
    requires AllFitLog(cmds, lim) && CommandFits(SELF, lim)
    requires |EncodeLog(cmds) + HEADER + EncodeCommand(SELF)| <= maxBuffer
    requires |EncodeLog(cmds) + HEADER + EncodeCommand(SELF)| <= maxFile
    ensures HEADER != [] && Parse(HEADER, 0, lim).More?
    ensures ReadLog(EncodeLog(cmds) + HEADER + EncodeCommand(SELF), lim, maxBuffer, maxFile, recode) ==
            Commands(cmds + [SELF])
  {
    hide Parse, EncodeCommand, CommandFits, EncodeLog, ReadLog;
    SelfIsTwice();
    assert EncodeCommand(SELF)[..|HEADER|] == HEADER;
    CommandPrefixIncomplete(SELF, |HEADER|, lim);
    EncodeLogAppend(cmds, [SELF]);
    EncodeLogOne(SELF);
    assert EncodeLog(cmds) + HEADER + EncodeCommand(SELF) == EncodeLog(cmds + [SELF]) + HEADER;
    ReadOfLogAndTail(cmds + [SELF], HEADER, lim, maxBuffer, maxFile, recode);
  }
}
