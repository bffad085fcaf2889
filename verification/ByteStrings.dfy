/** Bytes, decimal text and CRLF search: the vocabulary shared by the wire
    protocol, the append-only log and the snapshot format. */
module ByteStrings {

  newtype byte = b: int | 0 <= b < 256
  type Bytes = seq<byte>

  datatype Option<+T> = None | Some(value: T)

  const CR: byte := 13
  const LF: byte := 10
  const SPACE: byte := 32
  const CRLF: Bytes := [CR, LF]

  /** `b"".join(parts)` */
  function Flat(parts: seq<Bytes>): (r: Bytes)
  {
    if parts == [] then [] else parts[0] + Flat(parts[1..])
  }

  lemma {:induction false} FlatAppend(a: seq<Bytes>, b: seq<Bytes>)
    ensures Flat(a + b) == Flat(a) + Flat(b)
  {
    if a == [] {
      assert a + b == b;
    } else {
      assert (a + b)[1..] == a[1..] + b;
      FlatAppend(a[1..], b);
    }
  }

  lemma FlatSnoc(a: seq<Bytes>, x: Bytes)
    ensures Flat(a + [x]) == Flat(a) + x
  {
    FlatAppend(a, [x]);
    assert Flat([x]) == x + Flat([]);
  }

  /** Sum of the lengths of the parts. */
  function TotalLength(parts: seq<Bytes>): nat {
    if parts == [] then 0 else |parts[0]| + TotalLength(parts[1..])
  }

  lemma {:induction false} FlatLength(parts: seq<Bytes>)
    ensures |Flat(parts)| == TotalLength(parts)
  {
    if parts != [] {
      FlatLength(parts[1..]);
    }
  }

  lemma TotalLengthSnoc(a: seq<Bytes>, x: Bytes)
    ensures TotalLength(a + [x]) == TotalLength(a) + |x|
  {
    FlatSnoc(a, x);
    FlatLength(a);
    FlatLength(a + [x]);
  }

  // ---- decimal text --------------------------------------------------------

  function Digit(d: nat): byte
    requires d < 10
  {
    (48 + d) as byte
  }

  predicate IsDigit(b: byte) { 48 <= b <= 57 }

  /** Decimal digits of a natural number, most significant first. */
  function Digits(n: nat): (r: Bytes)
    ensures r != [] && forall i :: 0 <= i < |r| ==> IsDigit(r[i])
  {
    if n < 10 then [Digit(n)] else Digits(n / 10) + [Digit(n % 10)]
  }

  lemma {:induction false} DigitsLength(n: nat)
    requires n > 0
    ensures |Digits(n)| <= n
  {
    if n >= 10 {
      DigitsLength(n / 10);
    }
  }

  /** Python's `str(i)` / `f"{i:d}"`, as ASCII bytes. */
  function Decimal(i: int): (r: Bytes)
    ensures r != [] && forall k :: 0 <= k < |r| ==> IsDigit(r[k]) || r[k] == 45
  {
    if i < 0 then [45] + Digits(-i) else Digits(i)
  }

  predicate IsSpace(b: byte) { b == 32 || 9 <= b <= 13 }

  function LStrip(s: Bytes): Bytes {
    if s != [] && IsSpace(s[0]) then LStrip(s[1..]) else s
  }

  function RStrip(s: Bytes): Bytes {
    if s != [] && IsSpace(s[|s| - 1]) then RStrip(s[..|s| - 1]) else s
  }

  /** Digits with optional single underscores between them. */
  function Magnitude(s: Bytes): Option<nat>
    decreases |s|
  {
    if s == [] || !IsDigit(s[|s| - 1]) then None
    else
      var d := s[|s| - 1] as int - 48;
      var pre := s[..|s| - 1];
      if pre == [] then Some(d)
      else
        var pre' := if pre[|pre| - 1] == 95 then pre[..|pre| - 1] else pre;
        match Magnitude(pre')
        case None => None
        case Some(v) => Some(10 * v + d)
  }

  /** Python's `int(bytes)` in base ten: surrounding white space, one sign, digits
      grouped by single underscores; None stands for ValueError. */
  function PyInt(s: Bytes): Option<int>
  {
    var t := RStrip(LStrip(s));
    var signed := t != [] && (t[0] == 45 || t[0] == 43);
    var m := Magnitude(if signed then t[1..] else t);
    if m.None? then None
    else if signed && t[0] == 45 then Some(-(m.value as int))
    else Some(m.value)
  }

  lemma {:induction false} MagnitudeOfDigits(n: nat)
    ensures Magnitude(Digits(n)) == Some(n)
  {
    var s := Digits(n);
    if n < 10 {
      assert s[..0] == [];
    } else {
      MagnitudeOfDigits(n / 10);
      var pre := s[..|s| - 1];
      assert pre == Digits(n / 10);
      assert IsDigit(pre[|pre| - 1]);
    }
  }

  /** Reading back a printed integer gives the integer. */
  lemma PyIntOfDecimal(i: int)
    ensures PyInt(Decimal(i)) == Some(i)
  {
    var s := Decimal(i);
    assert !IsSpace(s[0]) && !IsSpace(s[|s| - 1]);
    if i < 0 {
      MagnitudeOfDigits(-i);
      assert s[1..] == Digits(-i);
    } else {
      MagnitudeOfDigits(i);
    }
  }

  // ---- CRLF search ---------------------------------------------------------

  predicate CrlfAt(s: Bytes, i: int) {
    0 <= i && i + 1 < |s| && s[i] == CR && s[i + 1] == LF
  }

  /** `buf.find(b"\r\n")`: the first CRLF, or None when find answers -1. */
  function FindCrlf(s: Bytes): (r: Option<nat>)
    ensures r.Some? ==> CrlfAt(s, r.value) && forall j :: 0 <= j < r.value ==> !CrlfAt(s, j)
    ensures r.None? ==> forall j :: !CrlfAt(s, j)
  {
    if |s| < 2 then None
    else if s[0] == CR && s[1] == LF then Some(0)
    else
      var r := FindCrlf(s[1..]);
      assert forall j :: 1 <= j ==> CrlfAt(s, j) == CrlfAt(s[1..], j - 1);
      if r.Some? then Some(r.value + 1) else None
  }

  lemma FindCrlfIs(s: Bytes, i: nat)
    requires CrlfAt(s, i) && forall j :: 0 <= j < i ==> !CrlfAt(s, j)
    ensures FindCrlf(s) == Some(i)
  {
  }

  /** Once found, the first CRLF stays where it is when more bytes arrive. */
  lemma FindCrlfStable(s: Bytes, t: Bytes)
    requires FindCrlf(s).Some?
    ensures FindCrlf(s + t) == FindCrlf(s)
  {
    var i := FindCrlf(s).value;
    assert forall j :: 0 <= j <= i ==> CrlfAt(s + t, j) == CrlfAt(s, j);
    FindCrlfIs(s + t, i);
  }

  predicate NoCr(s: Bytes) { forall i :: 0 <= i < |s| ==> s[i] != CR }

  /** A line without CR ends exactly at the CRLF written after it. */
  lemma FindCrlfAfterLine(line: Bytes, rest: Bytes)
    requires NoCr(line)
    ensures FindCrlf(line + CRLF + rest) == Some(|line|)
  {
    var s := line + CRLF + rest;
    assert s[|line|] == CR && s[|line| + 1] == LF;
    assert forall j :: 0 <= j < |line| ==> s[j] == line[j];
    FindCrlfIs(s, |line|);
  }

  lemma DecimalNoCr(i: int)
    ensures NoCr(Decimal(i))
  {
  }
}
