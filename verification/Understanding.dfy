/** How an argv becomes a command (the `commands` package): which argvs are accepted, what
    each argument means, and which names are writes. */
module Understanding {
  import opened ByteStrings
  import opened Keyspace
  import opened Commands
  import LazyExpiry
  import AofRewrite

  // ---- names ---------------------------------------------------------------

  function Ascii(s: string): (r: Bytes)
    requires forall i :: 0 <= i < |s| ==> s[i] as int < 128
    ensures |r| == |s| && forall i :: 0 <= i < |s| ==> r[i] as int == s[i] as int
  {
    seq(|s|, i requires 0 <= i < |s| => (s[i] as int) as byte)
  }

  lemma NamesAreAscii()
    ensures SET == Ascii("SET") && EXPIRE == Ascii("EXPIRE") && LPUSH == Ascii("LPUSH") && RPOP == Ascii("RPOP")
    ensures HSET == Ascii("HSET") && DEL == Ascii("DEL") && GET == Ascii("GET") && TTL == Ascii("TTL")
    ensures HGETALL == Ascii("HGETALL") && DBSIZE == Ascii("DBSIZE") && EX == Ascii("EX")
  {
  }

  /** Letter case does not matter in command names. */
  lemma UpperIsIdempotent(name: Bytes)
    ensures Upper(Upper(name)) == Upper(name)
  {
  }

  function Names(): set<Bytes> { {SET, EXPIRE, LPUSH, RPOP, HSET, DEL, GET, TTL, HGETALL, DBSIZE} }

  predicate Named(argv: Argv, name: Bytes) { argv != [] && Upper(argv[0]) == name }

  // ---- SET -----------------------------------------------------------------

  predicate PositiveInt(b: Bytes) { PyInt(b).Some? && PyInt(b).value > 0 }

  /** Options of SET: pairs of EX, in any letter case, and a positive integer. */
  predicate ExPairs(opts: seq<Bytes>) {
    |opts| % 2 == 0 && forall i :: 0 <= i < |opts| && i % 2 == 0 ==> ExPair(opts, i)
  }

  predicate ExPair(opts: seq<Bytes>, i: nat) {
    i + 1 < |opts| && Upper(opts[i]) == EX && PositiveInt(opts[i + 1])
  }

  lemma {:induction false} SetOptionsIff(key: Bytes, value: Bytes, opts: seq<Bytes>, ex: Option<int>)
    ensures ExPairs(opts) ==>
              SetOptions(key, value, opts, ex) == Set(key, value, if opts == [] then ex else PyInt(opts[|opts| - 1]))
    ensures !ExPairs(opts) ==> SetOptions(key, value, opts, ex).Invalid?
    decreases |opts|
  {
    hide PyInt, Upper;
    if |opts| >= 2 {
      var rest := opts[2..];
      SetOptionsIff(key, value, rest, PyInt(opts[1]));
      assert forall i :: 0 <= i < |rest| ==> rest[i] == opts[i + 2];
      if Upper(opts[0]) == EX && PositiveInt(opts[1]) {
        assert ExPairs(opts) <==> ExPairs(rest) by { PairsCons(opts); }
      } else if ExPairs(opts) {
        FirstPair(opts);
      }
    }
  }

  lemma FirstPair(opts: seq<Bytes>)
    requires ExPairs(opts) && opts != []
    ensures |opts| >= 2 && Upper(opts[0]) == EX && PositiveInt(opts[1])
  {
    hide PyInt, Upper;
    assert ExPair(opts, 0);
  }

  lemma PairsCons(opts: seq<Bytes>)
    requires |opts| >= 2 && Upper(opts[0]) == EX && PositiveInt(opts[1])
    ensures ExPairs(opts) <==> ExPairs(opts[2..])
  {
    hide PyInt, Upper;
    var rest := opts[2..];
    assert ExPair(opts, 0);
    forall i | 2 <= i < |opts| && i % 2 == 0 ensures ExPair(opts, i) <==> ExPair(rest, i - 2) {
      assert rest[i - 2] == opts[i];
      assert i + 1 < |opts| ==> rest[i - 1] == opts[i + 1];
    }
    if ExPairs(opts) {
      forall i | 0 <= i < |rest| && i % 2 == 0 ensures ExPair(rest, i) {
        assert ExPair(opts, i + 2);
      }
    }
    if ExPairs(rest) {
      forall i | 0 <= i < |opts| && i % 2 == 0 ensures ExPair(opts, i) {
        assert i >= 2 ==> ExPair(rest, i - 2);
      }
    }
  }

  /** SET is accepted exactly with a key, a value and EX pairs, and the last pair wins. */
  lemma SetIff(argv: Argv)
    requires Named(argv, SET)
    ensures Understand(argv).Set? <==> |argv| >= 3 && ExPairs(argv[3..])
    ensures Understand(argv).Set? ==>
              Understand(argv) == Set(argv[1], argv[2], if |argv| == 3 then None else PyInt(argv[|argv| - 1]))
  {
    hide PyInt, Upper, SetOptions;
    AofRewrite.UpperNames();
    if |argv| >= 3 {
      SetOptionsIff(argv[1], argv[2], argv[3..], None);
    }
  }

  /** The first pair that is not EX and a positive integer decides the error. */
  lemma {:induction false} FirstBadOption(key: Bytes, value: Bytes, opts: seq<Bytes>, ex: Option<int>, i: nat)
    requires i < |opts| && i % 2 == 0 && ExPairs(opts[..i])
    ensures Upper(opts[i]) != EX || i + 1 == |opts| ==> SetOptions(key, value, opts, ex) == Invalid(Syntax)
    ensures Upper(opts[i]) == EX && i + 1 < |opts| && PyInt(opts[i + 1]).None? ==>
              SetOptions(key, value, opts, ex) == Invalid(NotInteger)
    ensures Upper(opts[i]) == EX && i + 1 < |opts| && PyInt(opts[i + 1]).Some? && PyInt(opts[i + 1]).value <= 0 ==>
              SetOptions(key, value, opts, ex) == Invalid(BadExpire)
    decreases |opts|
  {
    hide PyInt, Upper;
    if i > 0 {
      FirstPair(opts[..i]);
      assert opts[..i][0] == opts[0] && opts[..i][1] == opts[1];
      assert opts[..i][2..] == opts[2..][..i - 2];
      PairsCons(opts[..i]);
      FirstBadOption(key, value, opts[2..], PyInt(opts[1]), i - 2);
    }
  }

  lemma SetWithTtl(key: Bytes, value: Bytes, n: int)
    requires n > 0
    ensures Understand([SET, key, value, EX, Decimal(n)]) == Set(key, value, Some(n))
  {
    hide PyInt, Upper, Decimal;
    var argv := [SET, key, value, EX, Decimal(n)];
    AofRewrite.UpperNames();
    assert Upper(EX) == EX by { UpperEx(); }
    PyIntOfDecimal(n);
    assert argv[3..] == [EX, Decimal(n)];
    SetIff(argv);
  }

  lemma UpperEx()
    ensures Upper(EX) == EX && Upper(GET) == GET && Upper(TTL) == TTL && Upper(RPOP) == RPOP
    ensures Upper(HGETALL) == HGETALL && Upper(DBSIZE) == DBSIZE
  {
  }

  /** GET after SET with EX, both as argvs: the value until the deadline and not beyond. */
  lemma SetWithTtlThenGet(ks: Keyspace, key: Bytes, value: Bytes, n: int, t: int, u: int)
    requires n > 0 && t <= u
    ensures var ks' := Apply([SET, key, value, EX, Decimal(n)], t, ks).ks;
            Apply([GET, key], u, ks').reply == if u < t + n * 1000 then Data(value) else Nil
  {
    hide Decimal, Understand, Flatten;
    SetWithTtl(key, value, n);
    KeyOf([GET, key]);
    UpperEx();
  }

  // ---- the other commands --------------------------------------------------

  /** One key and nothing else: RPOP, GET, TTL, HGETALL. */
  lemma KeyOf(argv: Argv)
    ensures forall k :: Understand(argv) == RPop(k) <==> Named(argv, RPOP) && argv[1..] == [k]
    ensures forall k :: Understand(argv) == Get(k) <==> Named(argv, GET) && argv[1..] == [k]
    ensures forall k :: Understand(argv) == Ttl(k) <==> Named(argv, TTL) && argv[1..] == [k]
    ensures forall k :: Understand(argv) == HGetAll(k) <==> Named(argv, HGETALL) && argv[1..] == [k]
    ensures Understand(argv) == DbSize <==> Named(argv, DBSIZE) && |argv| == 1
  {
    hide PyInt, Upper, SetOptions, Pairs;
    if |argv| >= 3 {
      SetOptionsIff(argv[1], argv[2], argv[3..], None);
    }
    if |argv| == 2 {
      assert argv[1..] == [argv[1]];
    }
    DistinctNames();
  }

  lemma DistinctNames()
    ensures SET != EXPIRE && SET != LPUSH && SET != RPOP && SET != HSET && SET != DEL && SET != GET && SET != TTL
    ensures SET != HGETALL && SET != DBSIZE && EXPIRE != LPUSH && EXPIRE != RPOP && EXPIRE != HSET && EXPIRE != DEL
    ensures EXPIRE != GET && EXPIRE != TTL && EXPIRE != HGETALL && EXPIRE != DBSIZE && LPUSH != RPOP && LPUSH != HSET
    ensures LPUSH != DEL && LPUSH != GET && LPUSH != TTL && LPUSH != HGETALL && LPUSH != DBSIZE && RPOP != HSET
    ensures RPOP != DEL && RPOP != GET && RPOP != TTL && RPOP != HGETALL && RPOP != DBSIZE && HSET != DEL
    ensures HSET != GET && HSET != TTL && HSET != HGETALL && HSET != DBSIZE && DEL != GET && DEL != TTL
    ensures DEL != HGETALL && DEL != DBSIZE && GET != TTL && GET != HGETALL && GET != DBSIZE && TTL != HGETALL
    ensures TTL != DBSIZE && HGETALL != DBSIZE
  {
    assert EXPIRE[0] == 69 && DBSIZE[0] == 68;
    assert SET[0] == 83 && DEL[0] == 68 && GET[0] == 71 && TTL[0] == 84;
    assert RPOP[0] == 82 && HSET[0] == 72;
  }

  /** A key and what follows it: EXPIRE, LPUSH, HSET, DEL. */
  lemma ArgumentsOf(argv: Argv)
    ensures forall k, n :: Understand(argv) == Expire(k, n) <==>
              Named(argv, EXPIRE) && |argv| == 3 && argv[1] == k && PyInt(argv[2]) == Some(n)
    ensures forall k, els :: Understand(argv) == LPush(k, els) <==>
              Named(argv, LPUSH) && |argv| >= 3 && argv[1] == k && argv[2..] == els
    ensures forall k, fields :: Understand(argv) == HSet(k, fields) <==>
              Named(argv, HSET) && |argv| >= 4 && argv[1] == k && argv[2..] == Flatten(fields)
    ensures forall keys :: Understand(argv) == Del(keys) <==> Named(argv, DEL) && |argv| >= 2 && argv[1..] == keys
  {
    hide PyInt, Upper, SetOptions, Pairs, Flatten;
    if |argv| >= 3 {
      SetOptionsIff(argv[1], argv[2], argv[3..], None);
    }
    DistinctNames();
    if |argv| >= 4 && |argv| % 2 == 0 {
      FlattenOfPairs(argv[2..]);
    }
    forall fields ensures Pairs(Flatten(fields)) == fields && |Flatten(fields)| == 2 * |fields| {
      PairsOfFlatten(fields);
    }
  }

  lemma FlattenOfPairs(flat: seq<Bytes>)
    requires |flat| % 2 == 0
    ensures Flatten(Pairs(flat)) == flat
  {
    hide Pairs, Flatten;
    forall i | 0 <= i < |flat| ensures Flatten(Pairs(flat))[i] == flat[i] {
      FlattenedAt(flat, Pairs(flat), i / 2);
      assert i == 2 * (i / 2) || i == 2 * (i / 2) + 1;
    }
  }

  lemma FlattenedAt(flat: seq<Bytes>, pairs: seq<(Bytes, Bytes)>, j: nat)
    requires |flat| == 2 * |pairs| && j < |pairs| && pairs[j] == (flat[2 * j], flat[2 * j + 1])
    ensures Flatten(pairs)[2 * j] == flat[2 * j] && Flatten(pairs)[2 * j + 1] == flat[2 * j + 1]
  {
    hide Flatten;
  }

  /** Everything else is an error; which one does not depend on the keyspace. */
  lemma OtherwiseInvalid(argv: Argv)
    ensures argv == [] ==> Understand(argv) == Invalid(EmptyCommand)
    ensures argv != [] && Upper(argv[0]) !in Names() ==> Understand(argv) == Invalid(Unknown)
    ensures Named(argv, EXPIRE) && |argv| == 3 && PyInt(argv[2]).None? ==> Understand(argv) == Invalid(NotInteger)
    ensures Named(argv, SET) && |argv| < 3 ==> Understand(argv) == Invalid(WrongArity)
    ensures Named(argv, HSET) && (|argv| < 4 || |argv| % 2 == 1) ==> Understand(argv) == Invalid(WrongArity)
    ensures (Named(argv, EXPIRE) && |argv| != 3) || (Named(argv, LPUSH) && |argv| < 3) ||
            (Named(argv, RPOP) && |argv| != 2) || (Named(argv, DEL) && |argv| < 2) ||
            (Named(argv, GET) && |argv| != 2) || (Named(argv, TTL) && |argv| != 2) ||
            (Named(argv, HGETALL) && |argv| != 2) || (Named(argv, DBSIZE) && |argv| != 1) ==>
              Understand(argv) == Invalid(WrongArity)
  {
    hide PyInt, Upper, SetOptions, Pairs, Flatten;
    DistinctNames();
  }

  // ---- writes --------------------------------------------------------------

  ghost predicate CanChange(name: Bytes) {
    exists args, t, ks :: Changes(name, args, t, ks)
  }

  predicate Changes(name: Bytes, args: seq<Bytes>, t: int, ks: Keyspace) {
    Live(Apply([name] + args, t, ks).ks, t) != Live(ks, t)
  }

  /** The names logged and propagated are exactly those of commands that can change what a
      client sees. */
  lemma WritesAreTheChangingCommands(name: Bytes)
    ensures IsWrite([name]) <==> CanChange(name)
  {
    hide Apply, Live, Upper;
    if IsWrite([name]) {
      WriteCanChange(name);
    } else {
      forall args, t, ks ensures !Changes(name, args, t, ks) {
        assert ([name] + args)[0] == name;
        LazyExpiry.NonWriteChangesNothing([name] + args, t, ks);
      }
    }
  }

  lemma WriteCanChange(name: Bytes)
    requires IsWrite([name])
    ensures CanChange(name)
  {
    hide PyInt, Upper, Understand, Apply, Live;
    var k: Bytes := [107];
    if Upper(name) in {SET, LPUSH, HSET} {
      AddingChanges(name, k);
    } else {
      RemovingChanges(name, k);
    }
  }

  lemma AddingChanges(name: Bytes, k: Bytes)
    requires Upper(name) in {SET, LPUSH, HSET}
    ensures CanChange(name)
  {
    hide PyInt, Upper, PushLeft, PutFields, AddedFields;
    var args := if Upper(name) == SET || Upper(name) == LPUSH then [k, k] else [k, k, k];
    var argv := [name] + args;
    assert argv[0] == name && argv[1] == k;
    assert Upper(name) == SET ==> argv[3..] == [];
    DistinctNames();
    assert k in Apply(argv, 0, map[]).ks;
    assert k in Live(Apply(argv, 0, map[]).ks, 0);
    assert Changes(name, args, 0, map[]);
  }

  lemma RemovingChanges(name: Bytes, k: Bytes)
    requires Upper(name) in {EXPIRE, RPOP, DEL}
    ensures CanChange(name)
  {
    hide PyInt, Upper, Decimal;
    var ks: Keyspace := map[k := Entry(List([k]), None)];
    var args := if Upper(name) == EXPIRE then [k, Decimal(0)] else [k];
    var argv := [name] + args;
    assert argv[0] == name && argv[1] == k && argv[1..] == args;
    PyIntOfDecimal(0);
    DistinctNames();
    DeleteKeys(ks, [k], 0);
    assert k in Live(ks, 0) && k !in Apply(argv, 0, ks).ks;
    assert Changes(name, args, 0, ks);
  }
}
