/** Command semantics: how an argv is understood (the `commands` package) and what it does to a
    keyspace at a given time (`storage/store.py`). */
module Commands {
  import opened ByteStrings
  import opened Keyspace
  import Resp

  type Argv = Resp.Argv

  datatype Fault = WrongType | WrongArity | Syntax | NotInteger | BadExpire | Unknown | EmptyCommand

  datatype Reply =
    | Okay
    | Nil
    | Count(n: int)
    | Data(bytes: Bytes)
    | Listing(items: seq<Bytes>)
    | Err(fault: Fault)

  datatype Command =
    | Set(key: Bytes, value: Bytes, ex: Option<int>)
    | Expire(key: Bytes, seconds: int)
    | LPush(key: Bytes, elements: seq<Bytes>)
    | RPop(key: Bytes)
    | HSet(key: Bytes, fields: seq<(Bytes, Bytes)>)
    | Del(keys: seq<Bytes>)
    | Get(key: Bytes)
    | Ttl(key: Bytes)
    | HGetAll(key: Bytes)
    | DbSize
    | Invalid(fault: Fault)

  datatype Outcome = Outcome(ks: Keyspace, reply: Reply)

  // ---- command names -------------------------------------------------------

  const SET: Bytes := [83, 69, 84]
  const EXPIRE: Bytes := [69, 88, 80, 73, 82, 69]
  const LPUSH: Bytes := [76, 80, 85, 83, 72]
  const RPOP: Bytes := [82, 80, 79, 80]
  const HSET: Bytes := [72, 83, 69, 84]
  const DEL: Bytes := [68, 69, 76]
  const GET: Bytes := [71, 69, 84]
  const TTL: Bytes := [84, 84, 76]
  const HGETALL: Bytes := [72, 71, 69, 84, 65, 76, 76]
  const DBSIZE: Bytes := [68, 66, 83, 73, 90, 69]
  const EX: Bytes := [69, 88]

  function Upper(s: Bytes): (r: Bytes)
    ensures |r| == |s|
    ensures forall i :: 0 <= i < |s| ==> r[i] == if 97 <= s[i] <= 122 then s[i] - 32 else s[i]
  {
    seq(|s|, i requires 0 <= i < |s| => if 97 <= s[i] <= 122 then s[i] - 32 else s[i])
  }

  /** WRITE_COMMANDS */
  predicate IsWrite(argv: Argv) {
    argv != [] && Upper(argv[0]) in {SET, EXPIRE, LPUSH, RPOP, HSET, DEL}
  }

  // ---- understanding an argv -----------------------------------------------

  /** The option loop of SET; the last EX wins. */
  function SetOptions(key: Bytes, value: Bytes, opts: seq<Bytes>, ex: Option<int>): Command
    decreases |opts|
  {
    if opts == [] then Set(key, value, ex)
    else if Upper(opts[0]) != EX || |opts| == 1 then Invalid(Syntax)
    else
      var n := PyInt(opts[1]);
      if n.None? then Invalid(NotInteger)
      else if n.value <= 0 then Invalid(BadExpire)
      else SetOptions(key, value, opts[2..], n)
  }

  function Pairs(flat: seq<Bytes>): (r: seq<(Bytes, Bytes)>)
    requires |flat| % 2 == 0
    ensures 2 * |r| == |flat|
    ensures forall i :: 0 <= i < |r| ==> r[i] == (flat[2 * i], flat[2 * i + 1])
  {
    seq(|flat| / 2, i requires 0 <= i < |flat| / 2 => (flat[2 * i], flat[2 * i + 1]))
  }

  function Flatten(pairs: seq<(Bytes, Bytes)>): (r: seq<Bytes>)
    ensures |r| == 2 * |pairs|
    ensures forall i :: 0 <= i < |pairs| ==> r[2 * i] == pairs[i].0 && r[2 * i + 1] == pairs[i].1
  {
    seq(2 * |pairs|, i requires 0 <= i < 2 * |pairs| => if i % 2 == 0 then pairs[i / 2].0 else pairs[i / 2].1)
  }

  lemma PairsOfFlatten(pairs: seq<(Bytes, Bytes)>)
    ensures Pairs(Flatten(pairs)) == pairs
  {
  }

  function Understand(argv: Argv): Command {
    if argv == [] then Invalid(EmptyCommand)
    else
      var name := Upper(argv[0]);
      var n := |argv|;
      if name == SET then
        if n < 3 then Invalid(WrongArity) else SetOptions(argv[1], argv[2], argv[3..], None)
      else if name == EXPIRE then
        if n != 3 then Invalid(WrongArity)
        else
          var secs := PyInt(argv[2]);
          if secs.None? then Invalid(NotInteger) else Expire(argv[1], secs.value)
      else if name == LPUSH then
        if n < 3 then Invalid(WrongArity) else LPush(argv[1], argv[2..])
      else if name == RPOP then
        if n != 2 then Invalid(WrongArity) else RPop(argv[1])
      else if name == HSET then
        if n < 4 || n % 2 != 0 then Invalid(WrongArity) else HSet(argv[1], Pairs(argv[2..]))
      else if name == DEL then
        if n < 2 then Invalid(WrongArity) else Del(argv[1..])
      else if name == GET then
        if n != 2 then Invalid(WrongArity) else Get(argv[1])
      else if name == TTL then
        if n != 2 then Invalid(WrongArity) else Ttl(argv[1])
      else if name == HGETALL then
        if n != 2 then Invalid(WrongArity) else HGetAll(argv[1])
      else if name == DBSIZE then
        if n != 1 then Invalid(WrongArity) else DbSize
      else Invalid(Unknown)
  }

  /** What Understand guarantees about the commands it produces. */
  predicate Sane(c: Command) {
    match c
    case Set(_, _, ex) => ex.Some? ==> ex.value > 0
    case LPush(_, els) => els != []
    case HSet(_, fields) => fields != []
    case _ => true
  }

  lemma {:induction false} SetOptionsSane(key: Bytes, value: Bytes, opts: seq<Bytes>, ex: Option<int>)
    requires ex.Some? ==> ex.value > 0
    ensures Sane(SetOptions(key, value, opts, ex))
    decreases |opts|
  {
    hide PyInt;
    if |opts| >= 2 {
      var n := PyInt(opts[1]);
      if n.Some? && n.value > 0 {
        SetOptionsSane(key, value, opts[2..], n);
      }
    }
  }

  lemma UnderstandSane(argv: Argv)
    ensures Sane(Understand(argv))
  {
    hide PyInt, SetOptions;
    if |argv| >= 3 {
      SetOptionsSane(argv[1], argv[2], argv[3..], None);
    }
  }

  // ---- effect on the keyspace ----------------------------------------------

  /** _touch: an expired entry met on the way is deleted. */
  function Touched(ks: Keyspace, key: Bytes, now: int): Keyspace {
    if key in ks && IsExpired(ks[key].expireAt, now) then ks - {key} else ks
  }

  /** Repeated appendleft: the last element pushed ends up first. */
  function PushLeft(items: seq<Bytes>, elements: seq<Bytes>): (r: seq<Bytes>)
    ensures |r| == |items| + |elements|
    decreases |elements|
  {
    if elements == [] then items else PushLeft([elements[0]] + items, elements[1..])
  }

  /** Number of fields HSET reports as added, counted one write at a time. */
  function AddedFields(pairs: seq<(Bytes, Bytes)>, news: seq<(Bytes, Bytes)>): nat
    decreases |news|
  {
    if news == [] then 0
    else
      (if FieldIndex(pairs, news[0].0) == |pairs| then 1 else 0) +
      AddedFields(PutField(pairs, news[0].0, news[0].1), news[1..])
  }

  /** DEL over its keys in order; only live entries count. */
  function Delete(ks: Keyspace, keys: seq<Bytes>, now: int): (Keyspace, nat)
    decreases |keys|
  {
    if keys == [] then (ks, 0)
    else
      var counted := keys[0] in ks && !IsExpired(ks[keys[0]].expireAt, now);
      var (rest, n) := Delete(ks - {keys[0]}, keys[1..], now);
      (rest, if counted then n + 1 else n)
  }

  function RunExpire(key: Bytes, seconds: int, now: int, ks: Keyspace): Outcome {
    var ks' := Touched(ks, key, now);
    if key !in ks' then Outcome(ks', Count(0))
    else if seconds <= 0 then Outcome(ks' - {key}, Count(1))
    else Outcome(ks'[key := ks'[key].(expireAt := Some(now + seconds * 1000))], Count(1))
  }

  function RunLPush(key: Bytes, elements: seq<Bytes>, now: int, ks: Keyspace): Outcome {
    var ks' := Touched(ks, key, now);
    if key !in ks' then
      var items := PushLeft([], elements);
      Outcome(ks'[key := Entry(List(items), None)], Count(|items|))
    else if !ks'[key].content.List? then Outcome(ks', Err(WrongType))
    else
      var items := PushLeft(ks'[key].content.items, elements);
      Outcome(ks'[key := ks'[key].(content := List(items))], Count(|items|))
  }

  function RunRPop(key: Bytes, now: int, ks: Keyspace): Outcome {
    var ks' := Touched(ks, key, now);
    if key !in ks' then Outcome(ks', Nil)
    else if !ks'[key].content.List? then Outcome(ks', Err(WrongType))
    else
      var items := ks'[key].content.items;
      if items == [] then Outcome(ks' - {key}, Nil)
      else if |items| == 1 then Outcome(ks' - {key}, Data(items[0]))
      else
        Outcome(ks'[key := ks'[key].(content := List(items[..|items| - 1]))], Data(items[|items| - 1]))
  }

  function RunHSet(key: Bytes, fields: seq<(Bytes, Bytes)>, now: int, ks: Keyspace): Outcome {
    var ks' := Touched(ks, key, now);
    if key !in ks' then
      Outcome(ks'[key := Entry(Hash(PutFields([], fields)), None)], Count(AddedFields([], fields)))
    else if !ks'[key].content.Hash? then Outcome(ks', Err(WrongType))
    else
      var pairs := ks'[key].content.pairs;
      Outcome(ks'[key := ks'[key].(content := Hash(PutFields(pairs, fields)))], Count(AddedFields(pairs, fields)))
  }

  function RunRead(c: Command, now: int, ks: Keyspace): Outcome
    requires c.Get? || c.Ttl? || c.HGetAll?
  {
    var ks' := Touched(ks, c.key, now);
    if c.key !in ks' then
      Outcome(ks', if c.Get? then Nil else if c.Ttl? then Count(-2) else Listing([]))
    else
      var e := ks'[c.key];
      Outcome(ks',
              if c.Ttl? then Count(TtlSeconds(e.expireAt, now))
              else if c.Get? then (if e.content.Str? then Data(e.content.bytes) else Err(WrongType))
              else if e.content.Hash? then Listing(Flatten(e.content.pairs)) else Err(WrongType))
  }

  /** One command applied to a keyspace at time `now`, without memory limit. */
  function Run(c: Command, now: int, ks: Keyspace): Outcome {
    match c
    case Set(key, value, ex) =>
      var deadline := if ex.None? then None else Some(now + ex.value * 1000);
      Outcome(ks[key := Entry(Str(value), deadline)], Okay)
    case Expire(key, seconds) => RunExpire(key, seconds, now, ks)
    case LPush(key, elements) => RunLPush(key, elements, now, ks)
    case RPop(key) => RunRPop(key, now, ks)
    case HSet(key, fields) => RunHSet(key, fields, now, ks)
    case Del(keys) => var (ks', n) := Delete(ks, keys, now); Outcome(ks', Count(n))
    case Get(_) => RunRead(c, now, ks)
    case Ttl(_) => RunRead(c, now, ks)
    case HGetAll(_) => RunRead(c, now, ks)
    case DbSize => Outcome(Live(ks, now), Count(|Live(ks, now)|))
    case Invalid(f) => Outcome(ks, Err(f))
  }

  function Apply(argv: Argv, now: int, ks: Keyspace): Outcome {
    Run(Understand(argv), now, ks)
  }

  // ---- general facts -------------------------------------------------------

  lemma {:induction false} DeleteKeys(ks: Keyspace, keys: seq<Bytes>, now: int)
    ensures Delete(ks, keys, now).0 == ks - (set k | k in keys)
    decreases |keys|
  {
    if keys == [] {
      assert ks - (set k | k in keys) == ks;
    } else {
      DeleteKeys(ks - {keys[0]}, keys[1..], now);
      assert keys == [keys[0]] + keys[1..];
      assert (set k | k in keys) == {keys[0]} + (set k | k in keys[1..]);
      assert (ks - {keys[0]}) - (set k | k in keys[1..]) == ks - (set k | k in keys);
    }
  }

  lemma {:induction false} DeleteCount(ks: Keyspace, keys: seq<Bytes>, now: int)
    ensures Delete(ks, keys, now).1 == Delete(Live(ks, now), keys, now).1
    decreases |keys|
  {
    if keys != [] {
      DeleteCount(ks - {keys[0]}, keys[1..], now);
      assert Live(ks - {keys[0]}, now) == Live(ks, now) - {keys[0]};
    }
  }

  lemma {:induction false} AddedFieldsIsGrowth(pairs: seq<(Bytes, Bytes)>, news: seq<(Bytes, Bytes)>)
    ensures AddedFields(pairs, news) == |PutFields(pairs, news)| - |pairs|
    decreases |news|
  {
    if news != [] {
      AddedFieldsIsGrowth(PutField(pairs, news[0].0, news[0].1), news[1..]);
    }
  }

  /** Every command keeps hashes duplicate-free and leaves no empty container. */
  lemma RunKeepsWf(c: Command, now: int, ks: Keyspace)
    requires Wf(ks) && Sane(c)
    ensures Wf(Run(c, now, ks).ks)
  {
    match c
    case HSet(key, fields) =>
      var ks' := Touched(ks, key, now);
      if key !in ks' {
        PutFieldsDistinct([], fields);
      } else if ks'[key].content.Hash? {
        PutFieldsDistinct(ks'[key].content.pairs, fields);
      }
    case LPush(key, els) =>
    case Del(keys) => DeleteKeys(ks, keys, now);
    case _ =>
  }

  /** A command that sets no deadline. */
  predicate SetsNoTtl(c: Command) {
    (c.Set? ==> c.ex.None?) && (c.Expire? ==> c.seconds <= 0)
  }

  /** Without deadlines, time plays no part. */
  lemma RunTtlFree(c: Command, t: int, u: int, ks: Keyspace)
    requires TtlFree(ks) && SetsNoTtl(c)
    ensures Run(c, t, ks) == Run(c, u, ks) && TtlFree(Run(c, t, ks).ks)
  {
    match c
    case Del(keys) =>
      DeleteKeys(ks, keys, t);
      DeleteTimeless(ks, keys, t, u);
    case DbSize =>
      assert Live(ks, t) == ks == Live(ks, u);
    case _ =>
  }

  lemma {:induction false} DeleteTimeless(ks: Keyspace, keys: seq<Bytes>, t: int, u: int)
    requires TtlFree(ks)
    ensures Delete(ks, keys, t) == Delete(ks, keys, u)
    decreases |keys|
  {
    if keys != [] {
      DeleteTimeless(ks - {keys[0]}, keys[1..], t, u);
    }
  }
}
