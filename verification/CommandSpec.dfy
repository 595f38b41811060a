/** What each command means: a function of the table, the arguments and whether memory lasts. */
module CommandSpec {
  import opened Bytes
  import opened Decimal
  import opened Reply
  import Glob
  import T = Table

  const SIZE_MAX: int := 0xffff_ffff_ffff_ffff

  /** The commands of the dispatch table. */
  datatype Command =
    | PING | GET | SET | DEL | EXISTS | COMMAND
    | INCR | DECR | INCRBY | DECRBY
    | STRLEN | APPEND
    | KEYS | DBSIZE | FLUSHDB
    | SETNX | GETSET

  /** A row: name, arity bounds counting the name itself (-1 is unbounded), handler. */
  datatype Row = Row(name: bytes, minArgc: int, maxArgc: int, command: Command)

  const ROWS: seq<Row> := [
    Row(Ascii("PING"), 1, 2, PING),
    Row(Ascii("GET"), 2, 2, GET),
    Row(Ascii("SET"), 3, 3, SET),
    Row(Ascii("DEL"), 2, -1, DEL),
    Row(Ascii("EXISTS"), 2, -1, EXISTS),
    Row(Ascii("COMMAND"), 1, -1, COMMAND),
    Row(Ascii("INCR"), 2, 2, INCR),
    Row(Ascii("DECR"), 2, 2, DECR),
    Row(Ascii("INCRBY"), 3, 3, INCRBY),
    Row(Ascii("DECRBY"), 3, 3, DECRBY),
    Row(Ascii("STRLEN"), 2, 2, STRLEN),
    Row(Ascii("APPEND"), 3, 3, APPEND),
    Row(Ascii("KEYS"), 2, 2, KEYS),
    Row(Ascii("DBSIZE"), 1, 1, DBSIZE),
    Row(Ascii("FLUSHDB"), 1, 1, FLUSHDB),
    Row(Ascii("SETNX"), 3, 3, SETNX),
    Row(Ascii("GETSET"), 3, 3, GETSET)
  ]

  function Upper(b: byte): byte {
    if 97 <= b <= 122 then b - 32 else b
  }

  /** Equal up to ASCII case, `upper` being upper case already. */
  predicate NameMatches(s: bytes, upper: bytes) {
    |s| == |upper| && forall i :: 0 <= i < |s| ==> Upper(s[i]) == upper[i]
  }

  /** The first row from `i` on whose name matches, or the end of the table. */
  function FindRow(name: bytes, i: nat): (j: nat)
    requires i <= |ROWS|
    ensures i <= j <= |ROWS|
    decreases |ROWS| - i
  {
    if i == |ROWS| || NameMatches(name, ROWS[i].name) then i else FindRow(name, i + 1)
  }

  predicate ArityOk(row: Row, argc: int) {
    row.minArgc <= argc && (row.maxArgc == -1 || argc <= row.maxArgc)
  }

  // ---- Replies ------------------------------------------------------------

  function Ok(): (r: Reply)
    ensures r.Simple?
  {
    Simple(Ascii("OK"))
  }

  function Oom(): (r: Reply)
    ensures r.Error?
  {
    Error(Ascii("ERR out of memory"))
  }

  function NotInteger(): (r: Reply)
    ensures r.Error?
  {
    Error(Ascii("ERR value is not an integer or out of range"))
  }

  function WouldOverflow(): (r: Reply)
    ensures r.Error?
  {
    Error(Ascii("ERR increment or decrement would overflow"))
  }

  function TooLong(): (r: Reply)
    ensures r.Error?
  {
    Error(Ascii("ERR string exceeds maximum allowed size"))
  }

  function EmptyCommand(): (r: Reply)
    ensures r.Error?
  {
    Error(Ascii("ERR empty command"))
  }

  function WrongArity(name: bytes): (r: Reply)
    ensures r.Error?
  {
    Error(Ascii("ERR wrong number of arguments for '") + name + Ascii("'"))
  }

  /** The bytes before the first NUL. */
  function UpToNul(s: bytes): (r: bytes)
    ensures r <= s
  {
    if s == [] || s[0] == NUL then [] else [s[0]] + UpToNul(s[1..])
  }

  /** The part of an unknown name that is echoed: at most 64 bytes, cut at a NUL. */
  function Echoed(name: bytes): bytes {
    UpToNul(if |name| < 64 then name else name[..64])
  }

  function UnknownCommand(name: bytes): (r: Reply)
    ensures r.Error?
  {
    Error(Ascii("ERR unknown command '") + Echoed(name) + Ascii("'"))
  }

  // ---- Handlers on the chained table --------------------------------------

  type Outcome = (T.Chains, Reply)

  /** Store and answer, or run out of memory and change nothing. */
  function Store(t: T.Chains, k: bytes, v: bytes, mem: bool, answer: Reply): Outcome
    requires |t| == T.Hash.BUCKETS
  {
    if mem then (T.Set(t, k, v), answer) else (t, Oom())
  }

  /** Delete one after the other, counting the hits. */
  function DelAll(t: T.Chains, keys: seq<bytes>): (r: (T.Chains, nat))
    requires |t| == T.Hash.BUCKETS
    ensures |r.0| == T.Hash.BUCKETS
    decreases |keys|
  {
    if keys == [] then (t, 0)
    else
      var (t', n) := DelAll(T.Del(t, keys[0]), keys[1..]);
      (t', n + if T.Lookup(t, keys[0]).Some? then 1 else 0)
  }

  function DelOutcome(t: T.Chains, keys: seq<bytes>): Outcome
    requires |t| == T.Hash.BUCKETS
  {
    (DelAll(t, keys).0, Int(DelAll(t, keys).1))
  }

  function CountPresent(t: T.Chains, keys: seq<bytes>): nat
    requires |t| == T.Hash.BUCKETS
  {
    if keys == [] then 0
    else (if T.Lookup(t, keys[0]).Some? then 1 else 0) + CountPresent(t, keys[1..])
  }

  function IncrBy(t: T.Chains, k: bytes, delta: int, mem: bool): Outcome
    requires |t| == T.Hash.BUCKETS
  {
    var was := T.Lookup(t, k);
    if was.Some? && !Accepts(was.value) then (t, NotInteger())
    else
      var next := (if was.Some? then SignedValue(was.value) else 0) + delta;
      if next < INT64_MIN || next > INT64_MAX then (t, WouldOverflow())
      else Store(t, k, FormatInt(next), mem, Int(next))
  }

  /** Add or subtract the number an argument spells. */
  function IncrByText(t: T.Chains, k: bytes, text: bytes, sign: int, mem: bool): Outcome
    requires |t| == T.Hash.BUCKETS
  {
    if Accepts(text) then IncrBy(t, k, sign * SignedValue(text), mem) else (t, NotInteger())
  }

  function Append(t: T.Chains, k: bytes, v: bytes, mem: bool): Outcome
    requires |t| == T.Hash.BUCKETS
  {
    match T.Lookup(t, k)
    case None => Store(t, k, v, mem, Int(|v|))
    case Some(was) =>
      if |v| > SIZE_MAX - |was| then (t, TooLong())
      else Store(t, k, was + v, mem, Int(|was| + |v|))
  }

  /** The keys of a scan that fit the pattern, as bulk replies. */
  ghost function Matching(es: seq<T.Entry>, pattern: bytes): seq<Reply> {
    if es == [] then []
    else if Glob.InLanguage(Glob.Tokenise(pattern), es[0].key) then
      [Bulk(es[0].key)] + Matching(es[1..], pattern)
    else Matching(es[1..], pattern)
  }

  function SetIfMissing(t: T.Chains, k: bytes, v: bytes, mem: bool): Outcome
    requires |t| == T.Hash.BUCKETS
  {
    if T.Lookup(t, k).Some? then (t, Int(0)) else Store(t, k, v, mem, Int(1))
  }

  function LengthOf(v: Option<bytes>): Reply {
    Int(if v.Some? then |v.value| else 0)
  }

  function BulkOrNil(v: Option<bytes>): Reply {
    if v.Some? then Bulk(v.value) else Nil
  }

  /** One handler. `mem` says that no allocation of the command is refused. */
  ghost function Handle(t: T.Chains, c: Command, argv: seq<bytes>, mem: bool): (o: Outcome)
    requires |t| == T.Hash.BUCKETS
    requires |argv| >= Needs(c)
    ensures |o.0| == T.Hash.BUCKETS
  {
    match c
    case PING => (t, if |argv| == 1 then Simple(Ascii("PONG")) else Bulk(argv[1]))
    case GET => (t, BulkOrNil(T.Lookup(t, argv[1])))
    case SET => Store(t, argv[1], argv[2], mem, Ok())
    case DEL => DelOutcome(t, argv[1..])
    case EXISTS => (t, Int(CountPresent(t, argv[1..])))
    case COMMAND => (t, Array([]))
    case INCR => IncrBy(t, argv[1], 1, mem)
    case DECR => IncrBy(t, argv[1], -1, mem)
    case INCRBY => IncrByText(t, argv[1], argv[2], 1, mem)
    case DECRBY => IncrByText(t, argv[1], argv[2], -1, mem)
    case STRLEN => (t, LengthOf(T.Lookup(t, argv[1])))
    case APPEND => Append(t, argv[1], argv[2], mem)
    case KEYS => (t, Array(Matching(T.Entries(t), argv[1])))
    case DBSIZE => (t, Int(|T.Entries(t)|))
    case FLUSHDB => (T.Empty(), Ok())
    case SETNX => SetIfMissing(t, argv[1], argv[2], mem)
    case GETSET => Store(t, argv[1], argv[2], mem, BulkOrNil(T.Lookup(t, argv[1])))
  }

  /** The least number of arguments, the name included, a handler reads. */
  function Needs(c: Command): nat {
    match c
    case PING => 1
    case COMMAND => 1
    case DBSIZE => 1
    case FLUSHDB => 1
    case SET => 3
    case INCRBY => 3
    case DECRBY => 3
    case APPEND => 3
    case SETNX => 3
    case GETSET => 3
    case _ => 2
  }

  lemma RowsNeed(j: nat)
    requires j < |ROWS|
    ensures ROWS[j].minArgc == Needs(ROWS[j].command)
  {
  }

  /** One dispatched request: the new table and the reply. */
  ghost function Exec(t: T.Chains, argv: seq<bytes>, mem: bool): (o: Outcome)
    requires |t| == T.Hash.BUCKETS
    ensures |o.0| == T.Hash.BUCKETS
  {
    if argv == [] then (t, EmptyCommand())
    else
      var j := FindRow(argv[0], 0);
      if j == |ROWS| then (t, UnknownCommand(argv[0]))
      else if !ArityOk(ROWS[j], |argv|) then (t, WrongArity(ROWS[j].name))
      else
        RowsNeed(j);
        Handle(t, ROWS[j].command, argv, mem)
  }
}
