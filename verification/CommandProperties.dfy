/** What follows from the command semantics: framing, errors, counters, reply streams. */
module CommandProperties {
  import opened Bytes
  import opened Decimal
  import opened Reply
  import opened CommandSpec
  import opened CommandMeaning
  import Resp
  import T = Table

  /** A request answered with an error leaves the table exactly as it was, memory failures included. */
  lemma ErrorsChangeNothing(t: T.Chains, argv: seq<bytes>, mem: bool)
    requires |t| == T.Hash.BUCKETS
    requires Exec(t, argv, mem).1.Error?
    ensures Exec(t, argv, mem).0 == t
  {
    hide ROWS, NameMatches, Handle, ArityOk;
    if argv != [] && FindRow(argv[0], 0) < |ROWS| {
      var j := FindRow(argv[0], 0);
      RowsNeed(j);
      if ArityOk(ROWS[j], |argv|) {
        ArityCovers(j, |argv|);
      }
      HandleErrors(t, ROWS[j].command, argv, mem);
    }
  }

  lemma HandleErrors(t: T.Chains, c: Command, argv: seq<bytes>, mem: bool)
    requires |t| == T.Hash.BUCKETS
    ensures |argv| >= Needs(c) && Handle(t, c, argv, mem).1.Error? ==> Handle(t, c, argv, mem).0 == t
  {
    hide T.Set, T.Del, T.Lookup, T.Entries, DelAll, CountPresent, Matching, Accepts, SignedValue, IncrBy, Append, Ascii;
    if |argv| >= Needs(c) {
      match c {
        case INCR => IncrErrors(t, argv[1], 1, mem);
        case DECR => IncrErrors(t, argv[1], -1, mem);
        case INCRBY => if Accepts(argv[2]) { IncrErrors(t, argv[1], SignedValue(argv[2]), mem); }
        case DECRBY => if Accepts(argv[2]) { IncrErrors(t, argv[1], -SignedValue(argv[2]), mem); }
        case APPEND => AppendErrors(t, argv[1], argv[2], mem);
        case _ =>
      }
    }
  }

  lemma IncrErrors(t: T.Chains, k: bytes, delta: int, mem: bool)
    requires |t| == T.Hash.BUCKETS
    ensures IncrBy(t, k, delta, mem).1.Error? ==> IncrBy(t, k, delta, mem).0 == t
  {
    hide T.Set, T.Lookup, Accepts, SignedValue, FormatInt, Ascii;
  }

  lemma AppendErrors(t: T.Chains, k: bytes, v: bytes, mem: bool)
    requires |t| == T.Hash.BUCKETS
    ensures Append(t, k, v, mem).1.Error? ==> Append(t, k, v, mem).0 == t
  {
    hide T.Set, T.Lookup, Ascii;
  }

  /** The keys a command may write. */
  predicate MayWrite(c: Command, argv: seq<bytes>, k: bytes)
    requires |argv| >= Needs(c)
  {
    match c
    case DEL => k in argv[1..]
    case FLUSHDB => true
    case PING => false
    case GET => false
    case EXISTS => false
    case COMMAND => false
    case STRLEN => false
    case KEYS => false
    case DBSIZE => false
    case _ => k == argv[1]
  }

  /** The request reaches a handler that may write k. */
  ghost predicate Touches(argv: seq<bytes>, k: bytes) {
    exists j :: 0 <= j < |ROWS| && argv != [] && NameMatches(argv[0], ROWS[j].name)
      && ArityOk(ROWS[j], |argv|) && |argv| >= Needs(ROWS[j].command) && MayWrite(ROWS[j].command, argv, k)
  }

  /** Every key keeps its value, except the first argument of a writing command, the arguments of DEL,
      and under FLUSHDB; requests that reach no handler keep them all. */
  lemma UnnamedKeysKept(m: Dict, argv: seq<bytes>, mem: bool, m': Dict, r: Reply, k: bytes)
    requires Means(m, argv, mem, m', r) && !Touches(argv, k)
    ensures OldValue(m', k) == OldValue(m, k)
  {
    hide MayWrite, Obeys, ArityOk;
    if argv != [] && !(forall j :: 0 <= j < |ROWS| ==> !NameMatches(argv[0], ROWS[j].name)) {
      var j :| 0 <= j < |ROWS| && NameMatches(argv[0], ROWS[j].name)
        && if !ArityOk(ROWS[j], |argv|) then m' == m && r == WrongArity(ROWS[j].name)
           else |argv| >= Needs(ROWS[j].command) && Obeys(m, ROWS[j].command, argv, mem, m', r);
      if ArityOk(ROWS[j], |argv|) {
        KeptBy(m, ROWS[j].command, argv, mem, m', r, k);
      }
    }
  }

  lemma KeptBy(m: Dict, c: Command, argv: seq<bytes>, mem: bool, m': Dict, r: Reply, k: bytes)
    requires |argv| >= Needs(c) && Obeys(m, c, argv, mem, m', r) && !MayWrite(c, argv, k)
    ensures OldValue(m', k) == OldValue(m, k)
  {
    hide FormatInt, Lists, Accepts, SignedValue, Oom, NotInteger, WouldOverflow, TooLong, Ascii;
    if c == DEL {
      assert k !in KeySet(argv[1..]);
    }
  }

  // ---- Counters -----------------------------------------------------------

  /** The request adds delta to the number under k. */
  predicate AddsTo(argv: seq<bytes>, k: bytes, delta: int) {
    argv != [] &&
    var j := FindRow(argv[0], 0);
    j < |ROWS| && ArityOk(ROWS[j], |argv|) && |argv| >= Needs(ROWS[j].command) >= 2 && argv[1] == k &&
    match ROWS[j].command
    case INCR => delta == 1
    case DECR => delta == -1
    case INCRBY => |argv| > 2 && Accepts(argv[2]) && delta == SignedValue(argv[2])
    case DECRBY => |argv| > 2 && Accepts(argv[2]) && delta == -SignedValue(argv[2])
    case _ => false
  }

  /** Executing requests one after the other; `mems` tells which ones were refused no memory. */
  ghost function RunRequests(t: T.Chains, argvs: seq<seq<bytes>>, mems: seq<bool>): (r: (T.Chains, seq<Reply>))
    requires |t| == T.Hash.BUCKETS && |mems| == |argvs|
    ensures |r.0| == T.Hash.BUCKETS && |r.1| == |argvs|
    decreases |argvs|
  {
    if argvs == [] then (t, [])
    else
      var (t1, r) := Exec(t, argvs[0], mems[0]);
      var (t2, rs) := RunRequests(t1, argvs[1..], mems[1..]);
      (t2, [r] + rs)
  }

  /** What a request does to a counter: Some(delta) counts, None leaves it alone. */
  ghost predicate StepsBy(argv: seq<bytes>, k: bytes, step: Option<int>) {
    match step
    case Some(delta) => AddsTo(argv, k, delta)
    case None => !Touches(argv, k)
  }

  /** The number after one step: the exact sum, or the old number when memory is refused. */
  function Next(n: int, step: Option<int>, mem: bool): int {
    if step.Some? && mem then n + step.value else n
  }

  predicate Counts(steps: seq<Option<int>>) {
    steps != [] && (steps[0].Some? || Counts(steps[1..]))
  }

  /** Some counting step was granted memory. */
  predicate Granted(steps: seq<Option<int>>, mems: seq<bool>)
    requires |mems| == |steps|
  {
    steps != [] && ((steps[0].Some? && mems[0]) || Granted(steps[1..], mems[1..]))
  }

  /** Every sum tried fits an int64, and every one that is counted on again is readable. */
  predicate InRange(n: int, steps: seq<Option<int>>, mems: seq<bool>)
    requires |mems| == |steps|
    decreases |steps|
  {
    steps == [] ||
    (var next := Next(n, steps[0], mems[0]);
     && (steps[0].Some? ==> INT64_MIN <= n + steps[0].value <= INT64_MAX)
     && (steps[0].Some? && Counts(steps[1..]) ==> -LIMIT <= next <= LIMIT)
     && InRange(next, steps[1..], mems[1..]))
  }

  /** The exact sum of the granted deltas and n. */
  function Total(n: int, steps: seq<Option<int>>, mems: seq<bool>): int
    requires |mems| == |steps|
    decreases |steps|
  {
    if steps == [] then n else Total(Next(n, steps[0], mems[0]), steps[1..], mems[1..])
  }

  /** Each counting step is answered by the running sum, or by an error when memory was refused. */
  predicate RunningSums(n: int, steps: seq<Option<int>>, mems: seq<bool>, rs: seq<Reply>)
    requires |mems| == |steps| == |rs|
    decreases |steps|
  {
    steps == [] ||
    (&& (steps[0].Some? ==> rs[0] == if mems[0] then Int(n + steps[0].value) else Oom())
     && RunningSums(Next(n, steps[0], mems[0]), steps[1..], mems[1..], rs[1..]))
  }

  /** The number a key counts as: zero when missing. */
  ghost predicate CountsAs(t: T.Chains, k: bytes, n: int)
    requires |t| == T.Hash.BUCKETS
  {
    match T.Lookup(t, k)
    case None => n == 0
    case Some(v) => Accepts(v) && SignedValue(v) == n
  }

  /** A counting request does the arithmetic of the shared core. */
  lemma AddsIsIncrBy(t: T.Chains, argv: seq<bytes>, k: bytes, delta: int, mem: bool)
    requires |t| == T.Hash.BUCKETS && AddsTo(argv, k, delta)
    ensures Exec(t, argv, mem) == IncrBy(t, k, delta, mem)
  {
    hide ROWS, NameMatches, ArityOk, IncrBy, Accepts, SignedValue, Ascii, T.Lookup;
  }

  /** A request that does not touch a key leaves its chain's answer as it was. */
  lemma ExecKeeps(t: T.Chains, argv: seq<bytes>, mem: bool, k: bytes)
    requires T.WellFormed(t)
    ensures T.WellFormed(Exec(t, argv, mem).0)
    ensures !Touches(argv, k) ==> T.Lookup(Exec(t, argv, mem).0, k) == T.Lookup(t, k)
  {
    hide Exec, Means, T.WellFormed, T.ToMap, T.Lookup, Touches;
    ExecRefines(t, argv, mem);
    var (t1, r) := Exec(t, argv, mem);
    if !Touches(argv, k) {
      UnnamedKeysKept(T.ToMap(t), argv, mem, T.ToMap(t1), r, k);
      T.LookupIsMap(t, k);
      T.LookupIsMap(t1, k);
    }
  }

  /** Any run of requests in which INCR, DECR, INCRBY and DECRBY count on one key and the others do not
      touch it, any of them refused memory: the counting requests are answered by the exact running
      sums, or an error when refused; the key ends up holding the canonical decimal of the sum of the
      granted ones; and keys the others do not touch keep their values. */
  lemma {:induction false} CounterRun(t: T.Chains, k: bytes, n: int, argvs: seq<seq<bytes>>,
      steps: seq<Option<int>>, mems: seq<bool>)
    requires T.WellFormed(t) && |argvs| == |steps| == |mems|
    requires Counts(steps) ==> CountsAs(t, k, n)
    requires forall i :: 0 <= i < |argvs| ==> StepsBy(argvs[i], k, steps[i])
    requires InRange(n, steps, mems)
    ensures var (t', rs) := RunRequests(t, argvs, mems);
            && T.WellFormed(t')
            && RunningSums(n, steps, mems, rs)
            && T.Lookup(t', k) ==
               (if Granted(steps, mems) then Some(FormatInt(Total(n, steps, mems))) else T.Lookup(t, k))
            && forall x :: x != k && (forall i :: 0 <= i < |argvs| && steps[i].None? ==> !Touches(argvs[i], x)) ==>
                 T.Lookup(t', x) == T.Lookup(t, x)
    decreases |argvs|
  {
    hide T.WellFormed, T.Set, T.Lookup, Accepts, FormatInt, IncrBy, CountsAs, Exec, StepsBy, Oom, Touches;
    if argvs == [] {
    } else {
      assert StepsBy(argvs[0], k, steps[0]);
      CounterOne(t, k, n, argvs[0], steps[0], mems[0]);
      var t1, next := Exec(t, argvs[0], mems[0]).0, Next(n, steps[0], mems[0]);
      forall i | 0 <= i < |argvs| - 1 ensures StepsBy(argvs[1..][i], k, steps[1..][i]) {
        assert StepsBy(argvs[i + 1], k, steps[i + 1]);
      }
      CounterRun(t1, k, next, argvs[1..], steps[1..], mems[1..]);
      if !Granted(steps[1..], mems[1..]) {
        NothingGranted(next, steps[1..], mems[1..]);
      }
      forall x | x != k && (forall i :: 0 <= i < |argvs| && steps[i].None? ==> !Touches(argvs[i], x))
        ensures T.Lookup(RunRequests(t, argvs, mems).0, x) == T.Lookup(t, x)
      {
        assert forall i :: 0 <= i < |argvs| - 1 && steps[1..][i].None? ==> !Touches(argvs[1..][i], x);
      }
    }
  }

  lemma CounterOne(t: T.Chains, k: bytes, n: int, argv: seq<bytes>, step: Option<int>, mem: bool)
    requires T.WellFormed(t) && StepsBy(argv, k, step)
    requires step.Some? ==> CountsAs(t, k, n) && INT64_MIN <= n + step.value <= INT64_MAX
    ensures var (t1, r) := Exec(t, argv, mem);
            && T.WellFormed(t1)
            && (step.Some? ==> r == if mem then Int(n + step.value) else Oom())
            && (step.Some? && -LIMIT <= Next(n, step, mem) <= LIMIT ==> CountsAs(t1, k, Next(n, step, mem)))
            && (step.None? && CountsAs(t, k, n) ==> CountsAs(t1, k, n))
            && T.Lookup(t1, k) == (if step.Some? && mem then Some(FormatInt(n + step.value)) else T.Lookup(t, k))
            && forall x :: x != k && (step.None? ==> !Touches(argv, x)) ==> T.Lookup(t1, x) == T.Lookup(t, x)
  {
    hide T.WellFormed, T.Lookup, Accepts, FormatInt, IncrBy, Exec, Oom, Touches, AddsTo;
    match step {
      case Some(delta) =>
        AddsIsIncrBy(t, argv, k, delta, mem);
        CounterStep(t, k, n, delta, mem);
      case None =>
        ExecKeeps(t, argv, mem, k);
        forall x | !Touches(argv, x) ensures T.Lookup(Exec(t, argv, mem).0, x) == T.Lookup(t, x) {
          ExecKeeps(t, argv, mem, x);
        }
    }
  }

  lemma {:induction false} NothingGranted(n: int, steps: seq<Option<int>>, mems: seq<bool>)
    requires |mems| == |steps| && !Granted(steps, mems)
    ensures Total(n, steps, mems) == n
    decreases |steps|
  {
    if steps == [] {
    } else {
      NothingGranted(n, steps[1..], mems[1..]);
    }
  }

  lemma CounterStep(t: T.Chains, k: bytes, n: int, delta: int, mem: bool)
    requires T.WellFormed(t) && CountsAs(t, k, n) && INT64_MIN <= n + delta <= INT64_MAX
    ensures var (t1, r) := IncrBy(t, k, delta, mem);
            && r == (if mem then Int(n + delta) else Oom())
            && T.WellFormed(t1)
            && (-LIMIT <= Next(n, Some(delta), mem) <= LIMIT ==> CountsAs(t1, k, Next(n, Some(delta), mem)))
            && T.Lookup(t1, k) == (if mem then Some(FormatInt(n + delta)) else T.Lookup(t, k))
            && forall x :: x != k ==> T.Lookup(t1, x) == T.Lookup(t, x)
  {
    hide T.WellFormed, T.Set, T.Lookup, Accepts, FormatInt, Oom;
    if mem {
      var v := FormatInt(n + delta);
      ReaderInvertsPrinter(n + delta);
      FormatRoundTrip(n + delta);
      T.SetKeepsWellFormed(t, k, v);
      T.LookupAfterSet(t, k, v, k);
      forall x | x != k ensures T.Lookup(T.Set(t, k, v), x) == T.Lookup(t, x) {
        T.LookupAfterSet(t, k, v, x);
      }
    }
  }

  /** An arithmetic step succeeds exactly when the stored text is readable, the sum fits and memory is
      granted; otherwise it answers an error and nothing changes. */
  lemma StepSucceedsIff(t: T.Chains, k: bytes, delta: int, mem: bool)
    requires |t| == T.Hash.BUCKETS
    ensures var (t', r) := IncrBy(t, k, delta, mem);
            && (r.Int? <==> mem && exists n ::
                  CountsAs(t, k, n) && -9223372036854775808 <= n + delta <= 9223372036854775807)
            && (!r.Int? ==> t' == t && r.Error?)
  {
    hide T.Lookup, T.Set;
    var was := T.Lookup(t, k);
    if was.None? {
      assert CountsAs(t, k, 0);
    } else if Accepts(was.value) {
      assert CountsAs(t, k, SignedValue(was.value));
    }
  }

  /** A counter pushed past 2^63 - 9 in magnitude is stored, and stuck from then on. */
  lemma StoredOutOfRangeIsStuck(t: T.Chains, k: bytes, n: int, delta: int, next: int, mem: bool)
    requires T.WellFormed(t) && CountsAs(t, k, n)
    requires -9223372036854775808 <= n + delta <= 9223372036854775807
    requires !(-9223372036854775799 <= n + delta <= 9223372036854775799)
    ensures var (t', r) := IncrBy(t, k, delta, true);
            && r == Int(n + delta)
            && T.Lookup(t', k) == Some(FormatInt(n + delta))
            && IncrBy(t', k, next, mem) == (t', NotInteger())
  {
    hide T.WellFormed, T.Set, T.Lookup, Accepts, FormatInt, CountsAs;
    CounterStep(t, k, n, delta, true);
    ReaderInvertsPrinter(n + delta);
  }

  // ---- Reply streams ------------------------------------------------------

  ghost predicate PairFree(s: bytes) {
    forall j :: 0 <= j < |s| - 1 ==> !(s[j] == CR && s[j + 1] == LF)
  }

  lemma NoCrlfIffPairFree(s: bytes)
    ensures NoCrlf(s) <==> PairFree(s)
  {
    var i := FindCrlf(s);
    if i < |s| {
      assert s[i] == CR && s[i + 1] == LF;
    }
  }

  /** A literal without line feeds. */
  ghost predicate Plain(s: string) {
    forall i :: 0 <= i < |s| ==> s[i] as int < 256 && s[i] != '\n'
  }

  lemma AsciiNoCrlf(s: string)
    requires Plain(s)
    ensures NoCrlf(Ascii(s))
  {
    NoCrlfIffPairFree(Ascii(s));
  }

  lemma QuotedNoCrlf(front: string, s: bytes)
    requires front != "" && front[|front| - 1] == '\''
    requires Plain(front)
    ensures NoCrlf(Ascii(front) + s + Ascii("'")) <==> NoCrlf(s)
  {
    var f, q := Ascii(front), Ascii("'");
    var whole := f + s + q;
    NoCrlfIffPairFree(whole);
    NoCrlfIffPairFree(s);
    assert forall i :: 0 <= i < |f| ==> f[i] != LF;
    assert f[|f| - 1] == 39 && q == [39];
    assert forall i :: 0 <= i < |s| ==> whole[|f| + i] == s[i];
    if PairFree(whole) {
      forall i | 0 <= i < |s| - 1 ensures !(s[i] == CR && s[i + 1] == LF) {
        assert whole[|f| + i] == s[i] && whole[|f| + i + 1] == s[i + 1];
      }
    }
    if PairFree(s) {
      forall j | 0 <= j < |whole| - 1 ensures !(whole[j] == CR && whole[j + 1] == LF) {
        if |f| <= j < |f| + |s| - 1 {
          assert whole[j] == s[j - |f|] && whole[j + 1] == s[j - |f| + 1];
        }
      }
    }
  }

  lemma FixedTextsNoCrlf()
    ensures Framable(Ok()) && Framable(Oom()) && Framable(NotInteger()) && Framable(WouldOverflow())
    ensures Framable(TooLong()) && Framable(EmptyCommand()) && Framable(Simple(Ascii("PONG")))
  {
    hide NoCrlf, Ascii;
    ShortTextsNoCrlf();
    LongTextsNoCrlf();
  }

  lemma ShortTextsNoCrlf()
    ensures NoCrlf(Ok().text) && NoCrlf(Ascii("PONG")) && NoCrlf(Oom().text) && NoCrlf(EmptyCommand().text)
  {
    hide NoCrlf, FindCrlf, Ascii;
    AsciiNoCrlf("OK");
    AsciiNoCrlf("PONG");
    AsciiNoCrlf("ERR out of memory");
    AsciiNoCrlf("ERR empty command");
  }

  lemma LongTextsNoCrlf()
    ensures NoCrlf(NotInteger().text) && NoCrlf(WouldOverflow().text) && NoCrlf(TooLong().text)
  {
    hide NoCrlf, FindCrlf, Ascii, Plain;
    NotIntegerPlain();
    WouldOverflowPlain();
    TooLongPlain();
    AsciiNoCrlf("ERR value is not an integer or out of range");
    AsciiNoCrlf("ERR increment or decrement would overflow");
    AsciiNoCrlf("ERR string exceeds maximum allowed size");
  }

  lemma NotIntegerPlain() ensures Plain("ERR value is not an integer or out of range") {}

  lemma WouldOverflowPlain() ensures Plain("ERR increment or decrement would overflow") {}

  lemma TooLongPlain() ensures Plain("ERR string exceeds maximum allowed size") {}

  lemma UnknownPlain() ensures Plain("ERR unknown command '") {}

  lemma ArityPlain() ensures Plain("ERR wrong number of arguments for '") {}

  lemma RowNamesNoCrlf(j: nat)
    requires j < |ROWS|
    ensures NoCrlf(ROWS[j].name)
  {
    hide NoCrlf, FindCrlf, Ascii;
    AsciiNoCrlf("PING");
    AsciiNoCrlf("GET");
    AsciiNoCrlf("SET");
    AsciiNoCrlf("DEL");
    AsciiNoCrlf("EXISTS");
    AsciiNoCrlf("COMMAND");
    AsciiNoCrlf("INCR");
    AsciiNoCrlf("DECR");
    AsciiNoCrlf("INCRBY");
    AsciiNoCrlf("DECRBY");
    AsciiNoCrlf("STRLEN");
    AsciiNoCrlf("APPEND");
    AsciiNoCrlf("KEYS");
    AsciiNoCrlf("DBSIZE");
    AsciiNoCrlf("FLUSHDB");
    AsciiNoCrlf("SETNX");
    AsciiNoCrlf("GETSET");
  }

  lemma {:induction false} MatchingFramable(es: seq<T.Entry>, pattern: bytes)
    ensures forall i :: 0 <= i < |Matching(es, pattern)| ==> Matching(es, pattern)[i].Bulk?
    decreases |es|
  {
    if es == [] {
    } else {
      MatchingFramable(es[1..], pattern);
    }
  }

  /** A name the dispatch table does not know. */
  predicate Unknown(argv: seq<bytes>) {
    argv != [] && FindRow(argv[0], 0) == |ROWS|
  }

  /** Every reply survives framing, except the echo of an unknown name that carries a CRLF pair
      within its first 64 bytes and before its first NUL. */
  lemma ReplyFramableIff(t: T.Chains, argv: seq<bytes>, mem: bool)
    requires |t| == T.Hash.BUCKETS
    ensures Framable(Exec(t, argv, mem).1) <==> !(Unknown(argv) && !NoCrlf(Echoed(argv[0])))
  {
    hide ROWS, NameMatches, NoCrlf, ArityOk, Ascii, Handle, Echoed, Plain;
    FixedTextsNoCrlf();
    UnknownPlain();
    ArityPlain();
    if argv != [] {
      var j := FindRow(argv[0], 0);
      if j == |ROWS| {
        QuotedNoCrlf("ERR unknown command '", Echoed(argv[0]));
      } else if !ArityOk(ROWS[j], |argv|) {
        QuotedNoCrlf("ERR wrong number of arguments for '", ROWS[j].name);
        RowNamesNoCrlf(j);
      } else {
        ArityCovers(j, |argv|);
        HandleFramable(t, ROWS[j].command, argv, mem);
      }
    }
  }

  /** An input whose reply breaks framing: the well-formed request for a command named CR LF. */
  lemma EchoBreaksFraming(t: T.Chains, mem: bool, rest: bytes)
    requires |t| == T.Hash.BUCKETS
    ensures var argv: seq<bytes> := [[CR, LF]];
            && Resp.Parse(Resp.EncodeRequest(argv) + rest) == Resp.Ok(argv, |Resp.EncodeRequest(argv)|)
            && Unknown(argv)
            && !Framable(Exec(t, argv, mem).1)
  {
    hide Resp.Parse, Resp.EncodeRequest, ROWS, Exec, Framable, Unknown, Echoed, NoCrlf;
    Resp.RequestRoundTrip([[CR, LF]], rest);
    CrLfIsUnknown();
    CrLfIsEchoed();
    ReplyFramableIff(t, [[CR, LF]], mem);
  }

  lemma CrLfIsUnknown()
    ensures Unknown([[CR, LF]])
  {
    hide ROWS, Ascii;
    forall j | 0 <= j < |ROWS| ensures !NameMatches([CR, LF], ROWS[j].name) {
      RowStartsWithLetter(j);
    }
    FindRowMeaning([CR, LF], 0);
  }

  lemma RowStartsWithLetter(j: nat)
    requires j < |ROWS|
    ensures ROWS[j].name != [] && ROWS[j].name[0] > 32
  {
  }

  lemma CrLfIsEchoed()
    ensures !NoCrlf(Echoed([CR, LF]))
  {
    var name: bytes := [CR, LF];
    assert name[1..] == [LF] && name[1..][1..] == [];
    assert UpToNul(name[1..][1..]) == [];
    assert UpToNul(name[1..]) == [LF];
    assert Echoed(name) == name;
  }

  lemma HandleFramable(t: T.Chains, c: Command, argv: seq<bytes>, mem: bool)
    requires |t| == T.Hash.BUCKETS && |argv| >= Needs(c)
    ensures Framable(Handle(t, c, argv, mem).1)
  {
    hide NoCrlf, Ascii, T.Set, T.Del, T.Lookup, T.Entries, DelAll, CountPresent, Accepts, SignedValue, FormatInt,
        Matching;
    FixedTextsNoCrlf();
    if c == KEYS {
      MatchingFramable(T.Entries(t), argv[1]);
    }
  }

  /** A name that came in as an inline command never breaks framing: a line holds no LF. */
  lemma InlineNamesAreSafe(s: bytes)
    requires s != [] && s[0] != STAR && Resp.Parse(s).Ok?
    ensures NoCrlf(Echoed(Resp.Parse(s).value[0]))
  {
    assert Resp.Parse(s) == Resp.ParseInline(s);
    hide Resp.Words, Resp.IndexOf, Resp.Parse, NoCrlf, UpToNul;
    var limit := if |s| < Resp.MAX_INLINE_LEN then |s| else Resp.MAX_INLINE_LEN;
    var nl := Resp.IndexOf(s[..limit], LF);
    var line := s[..Resp.LineEnd(s, nl)];
    assert forall i :: 0 <= i < |line| ==> line[i] == s[..limit][i];
    WordsWithin(line, 0);
    NoLf(Resp.Words(line)[0]);
  }

  lemma NoLf(name: bytes)
    requires LF !in name
    ensures NoCrlf(Echoed(name))
  {
    hide FindCrlf, UpToNul, NoCrlf;
    NoCrlfIffPairFree(Echoed(name));
    assert forall i :: 0 <= i < |Echoed(name)| ==> Echoed(name)[i] == name[i];
  }

  lemma {:induction false} WordsWithin(line: bytes, i: nat)
    requires i < |Resp.Words(line)|
    ensures forall b :: b in Resp.Words(line)[i] ==> b in line
    decreases |line|
  {
    var n := Resp.WordLength(line);
    if Resp.IsBlank(line[0]) {
      WordsWithin(line[1..], i);
    } else if i > 0 {
      WordsWithin(line[n..], i - 1);
    }
  }
}
