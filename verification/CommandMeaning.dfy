/** The commands over a plain finite map, and the proof that the chained table obeys them. */
module CommandMeaning {
  import opened Bytes
  import opened Decimal
  import opened Reply
  import opened CommandSpec
  import Glob
  import T = Table

  type Dict = map<bytes, bytes>

  ghost function KeySet(keys: seq<bytes>): set<bytes> {
    set k | k in keys
  }

  ghost function PresentAt(m: Dict, keys: seq<bytes>): set<nat> {
    set i: nat | i < |keys| && keys[i] in m
  }

  /** Write under `k` and answer `r`, unless memory is refused. */
  ghost predicate Writes(m: Dict, k: bytes, v: bytes, answer: Reply, mem: bool, m': Dict, r: Reply) {
    if mem then m' == m[k := v] && r == answer else m' == m && r == Oom()
  }

  /** Add `delta` to the number stored under `k`, a missing key counting as zero. */
  ghost predicate Adds(m: Dict, k: bytes, delta: int, mem: bool, m': Dict, r: Reply) {
    if k in m && !Accepts(m[k]) then m' == m && r == NotInteger()
    else
      var sum := (if k in m then SignedValue(m[k]) else 0) + delta;
      if -9223372036854775808 <= sum <= 9223372036854775807 then Writes(m, k, FormatInt(sum), Int(sum), mem, m', r)
      else m' == m && r == WouldOverflow()
  }

  /** `r` lists, without repetition, exactly the keys of `m` in the pattern's language. */
  ghost predicate Lists(m: Dict, pattern: bytes, r: Reply) {
    exists ks: seq<bytes> ::
      && r == Array(Bulks(ks))
      && (forall i, j :: 0 <= i < j < |ks| ==> ks[i] != ks[j])
      && (forall k :: k in ks <==> k in m && Glob.InLanguage(Glob.Tokenise(pattern), k))
  }

  ghost function Bulks(ks: seq<bytes>): seq<Reply> {
    seq(|ks|, i requires 0 <= i < |ks| => Bulk(ks[i]))
  }

  ghost function OldValue(m: Dict, k: bytes): Reply {
    if k in m then Bulk(m[k]) else Nil
  }

  /** The reference semantics of each command. */
  ghost predicate Obeys(m: Dict, c: Command, argv: seq<bytes>, mem: bool, m': Dict, r: Reply)
    requires |argv| >= Needs(c)
  {
    match c
    case PING => m' == m && r == if |argv| == 1 then Simple(Ascii("PONG")) else Bulk(argv[1])
    case GET => m' == m && r == OldValue(m, argv[1])
    case SET => Writes(m, argv[1], argv[2], Ok(), mem, m', r)
    case DEL => m' == m - KeySet(argv[1..]) && r == Int(|m.Keys * KeySet(argv[1..])|)
    case EXISTS => m' == m && r == Int(|PresentAt(m, argv[1..])|)
    case COMMAND => m' == m && r == Array([])
    case INCR => Adds(m, argv[1], 1, mem, m', r)
    case DECR => Adds(m, argv[1], -1, mem, m', r)
    case INCRBY =>
      if Accepts(argv[2]) then Adds(m, argv[1], SignedValue(argv[2]), mem, m', r)
      else m' == m && r == NotInteger()
    case DECRBY =>
      if Accepts(argv[2]) then Adds(m, argv[1], -SignedValue(argv[2]), mem, m', r)
      else m' == m && r == NotInteger()
    case STRLEN => m' == m && r == Int(if argv[1] in m then |m[argv[1]]| else 0)
    case APPEND =>
      var was := if argv[1] in m then m[argv[1]] else [];
      if argv[1] in m && |was| + |argv[2]| > 18446744073709551615 then m' == m && r == TooLong()
      else Writes(m, argv[1], was + argv[2], Int(|was| + |argv[2]|), mem, m', r)
    case KEYS => m' == m && Lists(m, argv[1], r)
    case DBSIZE => m' == m && r == Int(|m|)
    case FLUSHDB => m' == map[] && r == Ok()
    case SETNX =>
      if argv[1] in m then m' == m && r == Int(0)
      else Writes(m, argv[1], argv[2], Int(1), mem, m', r)
    case GETSET => Writes(m, argv[1], argv[2], OldValue(m, argv[1]), mem, m', r)
  }

  /** The reference semantics of one request, errors of dispatch included. */
  ghost predicate Means(m: Dict, argv: seq<bytes>, mem: bool, m': Dict, r: Reply) {
    if argv == [] then m' == m && r == EmptyCommand()
    else if forall j :: 0 <= j < |ROWS| ==> !NameMatches(argv[0], ROWS[j].name) then
      m' == m && r == UnknownCommand(argv[0])
    else
      exists j :: 0 <= j < |ROWS| && NameMatches(argv[0], ROWS[j].name)
        && if !ArityOk(ROWS[j], |argv|) then m' == m && r == WrongArity(ROWS[j].name)
           else |argv| >= Needs(ROWS[j].command) && Obeys(m, ROWS[j].command, argv, mem, m', r)
  }

  // ---- Lemmas per command -------------------------------------------------

  lemma {:induction false} DelAllMeaning(t: T.Chains, keys: seq<bytes>)
    requires T.WellFormed(t)
    ensures var (t', n) := DelAll(t, keys);
            && T.WellFormed(t')
            && T.ToMap(t') == T.ToMap(t) - KeySet(keys)
            && n == |T.ToMap(t).Keys * KeySet(keys)|
    decreases |keys|
  {
    hide T.WellFormed, T.ToMap, T.Del, T.Lookup;
    var m := T.ToMap(t);
    if keys == [] {
      assert KeySet(keys) == {};
      assert m - {} == m;
    } else {
      var k := keys[0];
      T.DelRefines(t, k);
      T.LookupIsMap(t, k);
      DelAllMeaning(T.Del(t, k), keys[1..]);
      KeySetCons(keys);
      hide KeySet;
      RemoveOneThenAll(m, k, KeySet(keys[1..]));
      KeysWithout(m, k);
      CountOneThenAll(m.Keys, k, KeySet(keys[1..]));
    }
  }

  lemma KeySetCons(keys: seq<bytes>)
    requires keys != []
    ensures KeySet(keys) == {keys[0]} + KeySet(keys[1..])
  {
    assert keys == [keys[0]] + keys[1..];
  }

  lemma RemoveOneThenAll<K, V>(m: map<K, V>, k: K, ks: set<K>)
    ensures m - ({k} + ks) == (m - {k}) - ks
  {
    var a, b := m - ({k} + ks), (m - {k}) - ks;
    forall x ensures (x in a <==> x in b) && (x in a ==> a[x] == b[x]) {
    }
  }

  lemma KeysWithout<K, V>(m: map<K, V>, k: K)
    ensures (m - {k}).Keys == m.Keys - {k}
  {
  }

  lemma CountOneThenAll<K>(a: set<K>, k: K, ks: set<K>)
    ensures |a * ({k} + ks)| == |(a - {k}) * ks| + if k in a then 1 else 0
  {
    var rest := (a - {k}) * ks;
    if k in a {
      assert a * ({k} + ks) == rest + {k};
    } else {
      assert a * ({k} + ks) == rest;
    }
  }

  lemma CountSnoc(t: T.Chains, keys: seq<bytes>, k: bytes)
    requires |t| == T.Hash.BUCKETS
    ensures CountPresent(t, keys + [k]) == CountPresent(t, keys) + if T.Lookup(t, k).Some? then 1 else 0
  {
    hide T.Lookup;
    if keys == [] {
      assert keys + [k] == [k] && [k][1..] == [];
    } else {
      assert (keys + [k])[1..] == keys[1..] + [k];
      CountSnoc(t, keys[1..], k);
    }
  }

  lemma {:induction false} CountMeaning(t: T.Chains, keys: seq<bytes>)
    requires T.WellFormed(t)
    ensures CountPresent(t, keys) == |PresentAt(T.ToMap(t), keys)|
    decreases |keys|
  {
    hide T.WellFormed, T.ToMap, T.Lookup;
    var m := T.ToMap(t);
    if keys == [] {
      assert PresentAt(m, keys) == {};
    } else {
      var n := |keys| - 1;
      var front, k := keys[..n], keys[n];
      CountMeaning(t, front);
      T.LookupIsMap(t, k);
      CountSnoc(t, front, k);
      assert keys == front + [k];
      assert PresentAt(m, keys) == PresentAt(m, front) + (if k in m then {n} else {});
    }
  }

  lemma {:induction false} MatchingMeaning(es: seq<T.Entry>, pattern: bytes) returns (ks: seq<bytes>)
    requires T.DistinctKeys(es)
    ensures Matching(es, pattern) == Bulks(ks)
    ensures forall i, j :: 0 <= i < j < |ks| ==> ks[i] != ks[j]
    ensures forall k :: k in ks <==> k in T.MapOf(es) && Glob.InLanguage(Glob.Tokenise(pattern), k)
    decreases |es|
  {
    hide Glob.InLanguage, Glob.Tokenise;
    if es == [] {
      ks := [];
    } else {
      var k := es[0].key;
      ks := MatchingMeaning(es[1..], pattern);
      T.MapOfKeys(es[1..], k);
      assert k !in T.MapOf(es[1..]);
      if Glob.InLanguage(Glob.Tokenise(pattern), k) {
        assert Bulks([k] + ks) == [Bulk(k)] + Bulks(ks);
        ks := [k] + ks;
      }
    }
  }

  lemma KeysMeaning(t: T.Chains, pattern: bytes)
    requires T.WellFormed(t)
    ensures Lists(T.ToMap(t), pattern, Array(Matching(T.Entries(t), pattern)))
  {
    hide T.WellFormed, Glob.InLanguage, Glob.Tokenise, Matching;
    T.WellFormedDistinct(t);
    var ks := MatchingMeaning(T.Entries(t), pattern);
  }

  /** The handlers that read or write one key. */
  lemma OneKeyObeys(t: T.Chains, c: Command, argv: seq<bytes>, mem: bool)
    requires T.WellFormed(t) && |argv| >= Needs(c)
    requires c in {GET, SET, STRLEN, SETNX, GETSET}
    ensures var (t', r) := Handle(t, c, argv, mem);
            T.WellFormed(t') && Obeys(T.ToMap(t), c, argv, mem, T.ToMap(t'), r)
  {
    hide T.Set, T.Lookup, T.WellFormed, T.ToMap;
    T.LookupIsMap(t, argv[1]);
    if |argv| > 2 {
      T.SetRefines(t, argv[1], argv[2]);
    }
  }

  /** The handlers that look at the whole table, or at nothing. */
  lemma WholeTableObeys(t: T.Chains, c: Command, argv: seq<bytes>, mem: bool)
    requires T.WellFormed(t) && |argv| >= Needs(c)
    requires c in {PING, COMMAND, DEL, EXISTS, KEYS, DBSIZE, FLUSHDB}
    ensures var (t', r) := Handle(t, c, argv, mem);
            T.WellFormed(t') && Obeys(T.ToMap(t), c, argv, mem, T.ToMap(t'), r)
  {
    hide T.Entries, T.Empty, Lists, Matching, DelAll, CountPresent, T.WellFormed, T.ToMap, T.Set, T.Lookup;
    hide IncrBy, Append, Adds, Accepts, SignedValue, FormatInt;
    T.WellFormedDistinct(t);
    T.EmptyIsEmpty();
    if |argv| > 1 {
      DelAllMeaning(t, argv[1..]);
      CountMeaning(t, argv[1..]);
      KeysMeaning(t, argv[1]);
    }
  }

  /** A handler on a well-formed table does to the map what the reference semantics says. */
  lemma HandleObeys(t: T.Chains, c: Command, argv: seq<bytes>, mem: bool)
    requires T.WellFormed(t) && |argv| >= Needs(c)
    ensures var (t', r) := Handle(t, c, argv, mem);
            T.WellFormed(t') && Obeys(T.ToMap(t), c, argv, mem, T.ToMap(t'), r)
  {
    if c in {GET, SET, STRLEN, SETNX, GETSET} {
      hide *;
      OneKeyObeys(t, c, argv, mem);
    } else if c in {PING, COMMAND, DEL, EXISTS, KEYS, DBSIZE, FLUSHDB} {
      hide *;
      WholeTableObeys(t, c, argv, mem);
    } else {
      hide T.WellFormed, T.ToMap, IncrBy, Append, Adds, Accepts, SignedValue;
      match c {
        case INCR => IncrObeys(t, argv[1], 1, mem);
        case DECR => IncrObeys(t, argv[1], -1, mem);
        case INCRBY => if Accepts(argv[2]) { IncrObeys(t, argv[1], SignedValue(argv[2]), mem); }
        case DECRBY => if Accepts(argv[2]) { IncrObeys(t, argv[1], -SignedValue(argv[2]), mem); }
        case APPEND => AppendObeys(t, argv[1], argv[2], mem);
      }
    }
  }

  lemma IncrObeys(t: T.Chains, k: bytes, delta: int, mem: bool)
    requires T.WellFormed(t)
    ensures var (t', r) := IncrBy(t, k, delta, mem);
            T.WellFormed(t') && Adds(T.ToMap(t), k, delta, mem, T.ToMap(t'), r)
  {
    hide T.WellFormed, T.ToMap, T.Set, T.Lookup, Accepts, SignedValue, FormatInt;
    T.LookupIsMap(t, k);
    var was := T.Lookup(t, k);
    if !(was.Some? && !Accepts(was.value)) {
      T.SetRefines(t, k, FormatInt((if was.Some? then SignedValue(was.value) else 0) + delta));
    }
  }

  lemma AppendObeys(t: T.Chains, k: bytes, v: bytes, mem: bool)
    requires T.WellFormed(t)
    ensures var (t', r) := Append(t, k, v, mem);
            && T.WellFormed(t')
            && Obeys(T.ToMap(t), APPEND, [[], k, v], mem, T.ToMap(t'), r)
  {
    hide T.WellFormed, T.ToMap, T.Set, T.Lookup;
    T.LookupIsMap(t, k);
    var was := if T.Lookup(t, k).Some? then T.Lookup(t, k).value else [];
    T.SetRefines(t, k, was + v);
    assert [] + v == v;
  }

  /** Dispatching a request on a well-formed table refines the reference semantics on its map. */
  lemma ExecRefines(t: T.Chains, argv: seq<bytes>, mem: bool)
    requires T.WellFormed(t)
    ensures var (t', r) := Exec(t, argv, mem);
            T.WellFormed(t') && Means(T.ToMap(t), argv, mem, T.ToMap(t'), r)
  {
    hide T.WellFormed, T.ToMap, Handle, Obeys, ROWS, NameMatches, ArityOk;
    if argv != [] {
      var j := FindRow(argv[0], 0);
      FindRowMeaning(argv[0], 0);
      if j < |ROWS| && ArityOk(ROWS[j], |argv|) {
        RowsNeed(j);
        ArityCovers(j, |argv|);
        HandleObeys(t, ROWS[j].command, argv, mem);
      }
    }
  }

  lemma ArityCovers(j: nat, argc: nat)
    requires j < |ROWS| && ArityOk(ROWS[j], argc)
    ensures argc >= Needs(ROWS[j].command)
  {
    RowsNeed(j);
  }

  lemma {:induction false} FindRowMeaning(name: bytes, i: nat)
    requires i <= |ROWS|
    ensures var j := FindRow(name, i);
            && (j < |ROWS| ==> NameMatches(name, ROWS[j].name))
            && forall k :: i <= k < j ==> !NameMatches(name, ROWS[k].name)
    decreases |ROWS| - i
  {
    hide NameMatches, ROWS;
    if i == |ROWS| || NameMatches(name, ROWS[i].name) {
    } else {
      FindRowMeaning(name, i + 1);
    }
  }
}
