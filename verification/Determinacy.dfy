/** The reference semantics of a request is a function, up to the order in which KEYS lists. */
module Determinacy {
  import opened Bytes
  import opened Decimal
  import opened Reply
  import opened CommandSpec
  import opened CommandMeaning
  import Glob

  // ---- Rows ---------------------------------------------------------------

  function NameOf(c: Command): (s: string)
    ensures |s| > 1
  {
    match c
    case PING => "PING"
    case GET => "GET"
    case SET => "SET"
    case DEL => "DEL"
    case EXISTS => "EXISTS"
    case COMMAND => "COMMAND"
    case INCR => "INCR"
    case DECR => "DECR"
    case INCRBY => "INCRBY"
    case DECRBY => "DECRBY"
    case STRLEN => "STRLEN"
    case APPEND => "APPEND"
    case KEYS => "KEYS"
    case DBSIZE => "DBSIZE"
    case FLUSHDB => "FLUSHDB"
    case SETNX => "SETNX"
    case GETSET => "GETSET"
  }

  lemma RowName(j: nat)
    requires j < |ROWS|
    ensures ROWS[j].name == Ascii(NameOf(ROWS[j].command))
  {
    hide Ascii;
  }

  lemma AsciiPrint(s: string)
    requires |s| > 1 && s[0] as int < 256 && s[1] as int < 256
    ensures |Ascii(s)| == |s| && Ascii(s)[0] == s[0] as int && Ascii(s)[1] == s[1] as int
  {
  }

  lemma PlainStart(c: Command)
    ensures NameOf(c)[0] as int < 256 && NameOf(c)[1] as int < 256
  {
  }

  /** The place of a command in the table. */
  function Place(c: Command): nat {
    match c
    case PING => 0
    case GET => 1
    case SET => 2
    case DEL => 3
    case EXISTS => 4
    case COMMAND => 5
    case INCR => 6
    case DECR => 7
    case INCRBY => 8
    case DECRBY => 9
    case STRLEN => 10
    case APPEND => 11
    case KEYS => 12
    case DBSIZE => 13
    case FLUSHDB => 14
    case SETNX => 15
    case GETSET => 16
  }

  lemma RowPlace(j: nat)
    requires j < |ROWS|
    ensures Place(ROWS[j].command) == j
  {
    hide Ascii;
  }

  /** Length and first two characters tell the names apart. */
  lemma NamesDiffer(c: Command, d: Command)
    requires |NameOf(c)| == |NameOf(d)| && NameOf(c)[0] == NameOf(d)[0] && NameOf(c)[1] == NameOf(d)[1]
    ensures c == d
  {
  }

  /** No name is matched by two rows. */
  lemma RowUnique(name: bytes, i: nat, j: nat)
    requires i < |ROWS| && j < |ROWS| && NameMatches(name, ROWS[i].name) && NameMatches(name, ROWS[j].name)
    ensures i == j
  {
    hide ROWS, Place, NameOf, Ascii;
    var c, d := ROWS[i].command, ROWS[j].command;
    RowName(i);
    RowName(j);
    PlainStart(c);
    PlainStart(d);
    AsciiPrint(NameOf(c));
    AsciiPrint(NameOf(d));
    assert ROWS[i].name[0] == Upper(name[0]) == ROWS[j].name[0];
    assert ROWS[i].name[1] == Upper(name[1]) == ROWS[j].name[1];
    NamesDiffer(c, d);
    RowPlace(i);
    RowPlace(j);
  }

  /** The row a name is dispatched to is the only one it equals up to case. */
  lemma DispatchIsUnique(name: bytes, j: nat)
    requires j < |ROWS|
    ensures FindRow(name, 0) == j <==> NameMatches(name, ROWS[j].name)
    ensures FindRow(name, 0) == |ROWS| ==> !NameMatches(name, ROWS[j].name)
  {
    hide ROWS, NameMatches;
    FindRowMeaning(name, 0);
    var i := FindRow(name, 0);
    if i < |ROWS| && NameMatches(name, ROWS[j].name) {
      RowUnique(name, i, j);
    }
  }

  // ---- Requests -----------------------------------------------------------

  /** Only the order in which KEYS lists is left open. */
  ghost predicate SameUpToOrder(c: Command, r: Reply, s: Reply) {
    if c == KEYS then
      && r.Array? && s.Array?
      && forall e :: e in r.elems <==> e in s.elems
    else r == s
  }

  lemma WritesDetermines(m: Dict, k: bytes, v: bytes, answer: Reply, mem: bool, m1: Dict, r1: Reply, m2: Dict,
      r2: Reply)
    requires Writes(m, k, v, answer, mem, m1, r1) && Writes(m, k, v, answer, mem, m2, r2)
    ensures m1 == m2 && r1 == r2
  {
    hide Oom;
  }

  lemma AddsDetermines(m: Dict, k: bytes, delta: int, mem: bool, m1: Dict, r1: Reply, m2: Dict, r2: Reply)
    requires Adds(m, k, delta, mem, m1, r1) && Adds(m, k, delta, mem, m2, r2)
    ensures m1 == m2 && r1 == r2
  {
    hide Oom, NotInteger, WouldOverflow, Accepts, SignedValue, FormatInt;
  }

  lemma CountingDetermines(m: Dict, c: Command, argv: seq<bytes>, mem: bool, m1: Dict, r1: Reply, m2: Dict, r2: Reply)
    requires |argv| >= Needs(c) && Obeys(m, c, argv, mem, m1, r1) && Obeys(m, c, argv, mem, m2, r2)
    requires c in {INCR, DECR, INCRBY, DECRBY}
    ensures m1 == m2 && SameUpToOrder(c, r1, r2)
  {
    hide Accepts, SignedValue, Adds, NotInteger;
    match c {
      case INCR => AddsDetermines(m, argv[1], 1, mem, m1, r1, m2, r2);
      case DECR => AddsDetermines(m, argv[1], -1, mem, m1, r1, m2, r2);
      case INCRBY =>
        if Accepts(argv[2]) {
          AddsDetermines(m, argv[1], SignedValue(argv[2]), mem, m1, r1, m2, r2);
        }
      case DECRBY =>
        if Accepts(argv[2]) {
          AddsDetermines(m, argv[1], -SignedValue(argv[2]), mem, m1, r1, m2, r2);
        }
    }
  }

  lemma WritingDetermines(m: Dict, c: Command, argv: seq<bytes>, mem: bool, m1: Dict, r1: Reply, m2: Dict, r2: Reply)
    requires |argv| >= Needs(c) && Obeys(m, c, argv, mem, m1, r1) && Obeys(m, c, argv, mem, m2, r2)
    requires c in {SET, GETSET, SETNX, APPEND}
    ensures m1 == m2 && SameUpToOrder(c, r1, r2)
  {
    hide Writes, OldValue, Ok, TooLong;
    match c {
      case SET => WritesDetermines(m, argv[1], argv[2], Ok(), mem, m1, r1, m2, r2);
      case GETSET => WritesDetermines(m, argv[1], argv[2], OldValue(m, argv[1]), mem, m1, r1, m2, r2);
      case SETNX =>
        if argv[1] !in m {
          WritesDetermines(m, argv[1], argv[2], Int(1), mem, m1, r1, m2, r2);
        }
      case APPEND =>
        var was := if argv[1] in m then m[argv[1]] else [];
        if !(argv[1] in m && |was| + |argv[2]| > SIZE_MAX) {
          WritesDetermines(m, argv[1], was + argv[2], Int(|was| + |argv[2]|), mem, m1, r1, m2, r2);
        }
    }
  }

  lemma OthersDetermine(m: Dict, c: Command, argv: seq<bytes>, mem: bool, m1: Dict, r1: Reply, m2: Dict, r2: Reply)
    requires |argv| >= Needs(c) && Obeys(m, c, argv, mem, m1, r1) && Obeys(m, c, argv, mem, m2, r2)
    requires c !in {INCR, DECR, INCRBY, DECRBY, SET, GETSET, SETNX, APPEND}
    ensures m1 == m2 && SameUpToOrder(c, r1, r2)
  {
    hide Lists, Ascii, OldValue, KeySet, PresentAt, Ok;
    if c == KEYS {
      SameLists(m, argv[1], r1, r2);
    }
  }

  lemma ObeysDetermines(m: Dict, c: Command, argv: seq<bytes>, mem: bool, m1: Dict, r1: Reply, m2: Dict, r2: Reply)
    requires |argv| >= Needs(c) && Obeys(m, c, argv, mem, m1, r1) && Obeys(m, c, argv, mem, m2, r2)
    ensures m1 == m2 && SameUpToOrder(c, r1, r2)
  {
    hide Obeys, SameUpToOrder;
    if c in {INCR, DECR, INCRBY, DECRBY} {
      CountingDetermines(m, c, argv, mem, m1, r1, m2, r2);
    } else if c in {SET, GETSET, SETNX, APPEND} {
      WritingDetermines(m, c, argv, mem, m1, r1, m2, r2);
    } else {
      OthersDetermine(m, c, argv, mem, m1, r1, m2, r2);
    }
  }

  lemma SameLists(m: Dict, pattern: bytes, r1: Reply, r2: Reply)
    requires Lists(m, pattern, r1) && Lists(m, pattern, r2)
    ensures r1.Array? && r2.Array? && forall e :: e in r1.elems <==> e in r2.elems
  {
    ListedIff(m, pattern, r1);
    ListedIff(m, pattern, r2);
  }

  lemma ListedIff(m: Dict, pattern: bytes, r: Reply)
    requires Lists(m, pattern, r)
    ensures r.Array?
    ensures forall e :: e in r.elems <==> e.Bulk? && e.b in m && Glob.InLanguage(Glob.Tokenise(pattern), e.b)
  {
    hide Glob.InLanguage, Glob.Tokenise;
    var ks: seq<bytes> :| r == Array(Bulks(ks))
      && (forall i, j :: 0 <= i < j < |ks| ==> ks[i] != ks[j])
      && (forall k :: k in ks <==> k in m && Glob.InLanguage(Glob.Tokenise(pattern), k));
    forall e ensures e in r.elems <==> e.Bulk? && e.b in m && Glob.InLanguage(Glob.Tokenise(pattern), e.b) {
      if e.Bulk? && e.b in ks {
        var i :| 0 <= i < |ks| && ks[i] == e.b;
        assert r.elems[i] == e;
      }
      if e in r.elems {
        var i :| 0 <= i < |ks| && r.elems[i] == e;
        assert ks[i] in ks;
      }
    }
  }

  /** The command a request is dispatched to. */
  ghost predicate Dispatched(argv: seq<bytes>, c: Command) {
    argv != [] && exists j :: 0 <= j < |ROWS| && NameMatches(argv[0], ROWS[j].name) && ROWS[j].command == c
  }

  /** The reference semantics fixes the next map, and the reply up to the order of a KEYS list. */
  lemma MeansDetermines(m: Dict, argv: seq<bytes>, mem: bool, m1: Dict, r1: Reply, m2: Dict, r2: Reply)
    requires Means(m, argv, mem, m1, r1) && Means(m, argv, mem, m2, r2)
    ensures m1 == m2
    ensures r1 == r2 || (Dispatched(argv, KEYS) && SameUpToOrder(KEYS, r1, r2))
  {
    hide ROWS, NameMatches, ArityOk, Obeys, SameUpToOrder, EmptyCommand, UnknownCommand, WrongArity;
    if argv != [] && !(forall j :: 0 <= j < |ROWS| ==> !NameMatches(argv[0], ROWS[j].name)) {
      var i := MeansByRow(m, argv, mem, m1, r1);
      var j := MeansByRow(m, argv, mem, m2, r2);
      RowUnique(argv[0], i, j);
      if ArityOk(ROWS[i], |argv|) {
        var c := ROWS[i].command;
        ObeysDetermines(m, c, argv, mem, m1, r1, m2, r2);
        if c != KEYS {
          OrderOnlyForKeys(c, r1, r2);
        }
      }
    }
  }

  lemma MeansByRow(m: Dict, argv: seq<bytes>, mem: bool, m': Dict, r: Reply) returns (j: nat)
    requires argv != [] && Means(m, argv, mem, m', r)
    requires exists j :: 0 <= j < |ROWS| && NameMatches(argv[0], ROWS[j].name)
    ensures j < |ROWS| && NameMatches(argv[0], ROWS[j].name)
    ensures if !ArityOk(ROWS[j], |argv|) then m' == m && r == WrongArity(ROWS[j].name)
            else |argv| >= Needs(ROWS[j].command) && Obeys(m, ROWS[j].command, argv, mem, m', r)
  {
    hide ROWS, NameMatches, ArityOk, Obeys, EmptyCommand, UnknownCommand, WrongArity;
    j :| 0 <= j < |ROWS| && NameMatches(argv[0], ROWS[j].name)
      && if !ArityOk(ROWS[j], |argv|) then m' == m && r == WrongArity(ROWS[j].name)
         else |argv| >= Needs(ROWS[j].command) && Obeys(m, ROWS[j].command, argv, mem, m', r);
  }

  lemma OrderOnlyForKeys(c: Command, r: Reply, s: Reply)
    requires c != KEYS && SameUpToOrder(c, r, s)
    ensures r == s
  {
  }
}
