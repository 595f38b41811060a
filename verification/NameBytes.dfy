/** Which command a name runs and how many arguments it takes, said in bytes and numbers. */
module NameBytes {
  import opened Bytes
  import opened CommandMeaning
  import opened CommandSpec
  import opened Determinacy
  import T = Table

  /** The upper-case name of a command. */
  function Spelling(c: Command): (n: bytes)
    ensures forall i :: 0 <= i < |n| ==> 65 <= n[i] <= 90
  {
    match c
    case PING => [80, 73, 78, 71]
    case GET => [71, 69, 84]
    case SET => [83, 69, 84]
    case DEL => [68, 69, 76]
    case EXISTS => [69, 88, 73, 83, 84, 83]
    case COMMAND => [67, 79, 77, 77, 65, 78, 68]
    case INCR => [73, 78, 67, 82]
    case DECR => [68, 69, 67, 82]
    case INCRBY => [73, 78, 67, 82, 66, 89]
    case DECRBY => [68, 69, 67, 82, 66, 89]
    case STRLEN => [83, 84, 82, 76, 69, 78]
    case APPEND => [65, 80, 80, 69, 78, 68]
    case KEYS => [75, 69, 89, 83]
    case DBSIZE => [68, 66, 83, 73, 90, 69]
    case FLUSHDB => [70, 76, 85, 83, 72, 68, 66]
    case SETNX => [83, 69, 84, 78, 88]
    case GETSET => [71, 69, 84, 83, 69, 84]
  }

  /** The same letters, each in either case. */
  predicate SameName(name: bytes, n: bytes) {
    |name| == |n| && forall i :: 0 <= i < |n| ==> name[i] == n[i] || name[i] as int == n[i] as int + 32
  }

  lemma NameSpelled(c: Command)
    ensures Ascii(NameOf(c)) == Spelling(c)
  {
    hide Ascii;
    AsciiIs(NameOf(c), Spelling(c));
  }

  lemma MatchesLetters(name: bytes, n: bytes)
    requires forall i :: 0 <= i < |n| ==> 65 <= n[i] <= 90
    ensures NameMatches(name, n) <==> SameName(name, n)
  {
  }

  lemma RowNamed(name: bytes, j: nat)
    requires j < |ROWS|
    ensures NameMatches(name, ROWS[j].name) <==> SameName(name, Spelling(ROWS[j].command))
  {
    hide ROWS, NameMatches, SameName, Ascii, NameOf, Spelling;
    RowName(j);
    NameSpelled(ROWS[j].command);
    MatchesLetters(name, ROWS[j].name);
  }

  /** Every command has its row. */
  lemma RowOf(c: Command)
    ensures Place(c) < |ROWS| && ROWS[Place(c)].command == c
  {
    hide Ascii;
  }

  /** A name runs a command exactly when it is the command's letters, each in either case. */
  lemma NameRuns(name: bytes, c: Command)
    ensures SameName(name, Spelling(c)) <==> FindRow(name, 0) == Place(c)
    ensures FindRow(name, 0) < |ROWS| && ROWS[FindRow(name, 0)].command == c <==> SameName(name, Spelling(c))
  {
    hide ROWS, NameMatches, SameName, Spelling, Place;
    RowOf(c);
    RowNamed(name, Place(c));
    DispatchIsUnique(name, Place(c));
    var j := FindRow(name, 0);
    if j < |ROWS| && ROWS[j].command == c {
      RowPlace(j);
    }
  }

  /** A name is unknown exactly when it is no command's letters. */
  lemma NameUnknown(name: bytes)
    ensures FindRow(name, 0) == |ROWS| <==> forall c :: !SameName(name, Spelling(c))
  {
    hide ROWS, NameMatches, SameName, Spelling, Place;
    forall c ensures SameName(name, Spelling(c)) <==> FindRow(name, 0) == Place(c) && Place(c) < |ROWS| {
      NameRuns(name, c);
      RowOf(c);
    }
    var j := FindRow(name, 0);
    if j < |ROWS| {
      NameRuns(name, ROWS[j].command);
    }
  }

  /** Writing a capital letter small changes nothing. */
  lemma CaseIgnored(name: bytes, i: nat)
    requires i < |name| && 65 <= name[i] <= 90
    ensures FindRow(name[i := name[i] + 32], 0) == FindRow(name, 0)
  {
    hide ROWS, NameMatches, Spelling, Place, SameName;
    var small := name[i := name[i] + 32];
    forall c ensures SameName(small, Spelling(c)) <==> SameName(name, Spelling(c)) {
      SameNameSmall(name, i, Spelling(c));
    }
    NameUnknown(name);
    NameUnknown(small);
    var j := FindRow(name, 0);
    if j < |ROWS| {
      var c := ROWS[j].command;
      NameRuns(name, c);
      NameRuns(small, c);
    }
  }

  lemma SameNameSmall(name: bytes, i: nat, n: bytes)
    requires i < |name| && 65 <= name[i] <= 90 && forall k :: 0 <= k < |n| ==> 65 <= n[k] <= 90
    ensures SameName(name[i := name[i] + 32], n) <==> SameName(name, n)
  {
  }

  /** Any byte other than its two cases makes the name miss the command. */
  lemma OtherByteMisses(c: Command, i: nat, b: byte)
    requires i < |Spelling(c)| && b != Spelling(c)[i] && b != Spelling(c)[i] + 32
    ensures FindRow(Spelling(c)[i := b], 0) != Place(c)
  {
    hide ROWS, NameMatches, Spelling, Place, FindRow;
    NameRuns(Spelling(c)[i := b], c);
  }

  // ---- Argument counts ----------------------------------------------------

  /** How many arguments, the name included, a command takes. */
  predicate TakesCount(c: Command, argc: nat) {
    match c
    case PING => 1 <= argc <= 2
    case GET => argc == 2
    case SET => argc == 3
    case DEL => argc >= 2
    case EXISTS => argc >= 2
    case COMMAND => argc >= 1
    case INCR => argc == 2
    case DECR => argc == 2
    case INCRBY => argc == 3
    case DECRBY => argc == 3
    case STRLEN => argc == 2
    case APPEND => argc == 3
    case KEYS => argc == 2
    case DBSIZE => argc == 1
    case FLUSHDB => argc == 1
    case SETNX => argc == 3
    case GETSET => argc == 3
  }

  lemma RowTakes(j: nat, argc: nat)
    requires j < |ROWS|
    ensures ArityOk(ROWS[j], argc) <==> TakesCount(ROWS[j].command, argc)
  {
    hide Ascii;
  }

  /** A request runs its command when the count is right, and otherwise changes nothing and is answered
      by the arity error that names the command. */
  lemma WhatRuns(t: T.Chains, argv: seq<bytes>, mem: bool, c: Command)
    requires |t| == T.Hash.BUCKETS && argv != [] && SameName(argv[0], Spelling(c))
    ensures if TakesCount(c, |argv|) then |argv| >= Needs(c) && Exec(t, argv, mem) == Handle(t, c, argv, mem)
            else Exec(t, argv, mem) == (t, WrongArity(Spelling(c)))
  {
    hide ROWS, NameMatches, SameName, Spelling, Place, FindRow, Handle, ArityOk, TakesCount, WrongArity, Ascii, NameOf;
    NameRuns(argv[0], c);
    var j := FindRow(argv[0], 0);
    RowTakes(j, |argv|);
    RowsNeed(j);
    RowName(j);
    NameSpelled(c);
    if TakesCount(c, |argv|) {
      ArityCovers(j, |argv|);
    }
  }

  /** A request whose name is no command's letters changes nothing and is answered by the error that
      echoes the name. */
  lemma NothingRuns(t: T.Chains, argv: seq<bytes>, mem: bool)
    requires |t| == T.Hash.BUCKETS && argv != [] && forall c :: !SameName(argv[0], Spelling(c))
    ensures Exec(t, argv, mem) == (t, UnknownCommand(argv[0]))
  {
    hide ROWS, NameMatches, SameName, Spelling, FindRow, Handle, ArityOk, UnknownCommand;
    NameUnknown(argv[0]);
  }
}
