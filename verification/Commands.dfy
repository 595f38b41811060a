/** The command handlers over the table on the heap and the reply queue. */
module Commands {
  import opened Bytes
  import opened ByteBuffer
  import opened CommandMeaning
  import opened CommandSpec
  import opened Decimal
  import opened Environment
  import opened HashTable
  import opened KeysScan
  import opened Reply
  import opened ReplyWriter
  import Hash
  import Resp
  import T = Table

  /** Table and queue are valid and live apart. */
  ghost predicate Ready(store: HashTable, out: ByteBuf)
    reads store, store.Repr, out, out.data
    ensures Ready(store, out) ==> store.Valid() && out.Valid()
  {
    && store.Valid() && out.Valid()
    && out !in store.Repr && (out.data != null ==> out.data !in store.Repr)
  }

  /** The table is the outcome's, the queue held `before` and the outcome's reply was written to
      it, and the two objects are valid and apart. */
  ghost predicate Executed(store: HashTable, out: ByteBuf, before: bytes, outcome: Outcome, ok: bool, refused: bool)
    reads store, store.Repr, out, out.data
    ensures Executed(store, out, before, outcome, ok, refused) ==> Ready(store, out)
  {
    && Ready(store, out)
    && store.table == outcome.0
    && Wrote(before, out.Contents(), Encode(outcome.1), ok, refused)
  }

  /** Append a reply while the table stays as it is. */
  method Answer(store: HashTable, out: ByteBuf, r: Reply) returns (ok: bool, ghost refused: bool)
    requires Ready(store, out) && (r.Simple? || r.Error? || r.Int? || r.Bulk? || r.Nil?)
    modifies out, out.data
    ensures out.data == old(out.data) || fresh(out.data)
    ensures Executed(store, out, old(out.Contents()), (old(store.table), r), ok, refused)
    ensures store.Repr == old(store.Repr)
  {
    hide Encode;
    match r {
      case Simple(text) => ok, refused := ReplySimple(out, text);
      case Error(text) => ok, refused := ReplyError(out, text);
      case Int(n) => ok, refused := ReplyInt(out, n);
      case Bulk(b) => ok, refused := ReplyBulk(out, b);
      case Nil => ok, refused := ReplyNil(out);
    }
  }

  method CmdPing(store: HashTable, out: ByteBuf, argv: seq<bytes>)
    returns (ok: bool, ghost refused: bool, ghost mem: bool)
    requires Ready(store, out) && 1 <= |argv| <= 2
    modifies store.Repr, out, out.data
    ensures out.data == old(out.data) || fresh(out.data)
    ensures fresh(store.Repr - old(store.Repr))
    ensures MEMORY_LASTS ==> mem
    ensures Executed(store, out, old(out.Contents()),
            (old(store.table), if |argv| == 1 then Simple(Ascii("PONG")) else Bulk(argv[1])), ok, refused)
  {
    hide Wrote, Encode, Ascii, Executed, Ready, HashTable.Valid, ByteBuf.Valid, ByteBuf.Contents;
    mem := true;
    if |argv| == 1 {
      ok, refused := Answer(store, out, Simple(Ascii("PONG")));
      return;
    }
    ok, refused := Answer(store, out, Bulk(argv[1]));
  }

  method CmdGet(store: HashTable, out: ByteBuf, argv: seq<bytes>)
    returns (ok: bool, ghost refused: bool, ghost mem: bool)
    requires Ready(store, out) && |argv| == 2
    modifies store.Repr, out, out.data
    ensures out.data == old(out.data) || fresh(out.data)
    ensures fresh(store.Repr - old(store.Repr))
    ensures MEMORY_LASTS ==> mem
    ensures Executed(store, out, old(out.Contents()),
            (old(store.table), BulkOrNil(T.Lookup(old(store.table), argv[1]))), ok, refused)
  {
    hide Ready, HashTable.Valid, ByteBuf.Valid, ByteBuf.Contents, Wrote, Encode, T.Lookup, Executed;
    mem := true;
    var hit, val := store.Get(argv[1]);
    if hit {
      ok, refused := Answer(store, out, Bulk(val));
      return;
    }
    ok, refused := Answer(store, out, Nil);
  }

  /** Store a value, then answer: the shared tail of the writing handlers. */
  method StoreAndAnswer(store: HashTable, out: ByteBuf, k: bytes, v: bytes, answer: Reply)
    returns (ok: bool, ghost refused: bool, ghost mem: bool)
    requires Ready(store, out) && (answer.Simple? || answer.Int? || answer.Bulk? || answer.Nil?)
    modifies store.Repr, out, out.data
    ensures out.data == old(out.data) || fresh(out.data)
    ensures fresh(store.Repr - old(store.Repr))
    ensures MEMORY_LASTS ==> mem
    ensures Executed(store, out, old(out.Contents()), Store(old(store.table), k, v, mem, answer), ok, refused)
  {
    hide Wrote, Encode, T.Set, Oom;
    var stored := store.Set(k, v);
    mem := stored;
    if !stored {
      ok, refused := Answer(store, out, Oom());
      return;
    }
    ok, refused := Answer(store, out, answer);
  }

  method CmdSet(store: HashTable, out: ByteBuf, argv: seq<bytes>)
    returns (ok: bool, ghost refused: bool, ghost mem: bool)
    requires Ready(store, out) && |argv| == 3
    modifies store.Repr, out, out.data
    ensures out.data == old(out.data) || fresh(out.data)
    ensures fresh(store.Repr - old(store.Repr))
    ensures MEMORY_LASTS ==> mem
    ensures Executed(store, out, old(out.Contents()),
            Store(old(store.table), argv[1], argv[2], mem, CommandSpec.Ok()), ok, refused)
  {
    hide Executed, Ready, HashTable.Valid, ByteBuf.Valid, ByteBuf.Contents, Wrote, Encode;
    ok, refused, mem := StoreAndAnswer(store, out, argv[1], argv[2], CommandSpec.Ok());
  }

  method CmdDel(store: HashTable, out: ByteBuf, argv: seq<bytes>)
    returns (ok: bool, ghost refused: bool, ghost mem: bool)
    requires Ready(store, out) && |argv| >= 2
    modifies store.Repr, out, out.data
    ensures out.data == old(out.data) || fresh(out.data)
    ensures fresh(store.Repr - old(store.Repr))
    ensures MEMORY_LASTS ==> mem
    ensures Executed(store, out, old(out.Contents()), DelOutcome(old(store.table), argv[1..]), ok, refused)
  {
    hide Wrote, Encode, T.Del, T.Lookup, DelAll, Executed, HashTable.Valid, ByteBuf.Valid, ByteBuf.Contents;
    mem := true;
    var deleted: nat := 0;
    ghost var t0 := store.table;
    SliceEnds(argv, 1);
    DelNone(store.table);
    for i := 1 to |argv|
      invariant Ready(store, out) && store.Repr == old(store.Repr)
      invariant out.Contents() == old(out.Contents()) && out.data == old(out.data)
      invariant DelAll(t0, argv[1..i]) == (store.table, deleted)
      modifies store.Repr
    {
      DelSnoc(t0, argv[1..i], argv[i]);
      SliceSnoc(argv, 1, i);
      var hit := store.Del(argv[i]);
      if hit {
        deleted := deleted + 1;
      }
    }
    ok, refused := Answer(store, out, Int(deleted));
  }

  lemma DelNone(t: T.Chains)
    requires |t| == Hash.BUCKETS
    ensures DelAll(t, []) == (t, 0)
  {
  }

  lemma {:induction false} DelSnoc(t: T.Chains, keys: seq<bytes>, k: bytes)
    requires |t| == Hash.BUCKETS
    ensures var (t', n) := DelAll(t, keys);
            DelAll(t, keys + [k]) == (T.Del(t', k), n + if T.Lookup(t', k).Some? then 1 else 0)
    decreases |keys|
  {
    hide T.Del, T.Lookup;
    if keys == [] {
      assert keys + [k] == [k] && [k][1..] == [];
    } else {
      assert (keys + [k])[1..] == keys[1..] + [k];
      DelSnoc(T.Del(t, keys[0]), keys[1..], k);
    }
  }

  method CmdExists(store: HashTable, out: ByteBuf, argv: seq<bytes>)
    returns (ok: bool, ghost refused: bool, ghost mem: bool)
    requires Ready(store, out) && |argv| >= 2
    modifies store.Repr, out, out.data
    ensures out.data == old(out.data) || fresh(out.data)
    ensures fresh(store.Repr - old(store.Repr))
    ensures MEMORY_LASTS ==> mem
    ensures Executed(store, out, old(out.Contents()),
            (old(store.table), Int(CountPresent(old(store.table), argv[1..]))), ok, refused)
  {
    hide Wrote, Encode, T.Lookup, CountPresent, Executed, Ready, HashTable.Valid, ByteBuf.Valid, ByteBuf.Contents;
    mem := true;
    var found: nat := 0;
    SliceEnds(argv, 1);
    CountNone(store.table);
    for i := 1 to |argv|
      invariant CountPresent(store.table, argv[1..i]) == found
      modifies {}
    {
      CountSnoc(store.table, argv[1..i], argv[i]);
      SliceSnoc(argv, 1, i);
      var hit, _ := store.Get(argv[i]);
      if hit {
        found := found + 1;
      }
    }
    ok, refused := Answer(store, out, Int(found));
  }

  lemma CountNone(t: T.Chains)
    requires |t| == Hash.BUCKETS
    ensures CountPresent(t, []) == 0
  {
  }

  /** The argument-blind empty array. */
  method CmdCommand(store: HashTable, out: ByteBuf, argv: seq<bytes>)
    returns (ok: bool, ghost refused: bool, ghost mem: bool)
    requires Ready(store, out) && |argv| >= 1
    modifies store.Repr, out, out.data
    ensures out.data == old(out.data) || fresh(out.data)
    ensures fresh(store.Repr - old(store.Repr))
    ensures MEMORY_LASTS ==> mem
    ensures Executed(store, out, old(out.Contents()), (old(store.table), Array([])), ok, refused)
  {
    hide Wrote, Encode, HashTable.Valid, ByteBuf.Valid, ByteBuf.Contents;
    mem := true;
    ok, refused := ReplyArrayHeader(out, 0);
    EncodeEmptyArray();
  }

  lemma EncodeEmptyArray()
    ensures Encode(Array([])) == [STAR] + Resp.Header(0)
  {
    assert [STAR] + Resp.Header(0) + [] == [STAR] + Resp.Header(0);
  }

  // ---- Integer arithmetic -------------------------------------------------

  /** The shared core: read, add with an overflow check on `int64`, store, answer. */
  method IncrbyOp(store: HashTable, out: ByteBuf, key: bytes, delta: int64)
    returns (ok: bool, ghost refused: bool, ghost mem: bool)
    requires Ready(store, out)
    modifies store.Repr, out, out.data
    ensures out.data == old(out.data) || fresh(out.data)
    ensures fresh(store.Repr - old(store.Repr))
    ensures MEMORY_LASTS ==> mem
    ensures Executed(store, out, old(out.Contents()), IncrBy(old(store.table), key, delta as int, mem), ok, refused)
  {
    hide Ready, HashTable.Valid, ByteBuf.Valid, ByteBuf.Contents, Wrote, Encode, T.Lookup, Accepts, SignedValue,
        FormatInt, Oom, NotInteger, WouldOverflow, TooLong, CommandSpec.Ok, Executed;
    mem := true;
    var cur: int64 := 0;
    var hit, text := store.Get(key);
    if hit {
      var parsed, v := ParseInt64(text);
      if !parsed {
        ok, refused := Answer(store, out, NotInteger());
        return;
      }
      cur := v;
    }
    if (delta > 0 && cur > 0x7fff_ffff_ffff_ffff - delta) ||
       (delta < 0 && cur < -0x8000_0000_0000_0000 - delta) {
      ok, refused := Answer(store, out, WouldOverflow());
      return;
    }
    var next := cur + delta;
    ok, refused, mem := StoreAndAnswer(store, out, key, FormatInt(next as int), Int(next as int));
  }

  method CmdIncr(store: HashTable, out: ByteBuf, argv: seq<bytes>)
    returns (ok: bool, ghost refused: bool, ghost mem: bool)
    requires Ready(store, out) && |argv| == 2
    modifies store.Repr, out, out.data
    ensures out.data == old(out.data) || fresh(out.data)
    ensures fresh(store.Repr - old(store.Repr))
    ensures MEMORY_LASTS ==> mem
    ensures Executed(store, out, old(out.Contents()), IncrBy(old(store.table), argv[1], 1, mem), ok, refused)
  {
    hide Executed, Ready, IncrBy, HashTable.Valid, ByteBuf.Valid, ByteBuf.Contents, Wrote, Encode;
    ok, refused, mem := IncrbyOp(store, out, argv[1], 1);
  }

  method CmdDecr(store: HashTable, out: ByteBuf, argv: seq<bytes>)
    returns (ok: bool, ghost refused: bool, ghost mem: bool)
    requires Ready(store, out) && |argv| == 2
    modifies store.Repr, out, out.data
    ensures out.data == old(out.data) || fresh(out.data)
    ensures fresh(store.Repr - old(store.Repr))
    ensures MEMORY_LASTS ==> mem
    ensures Executed(store, out, old(out.Contents()), IncrBy(old(store.table), argv[1], -1, mem), ok, refused)
  {
    hide Executed, Ready, IncrBy, HashTable.Valid, ByteBuf.Valid, ByteBuf.Contents, Wrote, Encode;
    ok, refused, mem := IncrbyOp(store, out, argv[1], -1);
  }

  method CmdIncrby(store: HashTable, out: ByteBuf, argv: seq<bytes>)
    returns (ok: bool, ghost refused: bool, ghost mem: bool)
    requires Ready(store, out) && |argv| == 3
    modifies store.Repr, out, out.data
    ensures out.data == old(out.data) || fresh(out.data)
    ensures fresh(store.Repr - old(store.Repr))
    ensures MEMORY_LASTS ==> mem
    ensures Executed(store, out, old(out.Contents()),
            IncrByText(old(store.table), argv[1], argv[2], 1, mem), ok, refused)
  {
    hide Ready, HashTable.Valid, ByteBuf.Valid, ByteBuf.Contents, Wrote, Encode, IncrBy, Accepts, SignedValue, Oom,
        NotInteger, WouldOverflow, TooLong, CommandSpec.Ok, Executed;
    var parsed, delta := ParseInt64(argv[2]);
    if !parsed {
      mem := true;
      ok, refused := Answer(store, out, NotInteger());
      return;
    }
    ok, refused, mem := IncrbyOp(store, out, argv[1], delta);
  }

  method CmdDecrby(store: HashTable, out: ByteBuf, argv: seq<bytes>)
    returns (ok: bool, ghost refused: bool, ghost mem: bool)
    requires Ready(store, out) && |argv| == 3
    modifies store.Repr, out, out.data
    ensures out.data == old(out.data) || fresh(out.data)
    ensures fresh(store.Repr - old(store.Repr))
    ensures MEMORY_LASTS ==> mem
    ensures Executed(store, out, old(out.Contents()),
            IncrByText(old(store.table), argv[1], argv[2], -1, mem), ok, refused)
  {
    hide Ready, HashTable.Valid, ByteBuf.Valid, ByteBuf.Contents, Wrote, Encode, IncrBy, Accepts, SignedValue, Oom,
        NotInteger, WouldOverflow, TooLong, CommandSpec.Ok, Executed;
    var parsed, delta := ParseInt64(argv[2]);
    if !parsed {
      mem := true;
      ok, refused := Answer(store, out, NotInteger());
      return;
    }
    if delta == -0x8000_0000_0000_0000 {
      assert false; // out of the reader's range, so the negation below cannot overflow
    }
    ok, refused, mem := IncrbyOp(store, out, argv[1], -delta);
  }

  // ---- Strings ------------------------------------------------------------

  method CmdStrlen(store: HashTable, out: ByteBuf, argv: seq<bytes>)
    returns (ok: bool, ghost refused: bool, ghost mem: bool)
    requires Ready(store, out) && |argv| == 2
    modifies store.Repr, out, out.data
    ensures out.data == old(out.data) || fresh(out.data)
    ensures fresh(store.Repr - old(store.Repr))
    ensures MEMORY_LASTS ==> mem
    ensures Executed(store, out, old(out.Contents()),
            (old(store.table), LengthOf(T.Lookup(old(store.table), argv[1]))), ok, refused)
  {
    hide Ready, HashTable.Valid, ByteBuf.Valid, ByteBuf.Contents, Wrote, Encode, T.Lookup, Executed;
    mem := true;
    var hit, val := store.Get(argv[1]);
    if hit {
      ok, refused := Answer(store, out, Int(|val|));
      return;
    }
    ok, refused := Answer(store, out, Int(0));
  }

  /** Concatenate in a scratch allocation that may be refused. */
  method CmdAppend(store: HashTable, out: ByteBuf, argv: seq<bytes>)
    returns (ok: bool, ghost refused: bool, ghost mem: bool)
    requires Ready(store, out) && |argv| == 3
    modifies store.Repr, out, out.data
    ensures out.data == old(out.data) || fresh(out.data)
    ensures fresh(store.Repr - old(store.Repr))
    ensures MEMORY_LASTS ==> mem
    ensures Executed(store, out, old(out.Contents()), Append(old(store.table), argv[1], argv[2], mem), ok, refused)
  {
    hide Ready, HashTable.Valid, ByteBuf.Valid, ByteBuf.Contents, Wrote, Encode, T.Lookup, Oom, NotInteger,
        WouldOverflow, TooLong, CommandSpec.Ok, Executed;
    var key, val := argv[1], argv[2];
    var hit, was := store.Get(key);
    if !hit {
      ok, refused, mem := StoreAndAnswer(store, out, key, val, Int(|val|));
      return;
    }
    mem := true;
    if |val| > SIZE_MAX - |was| {
      ok, refused := Answer(store, out, TooLong());
      return;
    }
    var newlen := |was| + |val|;
    var got := Malloc();
    if !got {
      mem := false;
      ok, refused := Answer(store, out, Oom());
      return;
    }
    ok, refused, mem := StoreAndAnswer(store, out, key, was + val, Int(newlen));
  }

  // ---- Keyspace -----------------------------------------------------------

  /** Two passes: count, announce, emit. */
  method CmdKeys(store: HashTable, out: ByteBuf, argv: seq<bytes>)
    returns (ok: bool, ghost refused: bool, ghost mem: bool)
    requires Ready(store, out) && |argv| == 2
    modifies store.Repr, out, out.data
    ensures out.data == old(out.data) || fresh(out.data)
    ensures fresh(store.Repr - old(store.Repr))
    ensures MEMORY_LASTS ==> mem
    ensures Executed(store, out, old(out.Contents()),
            (old(store.table), Array(Matching(T.Entries(old(store.table)), argv[1]))), ok, refused)
  {
    hide Wrote, Encode, EncodeMany, Matching, T.Entries, HashTable.Valid, ByteBuf.Valid, ByteBuf.Contents;
    mem := true;
    ghost var hits := Matching(T.Entries(store.table), argv[1]);
    EncodeArray(hits);
    ghost var s0 := out.Contents();
    var kc := new KeysCtx(out, argv[1]);
    var visited;
    visited, refused := Scan(store, kc);
    ok, refused := ReplyArrayHeader(out, kc.matched);
    if !ok {
      FailedEarly(s0, out.Contents(), [STAR] + Resp.Header(|hits|), EncodeMany(hits), refused);
      return;
    }
    ghost var s1, r1 := out.Contents(), refused;
    kc.matched, kc.write := 0, true;
    visited, refused := Scan(store, kc);
    ok := !kc.emitFailed;
    WroteThenMore(s0, s1, out.Contents(), [STAR] + Resp.Header(|hits|), EncodeMany(hits), r1, ok, refused);
  }

  lemma EncodeArray(elems: seq<Reply>)
    ensures Encode(Array(elems)) == [STAR] + Resp.Header(|elems|) + EncodeMany(elems)
  {
  }

  method CmdDbsize(store: HashTable, out: ByteBuf, argv: seq<bytes>)
    returns (ok: bool, ghost refused: bool, ghost mem: bool)
    requires Ready(store, out) && |argv| == 1
    modifies store.Repr, out, out.data
    ensures out.data == old(out.data) || fresh(out.data)
    ensures fresh(store.Repr - old(store.Repr))
    ensures MEMORY_LASTS ==> mem
    ensures Executed(store, out, old(out.Contents()),
            (old(store.table), Int(|T.Entries(old(store.table))|)), ok, refused)
  {
    hide Wrote, Encode, T.Entries, Executed, HashTable.Valid, ByteBuf.Valid, ByteBuf.Contents;
    mem := true;
    ok, refused := Answer(store, out, Int(store.count));
  }

  method CmdFlushdb(store: HashTable, out: ByteBuf, argv: seq<bytes>)
    returns (ok: bool, ghost refused: bool, ghost mem: bool)
    requires Ready(store, out) && |argv| == 1
    modifies store.Repr, out, out.data
    ensures out.data == old(out.data) || fresh(out.data)
    ensures fresh(store.Repr - old(store.Repr))
    ensures MEMORY_LASTS ==> mem
    ensures Executed(store, out, old(out.Contents()), (T.Empty(), CommandSpec.Ok()), ok, refused)
  {
    hide Wrote, Encode, T.Empty, Oom, NotInteger, WouldOverflow, TooLong, CommandSpec.Ok, Executed, HashTable.Valid,
        ByteBuf.Valid, ByteBuf.Contents;
    mem := true;
    store.Destroy();
    store.Init();
    ok, refused := Answer(store, out, CommandSpec.Ok());
  }

  // ---- Atomic variants ----------------------------------------------------

  method CmdSetnx(store: HashTable, out: ByteBuf, argv: seq<bytes>)
    returns (ok: bool, ghost refused: bool, ghost mem: bool)
    requires Ready(store, out) && |argv| == 3
    modifies store.Repr, out, out.data
    ensures out.data == old(out.data) || fresh(out.data)
    ensures fresh(store.Repr - old(store.Repr))
    ensures MEMORY_LASTS ==> mem
    ensures Executed(store, out, old(out.Contents()),
            SetIfMissing(old(store.table), argv[1], argv[2], mem), ok, refused)
  {
    hide Ready, HashTable.Valid, ByteBuf.Valid, ByteBuf.Contents, Wrote, Encode, T.Lookup, Executed;
    var hit, _ := store.Get(argv[1]);
    if hit {
      mem := true;
      ok, refused := Answer(store, out, Int(0));
      return;
    }
    ok, refused, mem := StoreAndAnswer(store, out, argv[1], argv[2], Int(1));
  }

  /** The old value is copied before it is overwritten; the copy may be refused. */
  method CmdGetset(store: HashTable, out: ByteBuf, argv: seq<bytes>)
    returns (ok: bool, ghost refused: bool, ghost mem: bool)
    requires Ready(store, out) && |argv| == 3
    modifies store.Repr, out, out.data
    ensures out.data == old(out.data) || fresh(out.data)
    ensures fresh(store.Repr - old(store.Repr))
    ensures MEMORY_LASTS ==> mem
    ensures Executed(store, out, old(out.Contents()),
            Store(old(store.table), argv[1], argv[2], mem, BulkOrNil(T.Lookup(old(store.table), argv[1]))), ok, refused)
  {
    hide Ready, HashTable.Valid, ByteBuf.Valid, ByteBuf.Contents, Wrote, Encode, T.Lookup, Oom, NotInteger,
        WouldOverflow, TooLong, CommandSpec.Ok, Executed;
    var hit, was := store.Get(argv[1]);
    if hit && |was| > 0 {
      var got := Malloc();
      if !got {
        mem := false;
        ok, refused := Answer(store, out, Oom());
        return;
      }
    }
    if hit {
      ok, refused, mem := StoreAndAnswer(store, out, argv[1], argv[2], Bulk(was));
    } else {
      ok, refused, mem := StoreAndAnswer(store, out, argv[1], argv[2], Nil);
    }
  }

  // ---- Dispatch -----------------------------------------------------------

  /** Call the handler of a row. */
  method RunHandler(store: HashTable, out: ByteBuf, c: Command, argv: seq<bytes>)
    returns (ok: bool, ghost refused: bool, ghost mem: bool)
    requires Ready(store, out) && |argv| >= Needs(c)
    requires c == PING ==> |argv| <= 2
    requires c !in {PING, DEL, EXISTS, COMMAND} ==> |argv| == Needs(c)
    modifies store.Repr, out, out.data
    ensures out.data == old(out.data) || fresh(out.data)
    ensures fresh(store.Repr - old(store.Repr))
    ensures MEMORY_LASTS ==> mem
    ensures Executed(store, out, old(out.Contents()), Handle(old(store.table), c, argv, mem), ok, refused)
  {
    hide Executed, Ready, HashTable.Valid, ByteBuf.Valid, ByteBuf.Contents, Ascii, CommandSpec.Ok, T.Lookup, T.Entries,
      T.Empty, CommandSpec.Store, DelOutcome, CountPresent, IncrBy, IncrByText, Append, SetIfMissing, Matching,
      BulkOrNil, LengthOf;
    match c {
      case PING => ok, refused, mem := CmdPing(store, out, argv);
      case GET => ok, refused, mem := CmdGet(store, out, argv);
      case SET => ok, refused, mem := CmdSet(store, out, argv);
      case DEL => ok, refused, mem := CmdDel(store, out, argv);
      case EXISTS => ok, refused, mem := CmdExists(store, out, argv);
      case COMMAND => ok, refused, mem := CmdCommand(store, out, argv);
      case INCR => ok, refused, mem := CmdIncr(store, out, argv);
      case DECR => ok, refused, mem := CmdDecr(store, out, argv);
      case INCRBY => ok, refused, mem := CmdIncrby(store, out, argv);
      case DECRBY => ok, refused, mem := CmdDecrby(store, out, argv);
      case STRLEN => ok, refused, mem := CmdStrlen(store, out, argv);
      case APPEND => ok, refused, mem := CmdAppend(store, out, argv);
      case KEYS => ok, refused, mem := CmdKeys(store, out, argv);
      case DBSIZE => ok, refused, mem := CmdDbsize(store, out, argv);
      case FLUSHDB => ok, refused, mem := CmdFlushdb(store, out, argv);
      case SETNX => ok, refused, mem := CmdSetnx(store, out, argv);
      case GETSET => ok, refused, mem := CmdGetset(store, out, argv);
    }
  }

  lemma RowArity(j: nat, argc: nat)
    requires j < |ROWS| && ArityOk(ROWS[j], argc)
    ensures var c := ROWS[j].command;
            && argc >= Needs(c)
            && (c == PING ==> argc <= 2)
            && (c !in {PING, DEL, EXISTS, COMMAND} ==> argc == Needs(c))
  {
    hide Ascii;
  }

  /** Case-insensitive comparison with an upper-case name, byte by byte. */
  method SliceEqCi(s: bytes, upper: bytes) returns (r: bool)
    ensures r <==> NameMatches(s, upper)
    ensures (forall i :: 0 <= i < |upper| ==> 65 <= upper[i] <= 90) ==>
              (r <==> |s| == |upper| && forall i :: 0 <= i < |s| ==> s[i] == upper[i] || s[i] as int == upper[i] + 32)
  {
    var i := 0;
    while i < |upper|
      invariant i <= |upper| && i <= |s|
      invariant forall k :: 0 <= k < i ==> Upper(s[k]) == upper[k]
    {
      if i >= |s| {
        return false;
      }
      var c := s[i];
      if c >= 97 && c <= 122 {
        c := c - 32;
      }
      if c != upper[i] {
        return false;
      }
      i := i + 1;
    }
    return i == |s|;
  }

  /** Dispatch one request: exactly one reply is appended, and table and reply are those of the
      specification. `mem` tells whether every allocation the handler asked of the table's side
      was granted; `ok` is false exactly when the queue could not take the whole reply. */
  method Execute(store: HashTable, out: ByteBuf, argv: seq<bytes>)
    returns (ok: bool, ghost refused: bool, ghost mem: bool)
    requires Ready(store, out)
    modifies store.Repr, out, out.data
    ensures out.data == old(out.data) || fresh(out.data)
    ensures fresh(store.Repr - old(store.Repr))
    ensures MEMORY_LASTS ==> mem
    ensures Executed(store, out, old(out.Contents()), Exec(old(store.table), argv, mem), ok, refused)
  {
    hide Executed, Ready, HashTable.Valid, ByteBuf.Valid, ByteBuf.Contents, Handle, ROWS, NameMatches, ArityOk,
      EmptyCommand, WrongArity, UnknownCommand;
    mem := true;
    if |argv| == 0 {
      ok, refused := Answer(store, out, EmptyCommand());
      return;
    }
    var e := 0;
    while e < |ROWS|
      invariant e <= |ROWS|
      invariant FindRow(argv[0], e) == FindRow(argv[0], 0)
      modifies {}
    {
      var same := SliceEqCi(argv[0], ROWS[e].name);
      if same {
        break;
      }
      e := e + 1;
    }
    if e == |ROWS| {
      ok, refused := Answer(store, out, UnknownCommand(argv[0]));
      return;
    }
    if !ArityOk(ROWS[e], |argv|) {
      ok, refused := Answer(store, out, WrongArity(ROWS[e].name));
      return;
    }
    RowArity(e, |argv|);
    ok, refused, mem := RunHandler(store, out, ROWS[e].command, argv);
  }
}
