/** One connection on the heap: the read, dispatch and write loops of its events. */
module Connection {
  import opened Bytes
  import opened ByteBuffer
  import opened Commands
  import opened CommandSpec
  import opened Environment
  import opened EventLoop
  import opened HashTable
  import opened Reply
  import opened ReplyWriter
  import opened RespParser
  import Hash
  import Resp
  import T = Table

  /** The epoll interest mask. */
  datatype Mask = Mask(read: bool, write: bool)

  /** What one `read` call answers, and one `write` call. */
  datatype ReadAnswer = Data(chunk: bytes) | ReadAgain | ReadInterrupted | Eof | ReadFailed
  datatype WriteAnswer = Took(n: nat) | WriteAgain | WriteInterrupted | WriteFailed

  ghost predicate Chunks(script: seq<ReadAnswer>) {
    forall i :: 0 <= i < |script| && script[i].Data? ==> 0 < |script[i].chunk| <= READ_CHUNK
  }

  /** The bytes a stretch of `read` answers carries. */
  ghost function Received(script: seq<ReadAnswer>): bytes {
    if script == [] then []
    else Received(script[..|script| - 1]) + (if script[|script| - 1].Data? then script[|script| - 1].chunk else [])
  }

  /** A read loop that ended with `end` took exactly the chunks offered up to there, in order. */
  ghost predicate ReadsFrom(script: seq<ReadAnswer>, end: ReadEnd, got: bytes) {
    exists i :: 0 <= i <= |script| && got == Received(script[..i]) && ReadStops(script, end, i)
  }

  /** Nothing before the i-th answer ends the loop; the i-th may. */
  ghost predicate ReadStops(script: seq<ReadAnswer>, end: ReadEnd, i: nat)
    requires i <= |script|
  {
    && (forall j :: 0 <= j < i ==> script[j].Data? || script[j].ReadInterrupted?)
    && match end
       case Drained => i == |script| || script[i].ReadAgain?
       case Gone => i < |script| && (script[i].Eof? || script[i].ReadFailed?)
       case _ => true
  }

  /** The peer neither closes nor fails. */
  ghost predicate NeverEnds(script: seq<ReadAnswer>) {
    forall i :: 0 <= i < |script| ==> !script[i].Eof? && !script[i].ReadFailed?
  }

  /** Nothing a peer sends is passed over: chunks are received whole and in order. */
  lemma {:induction false} ReceivedIsAll(chunks: seq<bytes>)
    ensures Received(seq(|chunks|, i requires 0 <= i < |chunks| => Data(chunks[i]))) == Concat(chunks)
    decreases |chunks|
  {
    var script := seq(|chunks|, i requires 0 <= i < |chunks| => Data(chunks[i]));
    if chunks == [] {
    } else {
      var n := |chunks| - 1;
      var front := chunks[..n];
      ReceivedIsAll(front);
      assert script[..n] == seq(|front|, i requires 0 <= i < |front| => Data(front[i]));
      assert chunks == front + [chunks[n]];
      ConcatAppend(front, [chunks[n]]);
      var last := [chunks[n]];
      assert last[1..] == [];
      assert Concat(last[1..]) == [];
      AppendNothing(chunks[n]);
    }
  }

  /** A loop that is stopped neither by a full queue nor for want of room receives exactly what stands
      before the first refusal to read, interruptions passed over, and tells an empty socket from a
      lost peer. */
  lemma ReadsExactly(a: seq<ReadAnswer>, b: seq<ReadAnswer>, end: ReadEnd, got: bytes)
    requires forall i :: 0 <= i < |a| ==> a[i].Data? || a[i].ReadInterrupted?
    requires b == [] || b[0].ReadAgain? || b[0].Eof? || b[0].ReadFailed?
    requires ReadsFrom(a + b, end, got) && (end == Drained || end == Gone)
    ensures got == Received(a)
    ensures end == Drained <==> b == [] || b[0].ReadAgain?
  {
    hide Received;
    var script := a + b;
    var i :| 0 <= i <= |script| && got == Received(script[..i]) && ReadStops(script, end, i);
    assert forall k :: 0 <= k < |a| ==> script[k] == a[k];
    assert b != [] ==> script[|a|] == b[0];
    assert script[..|a|] == a;
  }

  class Conn {
    ghost const id: nat
    const inBuf: ByteBuf
    const outBuf: ByteBuf
    var events: Mask
    var closeAfterDrain: bool

    constructor (ghost id: nat)
      ensures this.id == id
      ensures Valid() && fresh(inBuf) && fresh(outBuf)
      ensures inBuf.data == null && outBuf.data == null
      ensures inBuf.Contents() == outBuf.Contents() == []
      ensures events == Mask(false, false) && !closeAfterDrain
    {
      this.id := id;
      inBuf := new ByteBuf();
      outBuf := new ByteBuf();
      events, closeAfterDrain := Mask(false, false), false;
    }

    ghost predicate Valid()
      reads inBuf, outBuf, inBuf.data, outBuf.data
      ensures Valid() ==> inBuf.Valid() && outBuf.Valid() && inBuf != outBuf
    {
      && inBuf.Valid() && outBuf.Valid() && inBuf != outBuf
      && (inBuf.data == null || inBuf.data != outBuf.data)
    }

    ghost function Abs(): ConnSt
      reads this`events, this`closeAfterDrain, inBuf, outBuf, inBuf.data, outBuf.data
      requires Valid()
    {
      ConnSt(inBuf.Contents(), outBuf.Contents(), events.read, events.write, closeAfterDrain)
    }
  }

  /** The connection and the table do not overlap. */
  ghost predicate Apart(c: Conn, store: HashTable)
    reads c.inBuf, c.outBuf, c.inBuf.data, c.outBuf.data, store, store.Repr
    ensures Apart(c, store) ==>
              && c.Valid() && store.Valid()
              && c !in store.Repr && c.inBuf !in store.Repr && c.outBuf !in store.Repr
  {
    && c.Valid() && store.Valid()
    && c !in store.Repr && c.inBuf !in store.Repr && c.outBuf !in store.Repr
    && (c.inBuf.data != null ==> c.inBuf.data !in store.Repr)
    && (c.outBuf.data != null ==> c.outBuf.data !in store.Repr)
  }

  method ArmEvents(c: Conn, mask: Mask) returns (ok: bool)
    modifies c`events
    ensures c.events == if ok then mask else old(c.events)
    ensures old(c.events) == mask || EPOLL_WORKS ==> ok
  {
    if c.events == mask {
      return true;
    }
    ok := EpollCtl();
    if ok {
      c.events := mask;
    }
  }

  // ---- Reading ------------------------------------------------------------

  /** Read chunk after chunk into the input queue until the socket is drained, the queue is full,
      a chunk finds no room, or the peer is gone. */
  method ReadLoop(buf: ByteBuf, script: seq<ReadAnswer>) returns (end: ReadEnd, ghost got: bytes, ghost refused: bool)
    requires buf.Valid() && Chunks(script)
    modifies buf, buf.data
    ensures buf.Valid() && (buf.data == old(buf.data) || fresh(buf.data))
    ensures buf.Contents() == old(buf.Contents()) + got
    ensures ReadEndsAt(|buf.Contents()|, end, refused) && ReadsFrom(script, end, got)
    ensures end == TooLarge <==> |buf.Contents()| == 16777216
    ensures !refused ==> (end == NoRoom <==> 16773121 <= |buf.Contents()| <= 16777215)
    ensures !refused && |buf.Contents()| <= 16773120 && NeverEnds(script) ==> end == Drained
    ensures MEMORY_LASTS ==> !refused
  {
    hide ByteBuf.Valid, ByteBuf.Contents, ByteBuf.Spare;
    got, refused := [], false;
    AppendNothing(buf.Contents());
    var i := 0;
    while true
      invariant i <= |script| && got == Received(script[..i])
      invariant forall j :: 0 <= j < i ==> script[j].Data? || script[j].ReadInterrupted?
      invariant buf.Valid() && (buf.data == old(buf.data) || fresh(buf.data))
      invariant buf.Contents() == old(buf.Contents()) + got
      invariant MEMORY_LASTS ==> !refused
      decreases |script| - i
    {
      var live := buf.Contents();
      if |live| >= MAX {
        end := TooLarge;
        assert ReadStops(script, end, i);
        return;
      }
      var ok;
      ok, refused := buf.Reserve(READ_CHUNK);
      if !ok {
        end := NoRoom;
        assert ReadStops(script, end, i);
        return;
      }
      if i == |script| {
        end := Drained;
        assert ReadStops(script, end, i);
        return;
      }
      var answer := script[i];
      if answer.Eof? || answer.ReadFailed? {
        assert ReadStops(script, Gone, i);
      } else if answer.ReadAgain? {
        assert ReadStops(script, Drained, i);
      }
      i := i + 1;
      assert script[..i][..i - 1] == script[..i - 1];
      match answer {
        case Eof =>
          end := Gone;
          return;
        case ReadAgain =>
          end := Drained;
          return;
        case ReadInterrupted =>
        case ReadFailed =>
          end := Gone;
          return;
        case Data(chunk) =>
          buf.Deposit(chunk);
          buf.Advance(|chunk|);
          Associative(old(buf.Contents()), got, chunk);
          got := got + chunk;
      }
    }
  }

  // ---- Dispatching --------------------------------------------------------

  /** What a readable event owes to the kernel's and the allocator's answers: it takes the bytes
      offered, blames the allocator only for a refusal, and gives the connection up only when nothing
      is left to wait for or epoll fails. */
  ghost predicate ReadAnswered(c: ConnSt, script: seq<ReadAnswer>, tr: ReadTrace, keep: bool) {
    && (c.closing || ReadsFrom(script, tr.end, tr.got))
    && (MEMORY_LASTS ==> NothingRefused(tr))
    && (EPOLL_WORKS ==> (keep <==> GoesOnReading(c, tr)))
  }

  /** The argument list the slices of a record view. */
  method ReadArgv(input: bytes, req: Request, ghost argv: seq<bytes>, ghost used: nat) returns (r: seq<bytes>)
    requires req.Describes(input, argv, used)
    ensures r == argv
  {
    r := [];
    for k := 0 to req.argc
      invariant r == argv[..k]
    {
      assert req.args[..req.argc][k] == req.args[k];
      r := r + [Resolve(input, req.args[k])];
    }
  }

  lemma {:induction false} DispatchesSnoc(id: nat, t: T.Chains, inb: bytes, recs: seq<Rec>, mid: T.Chains,
      rest: bytes, rec: Rec)
    requires |t| == |mid| == Hash.BUCKETS && Dispatches(id, t, inb, recs, mid, rest)
    requires Resp.Parse(rest).Ok? && Resp.Parse(rest).used <= |rest| && Executes(id, mid, Resp.Parse(rest).value, rec)
    ensures Dispatches(id, t, inb, recs + [rec], Exec(mid, rec.argv, rec.mem).0, rest[Resp.Parse(rest).used..])
    ensures RepliesOf(recs + [rec]) == RepliesOf(recs) + rec.reply
    ensures AllGranted(recs) && rec.mem ==> AllGranted(recs + [rec])
    decreases |recs|
  {
    hide Exec, Resp.Parse;
    var more := recs + [rec];
    if recs == [] {
      assert more == [rec] && more[1..] == [];
      assert RepliesOf(more) == rec.reply + [];
    } else {
      assert more[1..] == recs[1..] + [rec];
      DispatchesSnoc(id, Exec(t, recs[0].argv, recs[0].mem).0, inb[Resp.Parse(inb).used..], recs[1..], mid, rest, rec);
      Associative(recs[0].reply, RepliesOf(recs[1..]), rec.reply);
    }
  }

  /** Parse into a fresh record and resolve its slices, while the input still holds them. */
  method NextFrame(input: bytes) returns (st: Status, argv: seq<bytes>, used: nat)
    ensures Says(st, Resp.Parse(input))
    ensures st == OK ==> Resp.Parse(input) == Resp.Ok(argv, used)
  {
    hide Resp.Parse;
    argv, used := [], 0;
    var req := new Request();
    st := ParseRequest(input, req);
    if st == OK {
      argv := ReadArgv(input, req, Resp.Parse(input).value, Resp.Parse(input).used);
      used := req.bytesConsumed;
    }
  }

  /** Execute one parsed request and consume its bytes. When the reply does not fit, the request has
      been executed all the same and its bytes stay. */
  method ServeOne(c: Conn, store: HashTable, argv: seq<bytes>, used: nat)
    returns (ok: bool, ghost rec: Rec, ghost refused: bool)
    requires Apart(c, store) && used <= |c.inBuf.Contents()|
    modifies c.inBuf, c.inBuf.data, c.outBuf, c.outBuf.data, store.Repr
    ensures Apart(c, store) && c.inBuf.data == old(c.inBuf.data)
    ensures (c.outBuf.data == old(c.outBuf.data) || fresh(c.outBuf.data)) && fresh(store.Repr - old(store.Repr))
    ensures c.events == old(c.events) && c.closeAfterDrain == old(c.closeAfterDrain)
    ensures Executes(c.id, old(store.table), argv, rec)
    ensures store.table == Exec(old(store.table), rec.argv, rec.mem).0
    ensures ok ==>
              && c.inBuf.Contents() == old(c.inBuf.Contents())[used..]
              && c.outBuf.Contents() == old(c.outBuf.Contents()) + rec.reply
    ensures !ok && !refused ==> |old(c.outBuf.Contents())| + |rec.reply| > MAX
    ensures MEMORY_LASTS ==> !refused && rec.mem
  {
    hide ByteBuf.Valid, ByteBuf.Contents, HashTable.Valid, Exec, Encode;
    ghost var t0 := store.table;
    ghost var mem;
    ok, refused, mem := Execute(store, c.outBuf, argv);
    rec := Rec(c.id, argv, mem, Encode(Exec(t0, argv, mem).1));
    if ok {
      c.inBuf.Consume(used);
    }
  }

  /** Dispatch every complete frame in the input queue. */
  method DispatchLoop(c: Conn, store: HashTable)
    returns (dend: DispatchEnd, ghost recs: seq<Rec>, ghost rest: bytes, ghost refused: bool)
    requires Apart(c, store)
    modifies c.inBuf, c.inBuf.data, c.outBuf, c.outBuf.data, store.Repr
    ensures Apart(c, store) && c.inBuf.data == old(c.inBuf.data)
    ensures (c.outBuf.data == old(c.outBuf.data) || fresh(c.outBuf.data)) && fresh(store.Repr - old(store.Repr))
    ensures c.events == old(c.events) && c.closeAfterDrain == old(c.closeAfterDrain)
    ensures Dispatches(c.id, old(store.table), old(c.inBuf.Contents()), recs, store.table, rest)
    ensures MEMORY_LASTS ==> !refused && AllGranted(recs)
    ensures dend == Broken ==> !refused ==> |old(c.outBuf.Contents()) + RepliesOf(recs)| > MAX
    ensures dend != Broken ==>
              && rest == c.inBuf.Contents()
              && c.outBuf.Contents() == old(c.outBuf.Contents()) + RepliesOf(recs)
              && (dend == Waiting <==> Resp.Parse(rest).NeedMore?)
              && (dend == BadFrame <==> Resp.Parse(rest).Malformed?)
  {
    hide Apart, ByteBuf.Valid, ByteBuf.Contents, HashTable.Valid, Exec, Executes, Dispatches, RepliesOf, Resp.Parse,
      AllGranted;
    recs, refused := [], false;
    ghost var t0, in0, out0 := store.table, c.inBuf.Contents(), c.outBuf.Contents();
    DispatchesNothing(c.id, t0, in0, out0);
    while true
      invariant Apart(c, store) && c.inBuf.data == old(c.inBuf.data)
      invariant (c.outBuf.data == old(c.outBuf.data) || fresh(c.outBuf.data)) && fresh(store.Repr - old(store.Repr))
      invariant c.events == old(c.events) && c.closeAfterDrain == old(c.closeAfterDrain)
      invariant |store.table| == Hash.BUCKETS
      invariant MEMORY_LASTS ==> !refused && AllGranted(recs)
      invariant Dispatches(c.id, t0, in0, recs, store.table, c.inBuf.Contents())
      invariant c.outBuf.Contents() == out0 + RepliesOf(recs)
      decreases |c.inBuf.Contents()|
    {
      var input := c.inBuf.Contents();
      rest := input;
      var st, argv, used := NextFrame(input);
      if st == NEED_MORE {
        dend := Waiting;
        return;
      }
      if st == PROTOCOL_ERR {
        dend := BadFrame;
        return;
      }
      Resp.UsedWithin(input);
      var ok;
      ghost var mid, rec := store.table, Rec(0, [], false, []);
      ok, rec, refused := ServeOne(c, store, argv, used);
      DispatchesSnoc(c.id, t0, in0, recs, mid, input, rec);
      Associative(out0, RepliesOf(recs), rec.reply);
      recs := recs + [rec];
      rest := input[used..];
      if !ok {
        dend := Broken;
        return;
      }
    }
  }

  lemma DispatchesNothing(id: nat, t: T.Chains, inb: bytes, out: bytes)
    requires |t| == Hash.BUCKETS
    ensures Dispatches(id, t, inb, [], t, inb) && out + RepliesOf([]) == out && AllGranted([])
  {
  }

  // ---- One readable event -------------------------------------------------

  /** Queue the error lines an event calls for, ignoring what does not fit. */
  method QueueErrors(out: ByteBuf, dend: DispatchEnd, end: ReadEnd)
    returns (ghost errs: bytes, ghost fault: bool, ghost refused: bool)
    requires out.Valid()
    modifies out, out.data
    ensures out.Valid() && (out.data == old(out.data) || fresh(out.data))
    ensures out.Contents() == old(out.Contents()) + errs
    ensures ErrorsQueued(dend, end, errs, fault)
    ensures MEMORY_LASTS ==> !refused
    ensures fault && !refused ==> |old(out.Contents()) + FrameLine(dend) + ReadLine(end)| > MAX
  {
    hide ByteBuf.Valid, ByteBuf.Contents, Encode, Ascii;
    ghost var s0 := out.Contents();
    ghost var ok1, r1, ok2, r2 := true, false, true, false;
    if dend == BadFrame {
      var ok;
      ghost var r;
      ok, r := ReplyError(out, Ascii("ERR Protocol error"));
      ok1, r1 := ok, r;
    }
    ghost var s1 := out.Contents();
    assert s0 <= s1 <= s0 + FrameLine(dend);
    if end == TooLarge {
      var ok;
      ghost var r;
      ok, r := ReplyError(out, Ascii("ERR request too large"));
      ok2, r2 := ok, r;
    } else if end == NoRoom {
      var ok;
      ghost var r;
      ok, r := ReplyError(out, Ascii("ERR out of memory"));
      ok2, r2 := ok, r;
    }
    ghost var s2 := out.Contents();
    assert s1 <= s2 <= s1 + ReadLine(end);
    hide FrameLine, ReadLine, Wrote;
    SplitErrors(s0, s1, s2, dend, end, !(ok1 && ok2));
    errs, fault, refused := s2[|s0|..], !(ok1 && ok2), r1 || r2;
  }

  lemma SplitErrors(s0: bytes, s1: bytes, s2: bytes, dend: DispatchEnd, end: ReadEnd, fault: bool)
    requires s0 <= s1 <= s0 + FrameLine(dend) && s1 <= s2 <= s1 + ReadLine(end)
    requires !fault ==> s1 == s0 + FrameLine(dend) && s2 == s1 + ReadLine(end)
    ensures s0 <= s2 && s2 == s0 + s2[|s0|..]
    ensures ErrorsQueued(dend, end, s2[|s0|..], fault)
  {
    hide FrameLine, ReadLine;
    var p, q := s1[|s0|..], s2[|s1|..];
    assert s2[|s0|..] == p + q;
    assert p <= FrameLine(dend) && q <= ReadLine(end);
    assert !fault ==> p == FrameLine(dend) && q == ReadLine(end);
  }

  /** Report errors, decide whether to wind down, re-arm. */
  method Finish(c: Conn, ghost store: HashTable, dend: DispatchEnd, end: ReadEnd)
    returns (keep: bool, ghost errs: bytes, ghost fault: bool, ghost refused: bool)
    requires Apart(c, store) && !c.closeAfterDrain
    modifies c`events, c`closeAfterDrain, c.outBuf, c.outBuf.data
    ensures Apart(c, store) && (c.outBuf.data == old(c.outBuf.data) || fresh(c.outBuf.data))
    ensures store.table == old(store.table) && store.Repr == old(store.Repr)
    ensures c.inBuf.data == old(c.inBuf.data)
    ensures ErrorsQueued(dend, end, errs, fault)
    ensures MEMORY_LASTS ==> !refused
    ensures fault && !refused ==> |old(c.outBuf.Contents()) + FrameLine(dend) + ReadLine(end)| > MAX
    ensures keep ==>
              var out, closing := old(c.outBuf.Contents()) + errs, dend == BadFrame || end != Drained;
              c.Abs() == ConnSt(old(c.inBuf.Contents()), out, !closing, out != [], closing) && (closing ==> out != [])
    ensures |old(c.outBuf.Contents()) + errs| <= MAX
    ensures EPOLL_WORKS && !keep ==>
              old(c.outBuf.Contents()) + errs == [] && (dend == BadFrame || end != Drained)
  {
    hide ByteBuf.Valid, ByteBuf.Contents, HashTable.Valid, ErrorsQueued, FrameLine, ReadLine;
    errs, fault, refused := QueueErrors(c.outBuf, dend, end);
    if dend == BadFrame || end != Drained {
      c.closeAfterDrain := true;
    }
    var unsent := c.outBuf.Contents();
    if c.closeAfterDrain && |unsent| == 0 {
      keep := false;
      return;
    }
    var want := Mask(!c.closeAfterDrain, |unsent| > 0);
    keep := ArmEvents(c, want);
  }

  /** The phases of a dispatching event make up one event of the specification. */
  lemma PhasesMakeRead(id: nat, c: ConnSt, t: T.Chains, tr: ReadTrace, c': ConnSt, t': T.Chains, keep: bool)
    requires |t| == Hash.BUCKETS && !c.closing && ReadEndsAt(|c.inb + tr.got|, tr.end, tr.refusedIn) && tr.end != Gone
    requires Dispatches(id, t, c.inb + tr.got, tr.recs, t', tr.rest)
    requires tr.dend == Broken ==>
               && !keep && tr.errs == []
               && (!tr.refusedOut ==> |c.outb + RepliesOf(tr.recs)| > MAX)
    requires tr.dend != Broken ==>
               && (tr.dend == Waiting <==> Resp.Parse(tr.rest).NeedMore?)
               && (tr.dend == BadFrame <==> Resp.Parse(tr.rest).Malformed?)
               && ErrorsQueued(tr.dend, tr.end, tr.errs, tr.fault)
               && (tr.fault && !tr.refusedOut ==>
                     |c.outb + RepliesOf(tr.recs) + FrameLine(tr.dend) + ReadLine(tr.end)| > MAX)
               && (keep ==>
                     var out, closing := c.outb + RepliesOf(tr.recs) + tr.errs,
                         tr.dend == BadFrame || tr.end != Drained;
                     c' == ConnSt(tr.rest, out, !closing, out != [], closing) && (closing ==> out != []))
               && |c.outb + RepliesOf(tr.recs) + tr.errs| <= MAX
    ensures ConnReads(id, c, t, tr, c', t', keep)
  {
    hide Dispatches, Resp.Parse, ErrorsQueued, FrameLine, ReadLine, ReadEndsAt;
  }

  /** The read loop on the connection's own queue. */
  method Fill(c: Conn, ghost store: HashTable, script: seq<ReadAnswer>)
    returns (end: ReadEnd, ghost got: bytes, ghost refused: bool)
    requires Apart(c, store) && Chunks(script)
    modifies c.inBuf, c.inBuf.data
    ensures Apart(c, store) && (c.inBuf.data == old(c.inBuf.data) || fresh(c.inBuf.data))
    ensures c.Abs() == old(c.Abs()).(inb := old(c.Abs()).inb + got)
    ensures ReadEndsAt(|c.inBuf.Contents()|, end, refused) && ReadsFrom(script, end, got)
    ensures MEMORY_LASTS ==> !refused
    ensures store.table == old(store.table) && store.Repr == old(store.Repr)
  {
    hide ByteBuf.Valid, ByteBuf.Contents, HashTable.Valid, ReadEndsAt, ReadsFrom;
    end, got, refused := ReadLoop(c.inBuf, script);
  }

  /** Dispatch, report, re-arm: the part of the event after the read loop. */
  method Respond(c: Conn, store: HashTable, end: ReadEnd, ghost c0: ConnSt, ghost got: bytes, ghost refusedIn: bool)
    returns (keep: bool, ghost tr: ReadTrace)
    requires Apart(c, store) && end != Gone && !c0.closing && c.Abs() == c0.(inb := c0.inb + got)
    requires ReadEndsAt(|c0.inb + got|, end, refusedIn)
    modifies c`events, c`closeAfterDrain, c.inBuf, c.inBuf.data, c.outBuf, c.outBuf.data, store.Repr
    ensures Apart(c, store) && c.inBuf.data == old(c.inBuf.data)
    ensures (c.outBuf.data == old(c.outBuf.data) || fresh(c.outBuf.data)) && fresh(store.Repr - old(store.Repr))
    ensures ConnReads(c.id, c0, old(store.table), tr, c.Abs(), store.table, keep)
    ensures tr.got == got && tr.end == end
    ensures MEMORY_LASTS && !refusedIn ==> NothingRefused(tr)
    ensures EPOLL_WORKS ==> (keep <==> GoesOnReading(c0, tr))
  {
    hide ByteBuf.Valid, ByteBuf.Contents, HashTable.Valid, Dispatches, Resp.Parse, ErrorsQueued, FrameLine, ReadLine,
      ReadEndsAt, RepliesOf, ConnReads, Apart, Conn.Valid;
    ghost var t0 := store.table;
    var dend;
    ghost var recs, rest, refused;
    dend, recs, rest, refused := DispatchLoop(c, store);
    ghost var errs, fault, refusedErr := [], false, refused;
    if dend == Broken {
      keep := false;
    } else {
      keep, errs, fault, refusedErr := Finish(c, store, dend, end);
    }
    tr := ReadTrace(got, end, refusedIn, recs, dend, rest, errs, fault, refusedErr);
    PhasesMakeRead(c.id, c0, t0, tr, c.Abs(), store.table, keep);
  }

  /** Read, dispatch, report, re-arm. */
  method HandleRead(c: Conn, store: HashTable, script: seq<ReadAnswer>) returns (keep: bool, ghost tr: ReadTrace)
    requires Apart(c, store) && Chunks(script)
    modifies c`events, c`closeAfterDrain, c.inBuf, c.inBuf.data, c.outBuf, c.outBuf.data, store.Repr
    ensures Apart(c, store)
    ensures (c.inBuf.data == old(c.inBuf.data) || fresh(c.inBuf.data))
    ensures (c.outBuf.data == old(c.outBuf.data) || fresh(c.outBuf.data)) && fresh(store.Repr - old(store.Repr))
    ensures ConnReads(c.id, old(c.Abs()), old(store.table), tr, c.Abs(), store.table, keep)
    ensures ReadAnswered(old(c.Abs()), script, tr, keep)
  {
    hide ByteBuf.Valid, ByteBuf.Contents, HashTable.Valid, ReadEndsAt, ReadsFrom, ConnReads, Apart, Conn.Valid,
      Settled, Chunks, Dispatches, ErrorsQueued;
    ghost var c0, t0 := c.Abs(), store.table;
    if c.closeAfterDrain {
      keep, tr := WindDown(c, store);
      QuietRead(c.id, c0, t0, tr, c.Abs(), keep);
      return;
    }
    var end;
    ghost var got, refusedIn;
    end, got, refusedIn := Fill(c, store, script);
    if end == Gone {
      tr := ReadTrace(got, end, refusedIn, [], Waiting, c0.inb + got, [], false, false);
      QuietRead(c.id, c0, t0, tr, c.Abs(), false);
      return false, tr;
    }
    keep, tr := Respond(c, store, end, c0, got, refusedIn);
  }

  lemma QuietRead(id: nat, c: ConnSt, t: T.Chains, tr: ReadTrace, c': ConnSt, keep: bool)
    requires |t| == Hash.BUCKETS
    requires c.closing ==>
               && tr == ReadTrace([], Drained, false, [], Waiting, c.inb, [], false, false)
               && (keep ==> c.outb != [] && c' == c.(wantRead := false, wantWrite := true))
    requires !c.closing ==>
               && !keep && tr == ReadTrace(tr.got, Gone, tr.refusedIn, [], Waiting, c.inb + tr.got, [], false, false)
               && ReadEndsAt(|c.inb + tr.got|, Gone, tr.refusedIn)
    ensures ConnReads(id, c, t, tr, c', t, keep)
  {
  }

  /** A readable event while winding down: nothing is read. */
  method WindDown(c: Conn, ghost store: HashTable) returns (keep: bool, ghost tr: ReadTrace)
    requires Apart(c, store) && c.closeAfterDrain
    modifies c`events
    ensures Apart(c, store) && store.table == old(store.table)
    ensures tr == ReadTrace([], Drained, false, [], Waiting, old(c.Abs()).inb, [], false, false)
    ensures keep ==> c.Abs() == old(c.Abs()).(wantRead := false, wantWrite := true) && c.Abs().outb != []
    ensures EPOLL_WORKS && !keep ==> old(c.Abs()).outb == []
  {
    tr := ReadTrace([], Drained, false, [], Waiting, c.Abs().inb, [], false, false);
    var unsent := c.outBuf.Contents();
    if |unsent| == 0 {
      return false, tr;
    }
    keep := ArmEvents(c, Mask(false, true));
  }

  // ---- One writable event -------------------------------------------------

  ghost predicate Takings(script: seq<WriteAnswer>) {
    forall i :: 0 <= i < |script| && script[i].Took? ==> script[i].n > 0
  }

  /** What a stretch of `write` answers would take of an unlimited offer. */
  ghost function TakenBy(script: seq<WriteAnswer>): nat {
    if script == [] then 0
    else TakenBy(script[..|script| - 1]) + (if script[|script| - 1].Took? then script[|script| - 1].n else 0)
  }

  /** A write loop that ended with `wend` handed over, of the bytes offered, what the kernel asked for
      up to there. */
  ghost predicate WritesTo(script: seq<WriteAnswer>, wend: WriteEnd, offered: nat, n: nat) {
    exists i :: 0 <= i <= |script| && n == AtMost(TakenBy(script[..i]), offered) && WriteStops(script, wend, i)
  }

  function AtMost(k: nat, limit: nat): nat {
    if k < limit then k else limit
  }

  ghost predicate WriteStops(script: seq<WriteAnswer>, wend: WriteEnd, i: nat)
    requires i <= |script|
  {
    && (forall j :: 0 <= j < i ==> script[j].Took? || script[j].WriteInterrupted?)
    && match wend
       case Blocked => i == |script| || script[i].WriteAgain?
       case PeerGone => i < |script| && script[i].WriteFailed?
       case Flushed => true
  }

  lemma {:induction false} TakenGrows(script: seq<WriteAnswer>, i: nat)
    requires i <= |script|
    ensures TakenBy(script[..i]) <= TakenBy(script)
    decreases |script|
  {
    if i == |script| {
      assert script[..i] == script;
    } else {
      var front := script[..|script| - 1];
      TakenGrows(front, i);
      assert front[..i] == script[..i];
    }
  }

  /** Every byte taken counts once, and nothing but bytes taken counts. */
  lemma TakenBySum(answers: seq<WriteAnswer>, k: nat)
    ensures TakenBy(answers + [Took(k)]) == TakenBy(answers) + k
    ensures TakenBy(answers + [WriteInterrupted]) == TakenBy(answers)
  {
    forall a: WriteAnswer ensures (answers + [a])[..|answers|] == answers {
    }
  }

  /** A write loop hands over exactly what the kernel takes before it first refuses, interruptions
      passed over, and no more than is offered. */
  lemma WritesExactly(a: seq<WriteAnswer>, b: seq<WriteAnswer>, wend: WriteEnd, offered: nat, n: nat)
    requires forall i :: 0 <= i < |a| ==> a[i].Took? || a[i].WriteInterrupted?
    requires b == [] || b[0].WriteAgain? || b[0].WriteFailed?
    requires WritesTo(a + b, wend, offered, n) && (wend == Flushed <==> wend != PeerGone && n == offered)
    ensures n == if TakenBy(a) < offered then TakenBy(a) else offered
    ensures n < offered ==> (wend == Blocked <==> b == [] || b[0].WriteAgain?)
  {
    hide TakenBy;
    var script := a + b;
    var i :| 0 <= i <= |script| && n == AtMost(TakenBy(script[..i]), offered) && WriteStops(script, wend, i);
    assert b != [] ==> script[|a|] == b[0];
    assert script[..|a|] == a;
    assert i < |a| ==> script[i] == a[i];
    if i < |a| {
      assert script[..i] == a[..i];
      TakenGrows(a, i);
    }
  }

  /** What a writable event owes to the kernel's answers. */
  ghost predicate WriteAnswered(c: ConnSt, script: seq<WriteAnswer>, n: nat, wend: WriteEnd, keep: bool) {
    && WritesTo(script, wend, |c.outb|, n)
    && (EPOLL_WORKS ==> (keep <==> GoesOnWriting(c, wend)))
  }

  /** Write from the head of the output queue until it is empty, the socket is full, or the peer is
      gone. The kernel never takes more than it is offered. */
  method WriteLoop(buf: ByteBuf, script: seq<WriteAnswer>) returns (wend: WriteEnd, ghost n: nat, ghost sent: bytes)
    requires buf.Valid() && Takings(script)
    modifies buf, buf.data
    ensures buf.Valid() && buf.data == old(buf.data)
    ensures n <= |old(buf.Contents())| && buf.Contents() == old(buf.Contents())[n..]
    ensures sent == old(buf.Contents())[..n]
    ensures WritesTo(script, wend, |old(buf.Contents())|, n)
    ensures wend == Flushed <==> wend != PeerGone && n == |old(buf.Contents())|
  {
    hide ByteBuf.Valid, ByteBuf.Contents;
    n, sent := 0, [];
    ghost var s0 := buf.Contents();
    assert s0[0..] == s0;
    var i := 0;
    while true
      invariant i <= |script| && n <= |s0| && n == AtMost(TakenBy(script[..i]), |s0|)
      invariant forall j :: 0 <= j < i ==> script[j].Took? || script[j].WriteInterrupted?
      invariant sent == s0[..n]
      invariant buf.Valid() && buf.data == old(buf.data) && buf.Contents() == s0[n..]
      decreases |script| - i
    {
      var live := buf.Contents();
      if |live| == 0 {
        wend := Flushed;
        assert WriteStops(script, wend, i);
        return;
      }
      if i == |script| {
        wend := Blocked;
        assert WriteStops(script, wend, i);
        return;
      }
      var answer := script[i];
      if answer.WriteAgain? {
        assert WriteStops(script, Blocked, i);
      } else if answer.WriteFailed? {
        assert WriteStops(script, PeerGone, i);
      }
      i := i + 1;
      assert script[..i][..i - 1] == script[..i - 1];
      match answer {
        case WriteAgain =>
          wend := Blocked;
          return;
        case WriteInterrupted =>
        case WriteFailed =>
          wend := PeerGone;
          return;
        case Took(k) =>
          var m := AtMost(k, |live|);
          sent := sent + live[..m];
          buf.Consume(m);
          assert s0[n..][m..] == s0[n + m..] && s0[..n] + s0[n..][..m] == s0[..n + m];
          n := n + m;
      }
    }
  }

  /** Drain the output queue; close once drained if the connection is winding down. */
  method HandleWrite(c: Conn, script: seq<WriteAnswer>) returns (keep: bool, ghost n: nat, ghost wend: WriteEnd)
    requires c.Valid() && Takings(script)
    modifies c`events, c.outBuf, c.outBuf.data
    ensures c.Valid() && c.outBuf.data == old(c.outBuf.data)
    ensures ConnWrites(old(c.Abs()), n, wend, c.Abs(), keep)
    ensures WriteAnswered(old(c.Abs()), script, n, wend, keep)
  {
    hide ByteBuf.Valid, ByteBuf.Contents, WritesTo;
    var how;
    ghost var sent;
    how, n, sent := WriteLoop(c.outBuf, script);
    wend := how;
    if how == PeerGone {
      return false, n, wend;
    }
    if how == Blocked {
      return true, n, wend;
    }
    if c.closeAfterDrain {
      return false, n, wend;
    }
    keep := ArmEvents(c, Mask(true, false));
  }
}
