/** The event loop as a step machine over all connections, with the books that whole-run
    statements are about. */
module EventLoop {
  import opened Bytes
  import opened CommandSpec
  import opened Resp
  import opened Stream
  import ByteBuffer
  import Hash
  import Reply
  import T = Table

  const READ_CHUNK: nat := 4096

  // ---- State --------------------------------------------------------------

  /** One connection: buffered input, queued output, interest mask, winding down or not. */
  datatype ConnSt = ConnSt(inb: bytes, outb: bytes, wantRead: bool, wantWrite: bool, closing: bool)

  /** One dispatched request: whose, what, whether memory lasted, and the reply bytes. */
  datatype Rec = Rec(id: nat, argv: seq<bytes>, mem: bool, reply: bytes)

  /** A client's history: bytes received, bytes not yet turned into requests, bytes written to its
      socket, error lines queued, and whether no limit or refusal has touched it. */
  datatype Book = Book(recv: bytes, left: bytes, sent: bytes, tail: bytes, clean: bool)

  datatype World = World(table: T.Chains, conns: map<nat, ConnSt>, books: map<nat, Book>, log: seq<Rec>)

  function FreshConn(): ConnSt {
    ConnSt([], [], true, false, false)
  }

  function Start(): World {
    World(T.Empty(), map[], map[], [])
  }

  // ---- Reading ------------------------------------------------------------

  /** How the read loop of one event ended: socket drained, buffer full, no room for another chunk,
      or the peer gone. */
  datatype ReadEnd = Drained | TooLarge | NoRoom | Gone

  /** How the dispatch loop ended: waiting for bytes, at a malformed frame, or at a reply that did
      not fit. */
  datatype DispatchEnd = Waiting | BadFrame | Broken

  datatype ReadTrace = ReadTrace(
    got: bytes, end: ReadEnd, refusedIn: bool, recs: seq<Rec>, dend: DispatchEnd, rest: bytes,
    errs: bytes, fault: bool, refusedOut: bool)

  function ProtocolLine(): bytes { Reply.Encode(Reply.Error(Ascii("ERR Protocol error"))) }

  function ReadLine(end: ReadEnd): bytes {
    match end
    case TooLarge => Reply.Encode(Reply.Error(Ascii("ERR request too large")))
    case NoRoom => Reply.Encode(Reply.Error(Ascii("ERR out of memory")))
    case _ => []
  }

  function FrameLine(dend: DispatchEnd): bytes {
    if dend == BadFrame then ProtocolLine() else []
  }

  /** Which end a read loop may report with `buffered` bytes in the queue, allocation having been
      refused or not. */
  ghost predicate ReadEndsAt(buffered: nat, end: ReadEnd, refused: bool) {
    match end
    case Drained => buffered + READ_CHUNK <= ByteBuffer.MAX
    case TooLarge => buffered == ByteBuffer.MAX
    case NoRoom => buffered < ByteBuffer.MAX && (!refused ==> buffered + READ_CHUNK > ByteBuffer.MAX)
    case Gone => buffered + READ_CHUNK <= ByteBuffer.MAX
  }

  /** `recs` are the requests taken one after the other from the head of `inb`, each executed on
      the table its predecessor left. */
  ghost predicate Dispatches(id: nat, t: T.Chains, inb: bytes, recs: seq<Rec>, t': T.Chains, rest: bytes)
    requires |t| == Hash.BUCKETS
    decreases |recs|
  {
    if recs == [] then t' == t && rest == inb
    else
      && Parse(inb).Ok? && Parse(inb).used <= |inb|
      && Executes(id, t, Parse(inb).value, recs[0])
      && Dispatches(id, Exec(t, recs[0].argv, recs[0].mem).0, inb[Parse(inb).used..], recs[1..], t', rest)
  }

  ghost predicate Executes(id: nat, t: T.Chains, argv: seq<bytes>, rec: Rec)
    requires |t| == Hash.BUCKETS
  {
    rec.id == id && rec.argv == argv && rec.reply == Reply.Encode(Exec(t, argv, rec.mem).1)
  }

  function RepliesOf(recs: seq<Rec>): bytes {
    if recs == [] then [] else recs[0].reply + RepliesOf(recs[1..])
  }

  /** The error lines of one event: both in full, or cut short by a full queue. */
  ghost predicate ErrorsQueued(dend: DispatchEnd, end: ReadEnd, errs: bytes, fault: bool) {
    exists p, q ::
      && errs == p + q && p <= FrameLine(dend) && q <= ReadLine(end)
      && (!fault ==> p == FrameLine(dend) && q == ReadLine(end))
  }

  /** One readable event on a connection. `keep` tells whether it survives, as c'. */
  ghost predicate ConnReads(id: nat, c: ConnSt, t: T.Chains, tr: ReadTrace, c': ConnSt, t': T.Chains, keep: bool)
    requires |t| == Hash.BUCKETS
  {
    if c.closing then
      && tr == ReadTrace([], Drained, false, [], Waiting, c.inb, [], false, false)
      && t' == t
      && (keep ==> c.outb != [] && c' == c.(wantRead := false, wantWrite := true))
    else
      && ReadEndsAt(|c.inb + tr.got|, tr.end, tr.refusedIn)
      && if tr.end == Gone then
           !keep && t' == t && tr.recs == [] && tr.errs == [] && tr.rest == c.inb + tr.got
         else
           && Dispatches(id, t, c.inb + tr.got, tr.recs, t', tr.rest)
           && if tr.dend == Broken then
                && !keep && tr.errs == []
                && (!tr.refusedOut ==> |c.outb + RepliesOf(tr.recs)| > ByteBuffer.MAX)
              else
                && (tr.dend == Waiting <==> Parse(tr.rest).NeedMore?)
                && (tr.dend == BadFrame <==> Parse(tr.rest).Malformed?)
                && ErrorsQueued(tr.dend, tr.end, tr.errs, tr.fault)
                && (tr.fault && !tr.refusedOut ==>
                      |c.outb + RepliesOf(tr.recs) + FrameLine(tr.dend) + ReadLine(tr.end)| > ByteBuffer.MAX)
                && |c.outb + RepliesOf(tr.recs) + tr.errs| <= ByteBuffer.MAX
                && (keep ==> c' == Settled(c, tr) && (c'.closing ==> c'.outb != []))
  }

  /** The connection after a readable event it survives. */
  function Settled(c: ConnSt, tr: ReadTrace): ConnSt {
    var out := c.outb + RepliesOf(tr.recs) + tr.errs;
    var closing := tr.dend == BadFrame || tr.end != Drained;
    ConnSt(tr.rest, out, !closing, out != [], closing)
  }

  /** No allocation of these requests was refused. */
  ghost predicate AllGranted(recs: seq<Rec>) {
    forall i :: 0 <= i < |recs| ==> recs[i].mem
  }

  ghost predicate NothingRefused(tr: ReadTrace) {
    !tr.refusedIn && !tr.refusedOut && AllGranted(tr.recs)
  }

  /** A readable event leaves the connection something to wait for: the peer is there, every reply
      fitted, and what is winding down has bytes to send. */
  ghost predicate GoesOnReading(c: ConnSt, tr: ReadTrace) {
    if c.closing then c.outb != []
    else tr.end != Gone && tr.dend != Broken && (Settled(c, tr).closing ==> Settled(c, tr).outb != [])
  }

  /** The memory-error line is queued, no allocation having been refused, exactly when the buffered
      bytes stop short of the limit by less than a chunk: running out of room reads as running out
      of memory. */
  lemma NoRoomIff(id: nat, c: ConnSt, t: T.Chains, tr: ReadTrace, c': ConnSt, t': T.Chains, keep: bool)
    requires |t| == Hash.BUCKETS && ConnReads(id, c, t, tr, c', t', keep) && !tr.refusedIn
    ensures !c.closing ==>
              && (tr.end == NoRoom <==> 16773121 <= |c.inb + tr.got| <= 16777215)
              && (tr.end == TooLarge <==> |c.inb + tr.got| == 16777216)
    ensures tr.end == NoRoom <==> ReadLine(tr.end) == Reply.Encode(Reply.Error(Ascii("ERR out of memory")))
  {
    hide Dispatches, ErrorsQueued, FrameLine, Settled, RepliesOf, Parse;
    var large, memory := ReadLine(TooLarge), ReadLine(NoRoom);
    assert large[5] == ('r' as int) && memory[5] == ('o' as int);
  }

  // ---- Writing ------------------------------------------------------------

  /** How the write loop of one event ended. */
  datatype WriteEnd = Blocked | Flushed | PeerGone

  /** One writable event: the kernel took `n` bytes in all. */
  ghost predicate ConnWrites(c: ConnSt, n: nat, wend: WriteEnd, c': ConnSt, keep: bool) {
    && n <= |c.outb|
    && match wend
       case PeerGone => !keep
       case Blocked => n < |c.outb| && keep && c' == c.(outb := c.outb[n..])
       case Flushed =>
         && n == |c.outb|
         && (c.closing ==> !keep)
         && (keep ==> c' == c.(outb := [], wantRead := true, wantWrite := false))
  }

  /** A writable event leaves the connection something to wait for. */
  ghost predicate GoesOnWriting(c: ConnSt, wend: WriteEnd) {
    wend == Blocked || (wend == Flushed && !c.closing)
  }

  // ---- Steps --------------------------------------------------------------

  datatype Label =
    | Accept(id: nat)
    | Read(id: nat, tr: ReadTrace, c': ConnSt, keep: bool)
    | Write(id: nat, n: nat, wend: WriteEnd, c': ConnSt, keep: bool)
    | Close(id: nat)

  function AfterRead(b: Book, tr: ReadTrace): Book {
    Book(b.recv + tr.got, tr.rest, b.sent, b.tail + tr.errs,
         b.clean && tr.end == Drained && tr.dend != Broken && !tr.fault)
  }

  function Updated(conns: map<nat, ConnSt>, id: nat, c': ConnSt, keep: bool): map<nat, ConnSt> {
    if keep then conns[id := c'] else conns - {id}
  }

  ghost predicate Step(w: World, l: Label, w': World) {
    && |w.table| == Hash.BUCKETS
    && match l
       case Accept(id) =>
         && id !in w.books
         && w' == World(w.table, w.conns[id := FreshConn()], w.books[id := Book([], [], [], [], true)], w.log)
       case Read(id, tr, c', keep) =>
         && id in w.conns && id in w.books
         && ConnReads(id, w.conns[id], w.table, tr, c', w'.table, keep)
         && w'.log == w.log + tr.recs
         && w'.conns == Updated(w.conns, id, c', keep)
         && w'.books == w.books[id := AfterRead(w.books[id], tr)]
       case Write(id, n, wend, c', keep) =>
         && id in w.conns && id in w.books
         && ConnWrites(w.conns[id], n, wend, c', keep)
         && w'.table == w.table && w'.log == w.log
         && w'.conns == Updated(w.conns, id, c', keep)
         && w'.books == w.books[id := w.books[id].(sent := w.books[id].sent + w.conns[id].outb[..n])]
       case Close(id) =>
         id in w.conns && w' == w.(conns := w.conns - {id})
  }

  // ---- The invariant ------------------------------------------------------

  function ArgvsOf(id: nat, log: seq<Rec>): seq<seq<bytes>> {
    if log == [] then []
    else (if log[0].id == id then [log[0].argv] else []) + ArgvsOf(id, log[1..])
  }

  function RepliesTo(id: nat, log: seq<Rec>): bytes {
    if log == [] then []
    else (if log[0].id == id then log[0].reply else []) + RepliesTo(id, log[1..])
  }

  /** The same replies, one by one. */
  function ReplyListTo(id: nat, log: seq<Rec>): seq<bytes> {
    if log == [] then []
    else (if log[0].id == id then [log[0].reply] else []) + ReplyListTo(id, log[1..])
  }

  /** Replaying the log request by request from `t` gives exactly its replies, and `t'`. */
  ghost predicate LogRuns(t: T.Chains, log: seq<Rec>, t': T.Chains)
    requires |t| == Hash.BUCKETS
    decreases |log|
  {
    if log == [] then t' == t
    else
      && Executes(log[0].id, t, log[0].argv, log[0])
      && LogRuns(Exec(t, log[0].argv, log[0].mem).0, log[1..], t')
  }

  /** What follows a client's replies: nothing, or the error lines of one event, the protocol error
      among them exactly when the leftover is malformed. */
  ghost predicate LinesOk(b: Book) {
    || b.tail == []
    || exists dend, end, fault ::
         ErrorsQueued(dend, end, b.tail, fault) && (dend == BadFrame <==> Parse(b.left).Malformed?)
  }

  /** What a client's book and the log say about each other, alive or not. */
  ghost predicate BookOk(id: nat, b: Book, log: seq<Rec>) {
    && LinesOk(b)
    && Takes(b.recv, ArgvsOf(id, log), b.left)
    && b.sent <= RepliesTo(id, log) + b.tail
  }

  /** What holds of a live connection between events. */
  ghost predicate ConnOk(id: nat, c: ConnSt, b: Book, log: seq<Rec>) {
    && |c.inb| <= ByteBuffer.MAX && |c.outb| <= ByteBuffer.MAX
    && c.inb == b.left
    && b.sent + c.outb == RepliesTo(id, log) + b.tail
    && (c.wantRead <==> !c.closing)
    && (c.wantWrite <==> c.outb != [])
    && (c.closing ==> c.outb != [])
    && (!c.closing ==> Parse(c.inb).NeedMore? && b.tail == [])
    && (b.clean && c.closing ==> Parse(c.inb).Malformed? && b.tail == ProtocolLine())
  }

  ghost predicate Inv(w: World) {
    && |w.table| == Hash.BUCKETS
    && LogRuns(T.Empty(), w.log, w.table)
    && (forall i :: 0 <= i < |w.log| ==> w.log[i].id in w.books)
    && (forall id :: id in w.books ==> BookOk(id, w.books[id], w.log))
    && (forall id :: id in w.conns ==> id in w.books && ConnOk(id, w.conns[id], w.books[id], w.log))
  }

  // ---- Books and logs -----------------------------------------------------

  lemma {:induction false} ArgvsAppend(id: nat, a: seq<Rec>, b: seq<Rec>)
    ensures ArgvsOf(id, a + b) == ArgvsOf(id, a) + ArgvsOf(id, b)
    ensures RepliesTo(id, a + b) == RepliesTo(id, a) + RepliesTo(id, b)
    decreases |a|
  {
    if a == [] {
      assert a + b == b;
    } else {
      ArgvsAppend(id, a[1..], b);
      assert (a + b)[1..] == a[1..] + b;
      Associative(if a[0].id == id then [a[0].argv] else [], ArgvsOf(id, a[1..]), ArgvsOf(id, b));
      Associative(if a[0].id == id then a[0].reply else [], RepliesTo(id, a[1..]), RepliesTo(id, b));
    }
  }

  ghost predicate AllOf(id: nat, recs: seq<Rec>) {
    forall i :: 0 <= i < |recs| ==> recs[i].id == id
  }

  lemma {:induction false} OwnRecs(id: nat, recs: seq<Rec>, other: nat)
    requires AllOf(id, recs)
    ensures RepliesTo(id, recs) == RepliesOf(recs)
    ensures other != id ==> ArgvsOf(other, recs) == [] && RepliesTo(other, recs) == []
    decreases |recs|
  {
    if recs == [] {
    } else {
      OwnRecs(id, recs[1..], other);
    }
  }

  lemma {:induction false} LogRunsAppend(t: T.Chains, a: seq<Rec>, mid: T.Chains, b: seq<Rec>, t': T.Chains)
    requires |t| == |mid| == Hash.BUCKETS && LogRuns(t, a, mid) && LogRuns(mid, b, t')
    ensures LogRuns(t, a + b, t')
    decreases |a|
  {
    hide Exec;
    if a == [] {
      assert a + b == b;
    } else {
      assert (a + b)[1..] == a[1..] + b;
      LogRunsAppend(Exec(t, a[0].argv, a[0].mem).0, a[1..], mid, b, t');
    }
  }

  /** What a dispatch loop took and did, in the terms of the books and the log. */
  lemma {:induction false} DispatchesMeaning(id: nat, t: T.Chains, inb: bytes, recs: seq<Rec>, t': T.Chains,
      rest: bytes)
    requires |t| == Hash.BUCKETS && Dispatches(id, t, inb, recs, t', rest)
    ensures |t'| == Hash.BUCKETS
    ensures AllOf(id, recs) && LogRuns(t, recs, t') && Takes(inb, ArgvsOf(id, recs), rest)
    decreases |recs|
  {
    hide Exec, Parse;
    if recs == [] {
    } else {
      var t1, tail := Exec(t, recs[0].argv, recs[0].mem).0, inb[Parse(inb).used..];
      DispatchesMeaning(id, t1, tail, recs[1..], t', rest);
      var argvs := ArgvsOf(id, recs);
      assert argvs == [recs[0].argv] + ArgvsOf(id, recs[1..]);
      assert argvs[1..] == ArgvsOf(id, recs[1..]);
      assert AllOf(id, recs) by {
        forall i | 0 <= i < |recs| ensures recs[i].id == id {
          if i > 0 { assert recs[i] == recs[1..][i - 1]; }
        }
      }
    }
  }

  // ---- Every step keeps the invariant -------------------------------------

  lemma StartOk()
    ensures Inv(Start())
  {
  }

  /** Records of others, appended, do not show in a client's part of the log. */
  lemma {:induction false} NothingOf(id: nat, log: seq<Rec>)
    requires forall k :: 0 <= k < |log| ==> log[k].id != id
    ensures ArgvsOf(id, log) == [] && RepliesTo(id, log) == [] && ReplyListTo(id, log) == []
    decreases |log|
  {
    if log == [] {
    } else {
      assert forall k :: 0 <= k < |log| - 1 ==> log[1..][k] == log[k + 1];
      NothingOf(id, log[1..]);
    }
  }

  lemma FreshOk(id: nat, log: seq<Rec>)
    requires forall i :: 0 <= i < |log| ==> log[i].id != id
    ensures BookOk(id, Book([], [], [], [], true), log)
    ensures ConnOk(id, FreshConn(), Book([], [], [], [], true), log)
  {
    NothingOf(id, log);
    assert Parse([]).NeedMore?;
  }

  lemma AcceptKeeps(w: World, id: nat, w': World)
    requires Inv(w) && Step(w, Accept(id), w')
    ensures Inv(w')
  {
    hide LogRuns, BookOk, ConnOk, T.Empty;
    FreshOk(id, w.log);
  }

  lemma WriteKeeps(w: World, id: nat, n: nat, wend: WriteEnd, c': ConnSt, keep: bool, w': World)
    requires Inv(w) && Step(w, Write(id, n, wend, c', keep), w')
    ensures Inv(w')
  {
    hide LogRuns, BookOk, ConnOk, ConnWrites, T.Empty;
    WriteKeepsBook(id, w.conns[id], w.books[id], w.log, n, wend, c', keep);
  }

  lemma WriteKeepsBook(id: nat, c: ConnSt, b: Book, log: seq<Rec>, n: nat, wend: WriteEnd, c': ConnSt, keep: bool)
    requires BookOk(id, b, log) && ConnOk(id, c, b, log) && ConnWrites(c, n, wend, c', keep)
    ensures var b' := b.(sent := b.sent + c.outb[..n]);
            BookOk(id, b', log) && (keep ==> ConnOk(id, c', b', log))
  {
    hide Parse, Takes, ProtocolLine, ErrorsQueued;
    assert LinesOk(b.(sent := b.sent + c.outb[..n]));
    assert c.outb == c.outb[..n] + c.outb[n..];
    Associative(b.sent, c.outb[..n], c.outb[n..]);
    assert b.sent + c.outb[..n] <= b.sent + c.outb;
  }

  /** The events of a connection that is winding down, and those that end with the peer gone. */
  lemma QuietReadKeepsBook(id: nat, c: ConnSt, b: Book, log: seq<Rec>, t: T.Chains, tr: ReadTrace, c': ConnSt,
      t': T.Chains, keep: bool)
    requires |t| == Hash.BUCKETS && BookOk(id, b, log) && ConnOk(id, c, b, log)
    requires ConnReads(id, c, t, tr, c', t', keep) && (c.closing || tr.end == Gone)
    ensures tr.recs == [] && t' == t
    ensures BookOk(id, AfterRead(b, tr), log)
    ensures keep ==> ConnOk(id, c', AfterRead(b, tr), log)
  {
    hide Parse, Exec, Takes, Dispatches, ProtocolLine, ReadLine, FrameLine, ErrorsQueued;
    TakesExtends(b.recv, ArgvsOf(id, log), b.left, tr.got);
    AppendNothing(b.tail);
    AppendNothing(b.recv);
    AppendNothing(c.inb);
  }

  lemma AppendNothing<X>(s: seq<X>)
    ensures s + [] == s
  {
  }

  lemma LinesAfter(id: nat, c: ConnSt, b: Book, t: T.Chains, tr: ReadTrace, c': ConnSt, t': T.Chains, keep: bool)
    requires |t| == Hash.BUCKETS && ConnReads(id, c, t, tr, c', t', keep) && !c.closing && tr.end != Gone
    requires b.tail == []
    ensures LinesOk(AfterRead(b, tr))
  {
    hide Parse, Dispatches, ErrorsQueued, RepliesOf, FrameLine, ReadLine, ReadEndsAt;
    assert b.tail + tr.errs == tr.errs;
  }

  /** The events that dispatch. */
  lemma BusyReadKeepsBook(id: nat, c: ConnSt, b: Book, log: seq<Rec>, t: T.Chains, tr: ReadTrace, c': ConnSt,
      t': T.Chains, keep: bool)
    requires |t| == Hash.BUCKETS && BookOk(id, b, log) && ConnOk(id, c, b, log)
    requires ConnReads(id, c, t, tr, c', t', keep) && !c.closing && tr.end != Gone
    ensures Dispatches(id, t, c.inb + tr.got, tr.recs, t', tr.rest)
    ensures BookOk(id, AfterRead(b, tr), log + tr.recs)
    ensures keep ==> ConnOk(id, c', AfterRead(b, tr), log + tr.recs)
  {
    DispatchesMeaning(id, t, c.inb + tr.got, tr.recs, t', tr.rest);
    TakesShrinks(c.inb + tr.got, ArgvsOf(id, tr.recs), tr.rest);
    hide Parse, Exec, Takes, Dispatches, ProtocolLine, ReadLine, FrameLine, ErrorsQueued;
    LinesAfter(id, c, b, t, tr, c', t', keep);
    hide LinesOk;
    if tr.dend != Broken {
      ErrorLines(tr);
    }
    ArgvsAppend(id, log, tr.recs);
    TakesExtends(b.recv, ArgvsOf(id, log), b.left, tr.got);
    TakesJoin(b.recv + tr.got, ArgvsOf(id, log), b.left + tr.got, ArgvsOf(id, tr.recs), tr.rest);
    OwnRecs(id, tr.recs, id + 1);
    AppendNothing(RepliesTo(id, log));
    LedgerMoves(b.sent, c.outb, RepliesTo(id, log), RepliesOf(tr.recs), tr.errs);
    assert b.tail + tr.errs == tr.errs;
  }

  lemma ErrorLines(tr: ReadTrace)
    requires ErrorsQueued(tr.dend, tr.end, tr.errs, tr.fault)
    ensures tr.dend != BadFrame && tr.end == Drained ==> tr.errs == []
    ensures tr.dend == BadFrame && tr.end == Drained && !tr.fault ==> tr.errs == ProtocolLine()
  {
    hide ProtocolLine;
    AppendNothing(ProtocolLine());
  }

  /** The book of the reading client after the event. */
  lemma ReadKeepsBook(id: nat, c: ConnSt, b: Book, log: seq<Rec>, t: T.Chains, tr: ReadTrace, c': ConnSt,
      t': T.Chains, keep: bool)
    requires |t| == Hash.BUCKETS && BookOk(id, b, log) && ConnOk(id, c, b, log)
    requires ConnReads(id, c, t, tr, c', t', keep)
    ensures AllOf(id, tr.recs) && LogRuns(t, tr.recs, t') && |t'| == Hash.BUCKETS
    ensures BookOk(id, AfterRead(b, tr), log + tr.recs)
    ensures keep ==> ConnOk(id, c', AfterRead(b, tr), log + tr.recs)
  {
    hide Parse, Exec, Takes, Dispatches, BookOk, ConnOk, AfterRead, ConnReads;
    if c.closing || tr.end == Gone {
      QuietReadKeepsBook(id, c, b, log, t, tr, c', t', keep);
      AppendNothing(log);
    } else {
      BusyReadKeepsBook(id, c, b, log, t, tr, c', t', keep);
      DispatchesMeaning(id, t, c.inb + tr.got, tr.recs, t', tr.rest);
    }
  }

  lemma LedgerMoves(sent: bytes, outb: bytes, replies: bytes, more: bytes, errs: bytes)
    requires sent + outb == replies
    ensures sent + (outb + more + errs) == replies + more + errs
    ensures sent <= replies + more + errs
  {
  }

  lemma ReadKeeps(w: World, id: nat, tr: ReadTrace, c': ConnSt, keep: bool, w': World)
    requires Inv(w) && Step(w, Read(id, tr, c', keep), w')
    ensures Inv(w')
  {
    hide Parse, Exec, LogRuns, BookOk, ConnOk, ConnReads, T.Empty, AfterRead;
    ReadKeepsBook(id, w.conns[id], w.books[id], w.log, w.table, tr, c', w'.table, keep);
    LogRunsAppend(T.Empty(), w.log, w.table, tr.recs, w'.table);
    forall other | other in w.books && other != id
      ensures BookOk(other, w.books[other], w'.log)
      ensures other in w.conns ==> ConnOk(other, w.conns[other], w.books[other], w'.log)
    {
      OthersUnmoved(id, other, w.books[other], w.log, tr.recs);
    }
  }

  /** Requests of one client do not show in the books of another. */
  lemma OthersUnmoved(id: nat, other: nat, b: Book, log: seq<Rec>, recs: seq<Rec>)
    requires other != id && AllOf(id, recs)
    ensures BookOk(other, b, log) ==> BookOk(other, b, log + recs)
    ensures forall c :: ConnOk(other, c, b, log) ==> ConnOk(other, c, b, log + recs)
  {
    hide Parse, Takes;
    ArgvsAppend(other, log, recs);
    OwnRecs(id, recs, other);
    assert ArgvsOf(other, log) + [] == ArgvsOf(other, log);
    assert RepliesTo(other, log) + [] == RepliesTo(other, log);
  }

  lemma StepKeeps(w: World, l: Label, w': World)
    requires Inv(w) && Step(w, l, w')
    ensures Inv(w')
  {
    hide LogRuns, ConnReads, ConnWrites, BookOk, ConnOk, T.Empty;
    match l {
      case Accept(id) => AcceptKeeps(w, id, w');
      case Read(id, tr, c', keep) => ReadKeeps(w, id, tr, c', keep, w');
      case Write(id, n, wend, c', keep) => WriteKeeps(w, id, n, wend, c', keep, w');
      case Close(id) =>
    }
  }
}
