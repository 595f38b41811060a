/** What a client gets when every event has room: independence of how its input is cut, and decodable
    replies followed by complete error lines. */
module Limits {
  import opened Bytes
  import opened CommandSpec
  import opened Departures
  import opened EventLoop
  import opened Resp
  import opened Runs
  import opened Stream
  import ByteBuffer
  import Hash
  import T = Table

  // ---- What one event queues and reads ------------------------------------

  /** No allocation for this client's queues was refused before step n. */
  ghost predicate Unrefused(ls: seq<Label>, n: nat, id: nat) {
    forall i :: 0 <= i < n && i < |ls| && ls[i].Read? && ls[i].id == id ==> !ls[i].tr.refusedIn && !ls[i].tr.refusedOut
  }

  /** What is buffered leaves room for one more chunk of 4096 bytes within 16 MiB, and what is queued
      leaves room for the replies and the protocol-error line of the event. */
  ghost predicate Roomy(c: ConnSt, tr: ReadTrace) {
    && tr.end != Gone
    && |c.inb + tr.got| <= 16773120
    && |c.outb + RepliesOf(tr.recs) + FrameLine(tr.dend)| <= 16777216
  }

  /** The step reads from this client, which is not winding down. */
  ghost predicate Reads(w: World, l: Label, id: nat) {
    l.Read? && l.id == id && id in w.conns && !w.conns[id].closing
  }

  /** Every event before step n in which this client was read had room. */
  ghost predicate RoomyRun(ws: seq<World>, ls: seq<Label>, n: nat, id: nat)
    requires |ws| == |ls| + 1
  {
    forall i :: 0 <= i < n && i < |ls| && Reads(ws[i], ls[i], id) ==> Roomy(ws[i].conns[id], ls[i].tr)
  }

  /** An event that is refused no allocation drains the socket and queues everything it should exactly
      when it had room. */
  lemma EventCleanIff(id: nat, c: ConnSt, t: T.Chains, tr: ReadTrace, c': ConnSt, t': T.Chains, keep: bool)
    requires |t| == Hash.BUCKETS && ConnReads(id, c, t, tr, c', t', keep) && !c.closing
    requires !tr.refusedIn && !tr.refusedOut
    ensures tr.end == Drained && tr.dend != Broken && !tr.fault <==> Roomy(c, tr)
  {
    hide Parse, Dispatches, RepliesOf, ProtocolLine;
    AppendNothing(c.outb + RepliesOf(tr.recs) + FrameLine(tr.dend));
    if tr.end == Drained && tr.dend != Broken && !tr.fault {
      AppendNothing(FrameLine(tr.dend));
      Associative(c.outb, RepliesOf(tr.recs), tr.errs);
    }
  }

  // ---- Nothing is cut short -----------------------------------------------

  lemma CleanStep(w: World, l: Label, w': World, id: nat)
    requires Inv(w) && Step(w, l, w') && id in w'.books
    requires l.Read? && l.id == id ==> !l.tr.refusedIn && !l.tr.refusedOut
    ensures id !in w.books ==> w'.books[id].clean && !Reads(w, l, id)
    ensures id in w.books ==>
              (w'.books[id].clean <==>
               w.books[id].clean && (Reads(w, l, id) ==> Roomy(w.conns[id], l.tr)))
  {
    hide LogRuns, BookOk, ConnOk, ConnReads, ConnWrites, T.Empty, Roomy;
    if l.Read? && l.id == id {
      if w.conns[id].closing {
        QuietEvent(id, w.conns[id], w.table, l.tr, l.c', w'.table, l.keep);
      } else {
        EventCleanIff(id, w.conns[id], w.table, l.tr, l.c', w'.table, l.keep);
      }
    }
  }

  lemma QuietEvent(id: nat, c: ConnSt, t: T.Chains, tr: ReadTrace, c': ConnSt, t': T.Chains, keep: bool)
    requires |t| == Hash.BUCKETS && ConnReads(id, c, t, tr, c', t', keep) && c.closing
    ensures tr == ReadTrace([], Drained, false, [], Waiting, c.inb, [], false, false)
  {
    hide Parse, Dispatches;
  }

  lemma UnknownStays(w: World, l: Label, w': World, id: nat)
    requires Inv(w) && Step(w, l, w') && id !in w'.books
    ensures id !in w.books && !Reads(w, l, id)
  {
    hide LogRuns, BookOk, ConnOk, ConnReads, ConnWrites, T.Empty;
  }

  /** A client, alive or gone, has been cut short by nothing exactly when every event that read it had
      room, no allocation for it having been refused. */
  lemma {:induction false} CleanIffRoomy(ws: seq<World>, ls: seq<Label>, n: nat, id: nat)
    requires IsRun(ws, ls) && n <= |ls| && Unrefused(ls, n, id)
    ensures id in ws[n].books ==> (ws[n].books[id].clean <==> RoomyRun(ws, ls, n, id))
    ensures id !in ws[n].books ==> RoomyRun(ws, ls, n, id)
    decreases n
  {
    hide IsRun, Inv, Step, Roomy, Reads;
    if n == 0 {
      StartsEmpty(ws, ls, id);
    } else {
      var w, l, w' := ws[n - 1], ls[n - 1], ws[n];
      RunStep(ws, ls, n - 1);
      CleanIffRoomy(ws, ls, n - 1, id);
      if id in w'.books {
        CleanStep(w, l, w', id);
      } else {
        UnknownStays(w, l, w', id);
      }
    }
  }

  lemma StartsEmpty(ws: seq<World>, ls: seq<Label>, id: nat)
    requires IsRun(ws, ls)
    ensures id !in ws[0].conns && id !in ws[0].books
  {
    hide Step;
  }

  // ---- Totals that suffice ------------------------------------------------

  /** All the client ever sent leaves room for one more chunk in a queue, and all its replies for one
      protocol-error line. */
  ghost predicate WithinTotals(w: World, id: nat)
    ensures WithinTotals(w, id) ==> id in w.books
  {
    && id in w.books
    && |w.books[id].recv| <= 16773120
    && |RepliesTo(id, w.log)| + |ProtocolLine()| <= 16777216
  }

  lemma EarlierWithin(w: World, l: Label, w': World, id: nat)
    requires Inv(w) && Step(w, l, w') && id in w.books && WithinTotals(w', id)
    ensures WithinTotals(w, id)
  {
    hide LogRuns, BookOk, ConnOk, ConnReads, ConnWrites, T.Empty, ProtocolLine;
    assert w'.log == w.log + w'.log[|w.log|..];
    ArgvsAppend(id, w.log, w'.log[|w.log|..]);
  }

  lemma RoomyWithin(w: World, l: Label, w': World, id: nat)
    requires Inv(w) && Step(w, l, w') && Reads(w, l, id) && l.tr.end != Gone && WithinTotals(w', id)
    ensures Roomy(w.conns[id], l.tr)
  {
    hide LogRuns, ConnReads, T.Empty, ProtocolLine, LinesOk, Takes, Parse;
    var c, b := w.conns[id], w.books[id];
    assert BookOk(id, b, w.log) && ConnOk(id, c, b, w.log);
    TakesShrinks(b.recv, ArgvsOf(id, w.log), b.left);
    AppendNothing(RepliesTo(id, w.log));
    ReadKeepsBook(id, c, b, w.log, w.table, l.tr, l.c', w'.table, l.keep);
    ArgvsAppend(id, w.log, l.tr.recs);
    OwnRecs(id, l.tr.recs, id);
    assert |FrameLine(l.tr.dend)| <= |ProtocolLine()|;
  }

  /** A client whose whole traffic is within the totals had room at every event, unless its peer closed
      or failed. */
  lemma {:induction false} TotalsSuffice(ws: seq<World>, ls: seq<Label>, n: nat, id: nat)
    requires IsRun(ws, ls) && n <= |ls| && (id in ws[n].books ==> WithinTotals(ws[n], id))
    requires forall i :: 0 <= i < n && Reads(ws[i], ls[i], id) ==> ls[i].tr.end != Gone
    ensures RoomyRun(ws, ls, n, id)
    decreases n
  {
    hide IsRun, Inv, Step, Roomy, Reads, WithinTotals;
    if n == 0 {
    } else {
      var w, l, w' := ws[n - 1], ls[n - 1], ws[n];
      RunStep(ws, ls, n - 1);
      if id in w'.books {
        if id in w.books {
          EarlierWithin(w, l, w', id);
        }
        TotalsSuffice(ws, ls, n - 1, id);
        if Reads(w, l, id) {
          RoomyWithin(w, l, w', id);
        }
      } else {
        UnknownStays(w, l, w', id);
        TotalsSuffice(ws, ls, n - 1, id);
      }
    }
  }

  // ---- The requests are those of the input --------------------------------

  /** The dispatched requests, and whether a protocol error stopped the connection, are those of
      the input parsed in one go, however it was cut into reads and events. */
  lemma CleanMeansParsed(w: World, id: nat, input: bytes)
    requires Inv(w) && id in w.conns && id in w.books && w.books[id].clean
    requires w.books[id].recv <= input && (w.books[id].recv == input || w.conns[id].closing)
    ensures ArgvsOf(id, w.log) == Split(input).argvs
    ensures w.conns[id].closing == Split(input).bad
    ensures w.books[id].tail == if Split(input).bad then ProtocolLine() else []
  {
    hide Takes, ProtocolLine, LogRuns, LinesOk;
    var c, b := w.conns[id], w.books[id];
    assert ConnOk(id, c, b, w.log) && BookOk(id, b, w.log);
    TakesThenSplit(b.recv, ArgvsOf(id, w.log), b.left);
    assert Split(b.left) == Frames([], b.left, c.closing);
    assert ArgvsOf(id, w.log) + [] == ArgvsOf(id, w.log);
    hide Parse;
    SplitExtends(b.recv, input[|b.recv|..]);
    assert b.recv + input[|b.recv|..] == input;
    if b.recv == input {
      assert b.recv + [] == input;
    }
  }

  /** The connection has wound down: it is about to close, or left when its last byte was written. */
  ghost predicate WoundDown(ws: seq<World>, ls: seq<Label>, id: nat)
    requires |ws| == |ls| + 1
  {
    if id in ws[|ls|].conns then ws[|ls|].conns[id].closing else LeftDrained(ws, ls, id)
  }

  /** A client that has been given all of `input`, or as much of it as came before a protocol error,
      with room at every event: it is connected, or gone with everything written. */
  ghost predicate Fed(ws: seq<World>, ls: seq<Label>, id: nat, input: bytes)
    requires |ws| == |ls| + 1
  {
    var w := ws[|ls|];
    && Unrefused(ls, |ls|, id) && RoomyRun(ws, ls, |ls|, id) && id in w.books
    && (id in w.conns || LeftDrained(ws, ls, id))
    && w.books[id].recv <= input && (w.books[id].recv == input || WoundDown(ws, ls, id))
  }

  /** The bytes a client has been given and is about to be given. */
  function Given(w: World, id: nat): bytes
    requires id in w.books
  {
    w.books[id].sent + if id in w.conns then w.conns[id].outb else []
  }

  /** However its input was cut into reads and events, a client's dispatched requests are the frames
      of the input parsed in one go; it winds down exactly when that parse ends in an error, with one
      protocol-error line; and what it is given are the replies and that line. */
  lemma DispatchedIsParsed(ws: seq<World>, ls: seq<Label>, id: nat, input: bytes)
    requires IsRun(ws, ls) && Fed(ws, ls, id, input)
    ensures var w := ws[|ls|];
            && ArgvsOf(id, w.log) == Split(input).argvs
            && WoundDown(ws, ls, id) == Split(input).bad
            && w.books[id].tail == (if Split(input).bad then ProtocolLine() else [])
            && Given(w, id) == RepliesTo(id, w.log) + w.books[id].tail
  {
    var n := |ls|;
    if id in ws[n].conns {
      hide Inv, Step, Split, ProtocolLine, LeftDrained, RoomyRun, Unrefused;
      ReplyConservation(ws, ls, n, id);
      CleanIffRoomy(ws, ls, n, id);
      RunsKeepInvariant(ws, ls);
      CleanMeansParsed(ws[n], id, input);
    } else {
      DrainedIsParsed(ws, ls, id, input);
    }
  }

  lemma DrainedIsParsed(ws: seq<World>, ls: seq<Label>, id: nat, input: bytes)
    requires IsRun(ws, ls) && Fed(ws, ls, id, input) && id !in ws[|ls|].conns
    ensures var w := ws[|ls|];
            && ArgvsOf(id, w.log) == Split(input).argvs && Split(input).bad
            && w.books[id].tail == ProtocolLine()
            && Given(w, id) == RepliesTo(id, w.log) + w.books[id].tail
  {
    hide Inv, Step, Split, ProtocolLine;
    var i :| 0 <= i < |ls| && i < |ws| && DrainsAway(ws[i], ls[i], id);
    DrainedBeforeClose(ws, ls, i, id);
    CleanIffRoomy(ws, ls, i, id);
    RunsKeepInvariant(ws, ls);
    CleanMeansParsed(ws[i], id, input);
    AppendNothing(ws[|ls|].books[id].sent);
  }

  // ---- Two runs over one input --------------------------------------------

  /** The client has the server to itself and memory has lasted. */
  ghost predicate Alone(w: World, id: nat) {
    AllOf(id, w.log) && forall i :: 0 <= i < |w.log| ==> w.log[i].mem
  }

  lemma {:induction false} SameRequestsSameReplies(t: T.Chains, a: seq<Rec>, ta: T.Chains, b: seq<Rec>, tb: T.Chains,
      i: nat, j: nat)
    requires |t| == Hash.BUCKETS && LogRuns(t, a, ta) && LogRuns(t, b, tb)
    requires AllOf(i, a) && AllOf(j, b) && ArgvsOf(i, a) == ArgvsOf(j, b)
    requires (forall k :: 0 <= k < |a| ==> a[k].mem) && (forall k :: 0 <= k < |b| ==> b[k].mem)
    ensures RepliesTo(i, a) == RepliesTo(j, b) && ta == tb
    decreases |a|
  {
    hide Exec;
    ArgvsCount(i, a);
    ArgvsCount(j, b);
    if a == [] {
    } else {
      assert ArgvsOf(i, a)[0] == a[0].argv && ArgvsOf(j, b)[0] == b[0].argv;
      assert ArgvsOf(i, a)[1..] == ArgvsOf(i, a[1..]) && ArgvsOf(j, b)[1..] == ArgvsOf(j, b[1..]);
      SameRequestsSameReplies(Exec(t, a[0].argv, true).0, a[1..], ta, b[1..], tb, i, j);
    }
  }

  lemma {:induction false} ArgvsCount(id: nat, recs: seq<Rec>)
    requires AllOf(id, recs)
    ensures |ArgvsOf(id, recs)| == |recs|
    decreases |recs|
  {
    if recs == [] {
    } else {
      ArgvsCount(id, recs[1..]);
    }
  }

  /** Two runs that feed the same input with room at every event, cut into reads and readable events in any
      two ways and interleaved with any writes, dispatch the same requests in the same order and
      stop alike, with the same error line; alone on the server they also give the same bytes and
      leave the same table. */
  lemma RunsAgree(ws1: seq<World>, ls1: seq<Label>, ws2: seq<World>, ls2: seq<Label>, id1: nat, id2: nat, input: bytes)
    requires IsRun(ws1, ls1) && IsRun(ws2, ls2)
    requires Fed(ws1, ls1, id1, input) && Fed(ws2, ls2, id2, input)
    ensures var w1, w2 := ws1[|ls1|], ws2[|ls2|];
            && ArgvsOf(id1, w1.log) == ArgvsOf(id2, w2.log)
            && WoundDown(ws1, ls1, id1) == WoundDown(ws2, ls2, id2)
            && w1.books[id1].tail == w2.books[id2].tail
            && (Alone(w1, id1) && Alone(w2, id2) ==> w1.table == w2.table && Given(w1, id1) == Given(w2, id2))
  {
    DispatchedIsParsed(ws1, ls1, id1, input);
    DispatchedIsParsed(ws2, ls2, id2, input);
    RunsKeepInvariant(ws1, ls1);
    RunsKeepInvariant(ws2, ls2);
    hide IsRun, Step, Takes, Parse, T.Empty, ProtocolLine, Split, WoundDown;
    var w1, w2 := ws1[|ls1|], ws2[|ls2|];
    assert Inv(w1) && Inv(w2);
    hide LogRuns;
    if Alone(w1, id1) && Alone(w2, id2) {
      SameRequestsSameReplies(T.Empty(), w1.log, w1.table, w2.log, w2.table, id1, id2);
    }
  }

  // ---- What the error lines are -------------------------------------------

  /** The event turns the connection to winding down. */
  ghost predicate WindsDown(w: World, l: Label, id: nat) {
    && Reads(w, l, id) && l.tr.end != Gone && l.tr.dend != Broken
    && (l.tr.dend == BadFrame || l.tr.end != Drained)
  }

  /** The event's error lines, cut short only by a refusal or by a queue they overflow, are the bytes
      `tail` that follow the replies; they hold the protocol error exactly when the leftover is a
      malformed frame. */
  ghost predicate LinesFrom(w: World, l: Label, id: nat, b: Book) {
    && WindsDown(w, l, id)
    && b.tail == l.tr.errs && b.left == l.tr.rest
    && ErrorsQueued(l.tr.dend, l.tr.end, l.tr.errs, l.tr.fault)
    && (l.tr.dend == BadFrame <==> Parse(b.left).Malformed?)
    && (!l.tr.refusedOut ==> (l.tr.fault <==> !LinesFit(w.conns[id], l.tr)))
  }

  ghost predicate LinesFit(c: ConnSt, tr: ReadTrace) {
    |c.outb + RepliesOf(tr.recs) + FrameLine(tr.dend) + ReadLine(tr.end)| <= 16777216
  }

  lemma LinesOfEvent(id: nat, c: ConnSt, t: T.Chains, tr: ReadTrace, c': ConnSt, t': T.Chains, keep: bool)
    requires |t| == Hash.BUCKETS && ConnReads(id, c, t, tr, c', t', keep) && !c.closing
    ensures tr.end != Gone && tr.dend != Broken ==>
              && ErrorsQueued(tr.dend, tr.end, tr.errs, tr.fault)
              && (tr.dend == BadFrame <==> Parse(tr.rest).Malformed?)
              && (!tr.refusedOut ==> (tr.fault <==> !LinesFit(c, tr)))
    ensures tr.end == Gone || tr.dend == Broken || (tr.dend != BadFrame && tr.end == Drained) ==> tr.errs == []
    ensures keep ==> tr.end != Gone && tr.dend != Broken && (c'.closing <==> tr.dend == BadFrame || tr.end != Drained)
  {
    hide Parse, Dispatches, RepliesOf, ProtocolLine, FrameLine, ReadLine;
    if tr.end != Gone && tr.dend != Broken {
      ErrorLines(tr);
      if !tr.fault {
        assert tr.errs == FrameLine(tr.dend) + ReadLine(tr.end);
        Associative(c.outb + RepliesOf(tr.recs), FrameLine(tr.dend), ReadLine(tr.end));
      }
    }
  }

  /** What one step does to the error lines of a client. */
  lemma LinesStep(w: World, l: Label, w': World, id: nat)
    requires Inv(w) && Step(w, l, w') && id in w'.books
    ensures id !in w.books ==> w'.books[id].tail == [] && (id in w'.conns ==> !w'.conns[id].closing)
    ensures id in w.books && WindsDown(w, l, id) ==> LinesFrom(w, l, id, w'.books[id])
    ensures id in w.books && !WindsDown(w, l, id) ==>
              && w'.books[id].tail == w.books[id].tail
              && (w.books[id].tail != [] || (id in w.conns && w.conns[id].closing) ==>
                    w'.books[id].left == w.books[id].left)
              && (id in w'.conns && w'.conns[id].closing ==> id in w.conns && w.conns[id].closing)
  {
    hide LogRuns, BookOk, ConnReads, T.Empty, ErrorsQueued, Parse, LinesFit, ProtocolLine;
    if l.Read? && l.id == id {
      var c, tr := w.conns[id], l.tr;
      assert ConnOk(id, c, w.books[id], w.log);
      if c.closing {
        QuietEvent(id, c, w.table, tr, l.c', w'.table, l.keep);
        QuietKeeps(id, c, w.table, tr, l.c', w'.table, l.keep);
        AppendNothing(w.books[id].tail);
      } else {
        LinesOfEvent(id, c, w.table, tr, l.c', w'.table, l.keep);
        assert w.books[id].tail + tr.errs == tr.errs;
      }
    }
  }

  lemma QuietKeeps(id: nat, c: ConnSt, t: T.Chains, tr: ReadTrace, c': ConnSt, t': T.Chains, keep: bool)
    requires |t| == Hash.BUCKETS && ConnReads(id, c, t, tr, c', t', keep) && c.closing
    ensures keep ==> c'.closing
  {
    hide Parse, Dispatches;
  }

  /** The error lines of a client, alive or gone, are those of the one event that turned it to winding
      down; without such an event there are none. */
  lemma {:induction false} LinesComeFrom(ws: seq<World>, ls: seq<Label>, n: nat, id: nat) returns (i: nat)
    requires IsRun(ws, ls) && n <= |ls| && id in ws[n].books
    ensures ws[n].books[id].tail != [] || (id in ws[n].conns && ws[n].conns[id].closing) ==>
              i < n && LinesFrom(ws[i], ls[i], id, ws[n].books[id])
    decreases n
  {
    hide IsRun, Inv, Step, LinesFrom, WindsDown;
    i := 0;
    if n == 0 {
      StartsEmpty(ws, ls, id);
      assert false;
    } else {
      var w, l, w' := ws[n - 1], ls[n - 1], ws[n];
      RunStep(ws, ls, n - 1);
      LinesStep(w, l, w', id);
      if id in w.books {
        i := LinesComeFrom(ws, ls, n - 1, id);
        if WindsDown(w, l, id) {
          i := n - 1;
        } else if i < n - 1 && LinesFrom(ws[i], ls[i], id, w.books[id]) {
          SameLines(ws[i], ls[i], id, w.books[id], w'.books[id]);
        }
      }
    }
  }

  lemma SameLines(w: World, l: Label, id: nat, b: Book, b': Book)
    requires LinesFrom(w, l, id, b)
    ensures b'.tail == b.tail && b'.left == b.left ==> LinesFrom(w, l, id, b')
  {
    hide WindsDown, ErrorsQueued, Parse, LinesFit;
  }

  /** A client that never has more than 16773120 bytes buffered, no allocation for it refused, is never
      told that memory or room has run out: what follows its replies is at most the protocol-error
      line. */
  lemma NeverOutOfRoom(ws: seq<World>, ls: seq<Label>, n: nat, id: nat)
    requires IsRun(ws, ls) && n <= |ls| && id in ws[n].books && Unrefused(ls, n, id)
    requires forall i :: 0 <= i < n && Reads(ws[i], ls[i], id) ==> |ws[i].conns[id].inb + ls[i].tr.got| <= 16773120
    ensures ws[n].books[id].tail <= FrameLine(BadFrame)
  {
    var i := LinesComeFrom(ws, ls, n, id);
    if ws[n].books[id].tail != [] {
      RunStep(ws, ls, i);
      DrainedWithin(ws[i], ls[i], ws[i + 1], id);
      hide IsRun, Inv, Step, Parse, FrameLine, LinesFit;
      var tr := ls[i].tr;
      var p, q :| tr.errs == p + q && p <= FrameLine(tr.dend) && q <= ReadLine(tr.end);
      NoFrameLine(tr.dend);
      assert q == [];
      AppendNothing(p);
    }
  }

  lemma NoFrameLine(dend: DispatchEnd)
    ensures dend != BadFrame ==> FrameLine(dend) == []
  {
  }

  lemma DrainedWithin(w: World, l: Label, w': World, id: nat)
    requires Inv(w) && Step(w, l, w') && Reads(w, l, id) && !l.tr.refusedIn
    requires |w.conns[id].inb + l.tr.got| <= 16773120
    ensures l.tr.end == Drained || l.tr.end == Gone
    ensures ReadLine(l.tr.end) == []
  {
    hide LogRuns, BookOk, ConnOk, T.Empty, Dispatches, Parse;
  }

  /** The event that turned the client to winding down was refused nothing and its error lines fitted. */
  ghost predicate LinesHadRoom(ws: seq<World>, ls: seq<Label>, n: nat, id: nat)
    requires |ws| == |ls| + 1
  {
    forall i :: 0 <= i < n && i < |ls| && WindsDown(ws[i], ls[i], id) ==>
      !ls[i].tr.refusedOut && LinesFit(ws[i].conns[id], ls[i].tr)
  }

  lemma LinesComplete(w: World, l: Label, id: nat, b: Book)
    requires LinesFrom(w, l, id, b) && !l.tr.refusedOut && LinesFit(w.conns[id], l.tr)
    ensures b.tail == FrameLine(l.tr.dend) + ReadLine(l.tr.end)
  {
    hide WindsDown, Parse, LinesFit, FrameLine, ReadLine;
  }

  /** The complete error lines of a client. */
  lemma CompleteLines(ws: seq<World>, ls: seq<Label>, n: nat, id: nat) returns (dend: DispatchEnd, end: ReadEnd)
    requires IsRun(ws, ls) && n <= |ls| && id in ws[n].books && LinesHadRoom(ws, ls, n, id)
    ensures ws[n].books[id].tail == FrameLine(dend) + ReadLine(end)
    ensures ErrorReplies(dend, end) != [] ==> (dend == BadFrame <==> Parse(ws[n].books[id].left).Malformed?)
    ensures id in ws[n].conns ==> (ws[n].conns[id].closing <==> ErrorReplies(dend, end) != [])
  {
    var i := LinesComeFrom(ws, ls, n, id);
    WaitingHasNone(ws, ls, n, id);
    hide IsRun, Step, Inv, Parse, ErrorsQueued, LinesFit, ProtocolLine;
    dend, end := Waiting, Drained;
    if ws[n].books[id].tail != [] || (id in ws[n].conns && ws[n].conns[id].closing) {
      LinesComplete(ws[i], ls[i], id, ws[n].books[id]);
      dend, end := ls[i].tr.dend, ls[i].tr.end;
    }
  }

  lemma WaitingHasNone(ws: seq<World>, ls: seq<Label>, n: nat, id: nat)
    requires IsRun(ws, ls) && n <= |ls|
    ensures id in ws[n].conns && !ws[n].conns[id].closing ==> id in ws[n].books && ws[n].books[id].tail == []
  {
    if id in ws[n].conns {
      ReplyConservation(ws, ls, n, id);
    }
  }

  /** A client that decodes what it was sent and what is still queued gets exactly one reply per
      dispatched request, the k-th being the reply to its k-th request, then the error lines of the
      event that turned it to winding down, if any, and nothing else: a protocol error exactly when a
      malformed frame is left over. It may be waiting, winding down, or gone with everything written. */
  lemma OneReplyPerRequest(ws: seq<World>, ls: seq<Label>, n: nat, id: nat, stream: bytes)
    returns (dend: DispatchEnd, end: ReadEnd)
    requires IsRun(ws, ls) && n <= |ls| && Owed(ws[n], id, stream)
    requires SafeEchoes(ArgvsOf(id, ws[n].log)) && LinesHadRoom(ws, ls, n, id)
    ensures DecodesTo(id, ws[n].log, stream, dend, end)
    ensures ErrorReplies(dend, end) != [] ==> (dend == BadFrame <==> Parse(ws[n].books[id].left).Malformed?)
    ensures id in ws[n].conns ==> (ws[n].conns[id].closing <==> ErrorReplies(dend, end) != [])
  {
    assert id in ws[n].books;
    hide IsRun, SafeEchoes, LinesHadRoom, Parse, DecodesTo, ErrorReplies, FrameLine, ReadLine, Owed;
    dend, end := CompleteLines(ws, ls, n, id);
    RepliesThenLines(ws, ls, n, id, stream, dend, end);
  }
}
