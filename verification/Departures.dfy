/** How connections leave, and what stays true of them afterwards. */
module Departures {
  import opened EventLoop
  import opened Runs
  import opened Stream
  import ByteBuffer
  import Hash
  import Resp
  import T = Table

  /** Why a connection was removed: everything it was owed had been written; the peer closed or
      failed; the socket reported a hang-up; a reply did not fit or found no memory; the error line
      that should have closed it found no memory; or epoll would not take its interest mask. */
  datatype Departure = AllWritten | PeerLeft | HungUp | ReplyLost | ErrorLineLost | EpollRefused

  /** Everything the client is owed has been written. */
  ghost predicate PaidOff(w: World, id: nat) {
    id in w.books && w.books[id].sent == RepliesTo(id, w.log) + w.books[id].tail
  }

  /** The step from w to w' removed the connection, for this reason. */
  ghost predicate Explains(d: Departure, w: World, l: Label, w': World, id: nat)
    requires id in w.conns
  {
    var c := w.conns[id];
    match d
    case AllWritten => l.Write? && l.id == id && l.wend == Flushed && c.closing && PaidOff(w', id)
    case PeerLeft =>
      || (l.Write? && l.id == id && l.wend == PeerGone)
      || (l.Read? && l.id == id && !c.closing && l.tr.end == Gone)
    case HungUp => l == Close(id)
    case ReplyLost =>
      && l.Read? && l.id == id && !c.closing && l.tr.end != Gone && l.tr.dend == Broken
      && (l.tr.refusedOut || |c.outb + RepliesOf(l.tr.recs)| > ByteBuffer.MAX)
    case ErrorLineLost =>
      && l.Read? && l.id == id && !c.closing && (l.tr.dend == BadFrame || l.tr.end != Drained)
      && l.tr.fault && l.tr.refusedOut && c.outb == [] && RepliesOf(l.tr.recs) == [] && l.tr.errs == []
    case EpollRefused =>
      || (l.Read? && l.id == id && GoesOnReading(c, l.tr))
      || (l.Write? && l.id == id && l.wend == Flushed && !c.closing && PaidOff(w', id))
  }

  /** The step keeps a connection exactly when that leaves it something to wait for, as it does while
      epoll works. */
  ghost predicate StepKept(w: World, l: Label) {
    && (l.Read? && l.id in w.conns ==> (l.keep <==> GoesOnReading(w.conns[l.id], l.tr)))
    && (l.Write? && l.id in w.conns ==> (l.keep <==> GoesOnWriting(w.conns[l.id], l.wend)))
  }

  /** No allocation of the step was refused. */
  ghost predicate StepGranted(l: Label) {
    l.Read? ==> NothingRefused(l.tr)
  }

  lemma LinesAreShort(dend: DispatchEnd, end: ReadEnd)
    ensures |FrameLine(dend) + ReadLine(end)| < 100
    ensures dend == BadFrame || (end != Drained && end != Gone) ==> FrameLine(dend) + ReadLine(end) != []
  {
  }

  /** Every removal in every run has one of the six reasons. While memory lasts and epoll works only
      four are left, and a reply is lost only by overflowing the queue. */
  lemma EveryRemoval(ws: seq<World>, ls: seq<Label>, i: nat, id: nat) returns (d: Departure)
    requires IsRun(ws, ls) && i < |ls| && id in ws[i].conns && id !in ws[i + 1].conns
    ensures Explains(d, ws[i], ls[i], ws[i + 1], id)
    ensures StepKept(ws[i], ls[i]) ==> d != EpollRefused
    ensures StepGranted(ls[i]) ==>
              && d != ErrorLineLost
              && (d == ReplyLost ==> |ws[i].conns[id].outb + RepliesOf(ls[i].tr.recs)| > ByteBuffer.MAX)
  {
    hide IsRun, Inv, Step, StepKept, StepGranted, Explains, RepliesOf;
    RunStep(ws, ls, i);
    var w, l, w' := ws[i], ls[i], ws[i + 1];
    match l {
      case Accept(_) =>
        StepRemoves(w, l, w', id);
        assert false;
      case Close(_) =>
        d := CloseRemoves(w, l, w', id);
      case Write(_, _, _, _, _) =>
        d := WriteRemoves(w, l, w', id);
      case Read(_, _, _, _) =>
        d := ReadRemoves(w, l, w', id);
    }
  }

  lemma StepRemoves(w: World, l: Label, w': World, id: nat)
    requires Inv(w) && Step(w, l, w') && id in w.conns && id !in w'.conns
    ensures !l.Accept? && l.id == id
    ensures l.Read? || l.Write? ==> !l.keep
    ensures id in w.books && id in w'.books && ConnOk(id, w.conns[id], w.books[id], w.log)
    ensures !w.conns[id].closing || w.conns[id].outb != []
    ensures |w.table| == Hash.BUCKETS
    ensures l.Read? ==> ConnReads(id, w.conns[id], w.table, l.tr, l.c', w'.table, l.keep)
  {
    hide LogRuns, BookOk, Takes, T.Empty, ConnReads, ConnWrites;
  }

  lemma CloseRemoves(w: World, l: Label, w': World, id: nat) returns (d: Departure)
    requires Inv(w) && Step(w, l, w') && id in w.conns && id !in w'.conns && l.Close?
    ensures d == HungUp && Explains(d, w, l, w', id)
  {
    hide Inv, Step;
    StepRemoves(w, l, w', id);
    d := HungUp;
  }

  lemma FlushedPays(w: World, l: Label, w': World, id: nat)
    requires Inv(w) && Step(w, l, w') && l.Write? && l.id == id && !l.keep && id in w.conns
    ensures l.wend != Blocked
    ensures l.wend == Flushed ==> PaidOff(w', id)
  {
    hide LogRuns, BookOk, Takes, T.Empty, Resp.Parse, ProtocolLine;
    assert ConnOk(id, w.conns[id], w.books[id], w.log);
    if l.wend == Flushed {
      assert w.conns[id].outb[..l.n] == w.conns[id].outb;
    }
  }

  lemma WriteRemoves(w: World, l: Label, w': World, id: nat) returns (d: Departure)
    requires Inv(w) && Step(w, l, w') && id in w.conns && id !in w'.conns && l.Write?
    ensures Explains(d, w, l, w', id)
    ensures d in {AllWritten, PeerLeft, EpollRefused} && (StepKept(w, l) ==> d != EpollRefused)
  {
    hide Inv, Step, ConnOk, ConnReads, PaidOff;
    StepRemoves(w, l, w', id);
    FlushedPays(w, l, w', id);
    if l.wend == PeerGone {
      d := PeerLeft;
    } else {
      d := if w.conns[id].closing then AllWritten else EpollRefused;
    }
  }

  /** A connection that is left with nothing to send although it must wind down has lost its error
      line to a refusal: the line alone would have fitted. */
  lemma LineLost(id: nat, c: ConnSt, t: T.Chains, tr: ReadTrace, c': ConnSt, t': T.Chains, keep: bool)
    requires |t| == Hash.BUCKETS && ConnReads(id, c, t, tr, c', t', keep) && !c.closing
    requires tr.end != Gone && tr.dend != Broken && !GoesOnReading(c, tr)
    ensures tr.dend == BadFrame || tr.end != Drained
    ensures tr.fault && tr.refusedOut && c.outb == [] && RepliesOf(tr.recs) == [] && tr.errs == []
  {
    hide Dispatches, Resp.Parse, FrameLine, ReadLine, RepliesOf;
    LinesAreShort(tr.dend, tr.end);
    assert |c.outb + RepliesOf(tr.recs) + tr.errs| == 0;
    AppendNothing(FrameLine(tr.dend));
    assert c.outb + RepliesOf(tr.recs) + FrameLine(tr.dend) + ReadLine(tr.end)
        == FrameLine(tr.dend) + ReadLine(tr.end);
  }

  lemma ReplyDidNotFit(id: nat, c: ConnSt, t: T.Chains, tr: ReadTrace, c': ConnSt, t': T.Chains, keep: bool)
    requires |t| == Hash.BUCKETS && ConnReads(id, c, t, tr, c', t', keep) && !c.closing
    requires tr.end != Gone && tr.dend == Broken
    ensures tr.refusedOut || |c.outb + RepliesOf(tr.recs)| > ByteBuffer.MAX
  {
    hide Dispatches, Resp.Parse, FrameLine, ReadLine, RepliesOf, ReadEndsAt;
  }

  lemma ReadRemoves(w: World, l: Label, w': World, id: nat) returns (d: Departure)
    requires Inv(w) && Step(w, l, w') && id in w.conns && id !in w'.conns && l.Read?
    ensures Explains(d, w, l, w', id)
    ensures StepKept(w, l) ==> d != EpollRefused
    ensures StepGranted(l) ==>
              && d != ErrorLineLost
              && (d == ReplyLost ==> |w.conns[id].outb + RepliesOf(l.tr.recs)| > ByteBuffer.MAX)
  {
    hide Inv, ConnOk, Step, ConnReads, AllGranted, T.Empty, RepliesOf;
    StepRemoves(w, l, w', id);
    var c, tr := w.conns[id], l.tr;
    if GoesOnReading(c, tr) {
      d := EpollRefused;
    } else if tr.end == Gone {
      d := PeerLeft;
    } else if tr.dend == Broken {
      ReplyDidNotFit(id, c, w.table, tr, l.c', w'.table, l.keep);
      d := ReplyLost;
    } else {
      LineLost(id, c, w.table, tr, l.c', w'.table, l.keep);
      d := ErrorLineLost;
    }
  }

  // ---- After the removal --------------------------------------------------

  lemma GoneStep(w: World, l: Label, w': World, id: nat)
    requires Inv(w) && Step(w, l, w') && id in w.books && id !in w.conns
    ensures id in w'.books && id !in w'.conns && w'.books[id] == w.books[id]
    ensures w.log <= w'.log && forall k :: |w.log| <= k < |w'.log| ==> w'.log[k].id != id
  {
    hide LogRuns, BookOk, ConnOk, T.Empty, ConnWrites;
    if l.Read? {
      assert ConnReads(l.id, w.conns[l.id], w.table, l.tr, l.c', w'.table, l.keep);
      assert BookOk(l.id, w.books[l.id], w.log) && ConnOk(l.id, w.conns[l.id], w.books[l.id], w.log);
      hide ConnReads, Inv;
      ReadKeepsBook(l.id, w.conns[l.id], w.books[l.id], w.log, w.table, l.tr, l.c', w'.table, l.keep);
      forall k | |w.log| <= k < |w'.log| ensures w'.log[k].id != id {
        assert w'.log[k] == l.tr.recs[k - |w.log|];
      }
    }
  }

  /** What is on record of a client. */
  ghost predicate SameRecord(id: nat, w: World, w': World) {
    && id in w.books && id in w'.books && w'.books[id] == w.books[id]
    && ArgvsOf(id, w'.log) == ArgvsOf(id, w.log) && RepliesTo(id, w'.log) == RepliesTo(id, w.log)
  }

  /** A connection that is gone never comes back, and its record never changes again. */
  lemma {:induction false} GoneForGood(ws: seq<World>, ls: seq<Label>, i: nat, k: nat, id: nat)
    requires IsRun(ws, ls) && i <= k < |ws| && id in ws[i].books && id !in ws[i].conns
    ensures id !in ws[k].conns && SameRecord(id, ws[i], ws[k])
    decreases k - i
  {
    hide Inv, Step;
    if i == k {
    } else {
      GoneForGood(ws, ls, i, k - 1, id);
      RunStep(ws, ls, k - 1);
      var w, w' := ws[k - 1], ws[k];
      GoneStep(w, ls[k - 1], w', id);
      var more := w'.log[|w.log|..];
      assert w'.log == w.log + more;
      NothingOf(id, more);
      ArgvsAppend(id, w.log, more);
      AppendNothing(ArgvsOf(id, w.log));
      AppendNothing(RepliesTo(id, w.log));
    }
  }

  /** However a connection ended, its socket was given a prefix of its replies and error lines. */
  lemma WrittenIsOwed(ws: seq<World>, ls: seq<Label>, i: nat, id: nat)
    requires IsRun(ws, ls) && i < |ws| && id in ws[i].books
    ensures ws[i].books[id].sent <= RepliesTo(id, ws[i].log) + ws[i].books[id].tail && LinesOk(ws[i].books[id])
  {
    RunsKeepInvariant(ws, ls);
    hide Step, IsRun, Takes;
    assert Inv(ws[i]) && BookOk(id, ws[i].books[id], ws[i].log);
  }

  /** The connection wound down and left with everything written. */
  ghost predicate LeftDrained(ws: seq<World>, ls: seq<Label>, id: nat) {
    exists i :: 0 <= i < |ls| && i < |ws| && DrainsAway(ws[i], ls[i], id)
  }

  ghost predicate DrainsAway(w: World, l: Label, id: nat) {
    && l.Write? && l.id == id && l.wend == Flushed && !l.keep
    && id in w.conns && w.conns[id].closing
  }

  /** A connection that left drained stays gone, and everything it is owed stays written. */
  lemma DrainedBeforeClose(ws: seq<World>, ls: seq<Label>, i: nat, id: nat)
    requires IsRun(ws, ls) && i < |ls| && DrainsAway(ws[i], ls[i], id)
    ensures id in ws[i].books && PaidOff(ws[i + 1], id)
    ensures id !in ws[|ls|].conns && SameRecord(id, ws[i + 1], ws[|ls|]) && PaidOff(ws[|ls|], id)
    ensures RepliesTo(id, ws[i + 1].log) == RepliesTo(id, ws[i].log)
    ensures ArgvsOf(id, ws[i + 1].log) == ArgvsOf(id, ws[i].log)
    ensures ws[i + 1].books[id].tail == ws[i].books[id].tail && ws[i + 1].books[id].recv == ws[i].books[id].recv
  {
    hide IsRun, Inv, Step;
    RunStep(ws, ls, i);
    var w, l, w' := ws[i], ls[i], ws[i + 1];
    DrainingStep(w, l, w', id);
    GoneForGood(ws, ls, i + 1, |ls|, id);
  }

  lemma DrainingStep(w: World, l: Label, w': World, id: nat)
    requires Inv(w) && Step(w, l, w') && DrainsAway(w, l, id)
    ensures id in w.books && id in w'.books && id !in w'.conns && PaidOff(w', id)
    ensures w'.log == w.log && w'.books[id].tail == w.books[id].tail && w'.books[id].recv == w.books[id].recv
  {
    hide LogRuns, BookOk, ConnOk, Takes, T.Empty, PaidOff;
    FlushedPays(w, l, w', id);
  }
}
