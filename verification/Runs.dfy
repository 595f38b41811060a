/** What holds of every run of the event loop. */
module Runs {
  import opened Bytes
  import opened CommandMeaning
  import opened CommandProperties
  import opened CommandSpec
  import opened Determinacy
  import opened EventLoop
  import opened Resp
  import opened Stream
  import ByteBuffer
  import Hash
  import Reply
  import T = Table

  /** A finite run from the empty server: any clients, any interleaving, any kernel answers. */
  ghost predicate IsRun(ws: seq<World>, ls: seq<Label>)
    ensures IsRun(ws, ls) ==> |ws| == |ls| + 1
  {
    && |ws| == |ls| + 1
    && ws[0] == Start()
    && forall i :: 0 <= i < |ls| ==> Step(ws[i], ls[i], ws[i + 1])
  }

  /** Every state of every run satisfies the invariant. */
  lemma {:induction false} RunsKeepInvariant(ws: seq<World>, ls: seq<Label>)
    requires IsRun(ws, ls)
    ensures forall i :: 0 <= i < |ws| ==> Inv(ws[i])
    decreases |ls|
  {
    hide Step, Inv, Start;
    if |ls| == 0 {
      StartOk();
    } else {
      var n := |ls| - 1;
      RunsKeepInvariant(ws[..n + 1], ls[..n]);
      assert Inv(ws[..n + 1][n]);
      StepKeeps(ws[n], ls[n], ws[n + 1]);
      forall i | 0 <= i < |ws| ensures Inv(ws[i]) {
        if i <= n {
          assert Inv(ws[..n + 1][i]);
        }
      }
    }
  }

  lemma RunStep(ws: seq<World>, ls: seq<Label>, i: nat)
    requires IsRun(ws, ls) && i < |ls|
    ensures Inv(ws[i]) && Step(ws[i], ls[i], ws[i + 1])
  {
    hide Inv, Step;
    RunsKeepInvariant(ws, ls);
  }

  // ---- Serial consistency -------------------------------------------------

  /** The log, replayed against the reference semantics on plain maps, leads from m to m'. */
  ghost predicate MapLog(m: Dict, log: seq<Rec>, m': Dict)
    decreases |log|
  {
    if log == [] then m' == m
    else exists m1, r ::
      && Means(m, log[0].argv, log[0].mem, m1, r)
      && log[0].reply == Reply.Encode(r)
      && MapLog(m1, log[1..], m')
  }

  lemma {:induction false} LogRefines(t: T.Chains, log: seq<Rec>, t': T.Chains)
    requires T.WellFormed(t) && LogRuns(t, log, t')
    ensures T.WellFormed(t') && MapLog(T.ToMap(t), log, T.ToMap(t'))
    decreases |log|
  {
    hide Exec, Means, T.WellFormed, T.ToMap, Reply.Encode;
    if log == [] {
    } else {
      var (t1, r) := Exec(t, log[0].argv, log[0].mem);
      ExecRefines(t, log[0].argv, log[0].mem);
      LogRefines(t1, log[1..], t');
    }
  }

  /** The log leads to one map only: the fold is a function. */
  lemma {:induction false} LogDetermines(m: Dict, log: seq<Rec>, m1: Dict, m2: Dict)
    requires MapLog(m, log, m1) && MapLog(m, log, m2)
    ensures m1 == m2
    decreases |log|
  {
    hide Means, Reply.Encode;
    if log == [] {
    } else {
      var a, r :| Means(m, log[0].argv, log[0].mem, a, r) && log[0].reply == Reply.Encode(r) && MapLog(a, log[1..], m1);
      var b, s :| Means(m, log[0].argv, log[0].mem, b, s) && log[0].reply == Reply.Encode(s) && MapLog(b, log[1..], m2);
      MeansDetermines(m, log[0].argv, log[0].mem, a, r, b, s);
      LogDetermines(a, log[1..], m1, m2);
    }
  }

  /** The store is the fold of the reference semantics over one global log, and each client's part
      of that log, alive or gone, is a prefix of the requests its bytes spell. */
  lemma SerialConsistency(ws: seq<World>, ls: seq<Label>, i: nat, id: nat)
    requires IsRun(ws, ls) && i < |ws| && id in ws[i].books
    ensures T.WellFormed(ws[i].table)
    ensures MapLog(map[], ws[i].log, T.ToMap(ws[i].table))
    ensures ArgvsOf(id, ws[i].log) <= Split(ws[i].books[id].recv).argvs
  {
    RunsKeepInvariant(ws, ls);
    hide Step, IsRun, Takes, T.WellFormed, T.ToMap, T.Empty, LogRuns, MapLog;
    var w := ws[i];
    assert Inv(w) && BookOk(id, w.books[id], w.log);
    T.EmptyIsEmpty();
    LogRefines(T.Empty(), w.log, w.table);
    TakesThenSplit(w.books[id].recv, ArgvsOf(id, w.log), w.books[id].left);
  }

  // ---- Conservation, interest, draining -----------------------------------

  /** Bytes written so far, then bytes still queued, are exactly the replies to the client's
      dispatched requests in order, then the error lines of one event, the protocol error among them
      exactly when a malformed frame is left over: nothing lost, doubled or reordered. */
  lemma ReplyConservation(ws: seq<World>, ls: seq<Label>, i: nat, id: nat)
    requires IsRun(ws, ls) && i < |ws| && id in ws[i].conns
    ensures id in ws[i].books
    ensures ws[i].books[id].sent + ws[i].conns[id].outb == RepliesTo(id, ws[i].log) + ws[i].books[id].tail
    ensures !ws[i].conns[id].closing ==> ws[i].books[id].tail == []
    ensures LinesOk(ws[i].books[id])
  {
    RunsKeepInvariant(ws, ls);
    hide Step, IsRun, Takes;
    assert Inv(ws[i]) && ConnOk(id, ws[i].conns[id], ws[i].books[id], ws[i].log);
  }

  /** A live connection reads iff it is not winding down, writes iff something is queued, and so
      always waits for something; an idle one has parsed all it can. */
  lemma InterestMask(ws: seq<World>, ls: seq<Label>, i: nat, id: nat)
    requires IsRun(ws, ls) && i < |ws| && id in ws[i].conns
    ensures var c := ws[i].conns[id];
            && (c.wantRead <==> !c.closing)
            && (c.wantWrite <==> c.outb != [])
            && (c.closing ==> c.outb != [])
            && (c.wantRead || c.wantWrite)
            && (c.wantRead ==> Parse(c.inb).NeedMore?)
  {
    RunsKeepInvariant(ws, ls);
    hide Step, IsRun, Takes;
    assert Inv(ws[i]) && id in ws[i].books && ConnOk(id, ws[i].conns[id], ws[i].books[id], ws[i].log);
  }

  /** No queue of a live connection ever holds more than 16 MiB. */
  lemma QueuesWithinCap(ws: seq<World>, ls: seq<Label>, i: nat, id: nat)
    requires IsRun(ws, ls) && i < |ws| && id in ws[i].conns
    ensures |ws[i].conns[id].inb| <= 16777216 && |ws[i].conns[id].outb| <= 16777216
  {
    RunsKeepInvariant(ws, ls);
    hide Step, IsRun, Takes;
    assert Inv(ws[i]) && id in ws[i].books && ConnOk(id, ws[i].conns[id], ws[i].books[id], ws[i].log);
  }

  // ---- Decodable reply streams --------------------------------------------

  /** No request of the client is an unknown name whose echo carries a CRLF pair. */
  ghost predicate SafeEchoes(argvs: seq<seq<bytes>>) {
    forall i :: 0 <= i < |argvs| ==> !(Unknown(argvs[i]) && !Reply.NoCrlf(Echoed(argvs[i][0])))
  }

  lemma {:induction false} RepliesAsList(id: nat, t: T.Chains, log: seq<Rec>, t': T.Chains)
    returns (rs: seq<Reply.Reply>)
    requires |t| == Hash.BUCKETS && LogRuns(t, log, t') && SafeEchoes(ArgvsOf(id, log))
    ensures |rs| == |ArgvsOf(id, log)|
    ensures RepliesTo(id, log) == Reply.EncodeMany(rs)
    ensures |ReplyListTo(id, log)| == |rs|
    ensures forall i :: 0 <= i < |rs| ==> Reply.Framable(rs[i]) && Reply.Encode(rs[i]) == ReplyListTo(id, log)[i]
    decreases |log|
  {
    hide Exec, Reply.Framable, Unknown, Reply.NoCrlf, Echoed, Reply.Encode;
    if log == [] {
      rs := [];
    } else {
      var (t1, r) := Exec(t, log[0].argv, log[0].mem);
      var argvs := ArgvsOf(id, log);
      if log[0].id == id {
        assert argvs[0] == log[0].argv && argvs[1..] == ArgvsOf(id, log[1..]);
        assert forall i :: 0 <= i < |argvs| - 1 ==> argvs[1..][i] == argvs[i + 1];
        ReplyFramableIff(t, log[0].argv, log[0].mem);
      } else {
        assert [] + ArgvsOf(id, log[1..]) == ArgvsOf(id, log[1..]);
        assert [] + RepliesTo(id, log[1..]) == RepliesTo(id, log[1..]);
      }
      rs := RepliesAsList(id, t1, log[1..], t');
      if log[0].id == id {
        var more := [r] + rs;
        assert more[1..] == rs;
        rs := more;
      }
    }
  }

  /** The error lines of an event, as replies. */
  function ErrorReplies(dend: DispatchEnd, end: ReadEnd): seq<Reply.Reply> {
    (if dend == BadFrame then [Reply.Error(Ascii("ERR Protocol error"))] else [])
    + match end
      case TooLarge => [Reply.Error(Ascii("ERR request too large"))]
      case NoRoom => [Reply.Error(Ascii("ERR out of memory"))]
      case _ => []
  }

  lemma ErrorRepliesSpell(dend: DispatchEnd, end: ReadEnd)
    ensures Reply.EncodeMany(ErrorReplies(dend, end)) == FrameLine(dend) + ReadLine(end)
    ensures forall i :: 0 <= i < |ErrorReplies(dend, end)| ==> Reply.Framable(ErrorReplies(dend, end)[i])
  {
    ErrorTextsFramable();
    hide Ascii, Reply.Encode, Reply.Framable;
    var p, q := ErrorReplies(dend, Drained), ErrorReplies(Waiting, end);
    OneEncoded(p);
    OneEncoded(q);
    assert ErrorReplies(dend, end) == p + q;
    Reply.EncodeManyAppend(p, q);
  }

  lemma OneEncoded(rs: seq<Reply.Reply>)
    ensures rs == [] ==> Reply.EncodeMany(rs) == []
    ensures |rs| == 1 ==> Reply.EncodeMany(rs) == Reply.Encode(rs[0])
  {
    hide Reply.Encode;
    if |rs| == 1 {
      assert Reply.EncodeMany(rs[1..]) == [];
      AppendNothing(Reply.Encode(rs[0]));
    }
  }

  lemma ErrorTextsFramable()
    ensures Reply.Framable(Reply.Error(Ascii("ERR Protocol error")))
    ensures Reply.Framable(Reply.Error(Ascii("ERR request too large")))
    ensures Reply.Framable(Reply.Error(Ascii("ERR out of memory")))
  {
    hide Ascii, Reply.NoCrlf, Plain;
    ProtocolPlain();
    TooLargePlain();
    OutOfMemoryPlain();
    AsciiNoCrlf("ERR Protocol error");
    AsciiNoCrlf("ERR request too large");
    AsciiNoCrlf("ERR out of memory");
  }

  lemma ProtocolPlain() ensures Plain("ERR Protocol error") {}

  lemma TooLargePlain() ensures Plain("ERR request too large") {}

  lemma OutOfMemoryPlain() ensures Plain("ERR out of memory") {}

  /** Every byte a client is owed has been written or is queued. */
  ghost predicate Owed(w: World, id: nat, stream: bytes) {
    && id in w.books
    && stream == w.books[id].sent + (if id in w.conns then w.conns[id].outb else [])
    && (id in w.conns || w.books[id].sent == RepliesTo(id, w.log) + w.books[id].tail)
  }

  /** A client that decodes the stream gets the replies to its requests in the log, each in its place,
      then these error lines. */
  ghost predicate DecodesTo(id: nat, log: seq<Rec>, stream: bytes, dend: DispatchEnd, end: ReadEnd) {
    var n, rs := |ArgvsOf(id, log)|, Reply.DecodeStream(stream);
    && |rs| == n + |ErrorReplies(dend, end)| && |ReplyListTo(id, log)| == n
    && Concat(ReplyListTo(id, log)) == RepliesTo(id, log)
    && (forall k :: 0 <= k < n ==> Reply.Encode(rs[k]) == ReplyListTo(id, log)[k])
    && rs[n..] == ErrorReplies(dend, end)
    && Reply.EncodeMany(rs) == stream
  }

  /** Replies followed by complete error lines decode to exactly one reply per dispatched request, the
      k-th being the reply to the k-th request, then the lines, and nothing else. */
  lemma RepliesThenLines(ws: seq<World>, ls: seq<Label>, i: nat, id: nat, stream: bytes,
      dend: DispatchEnd, end: ReadEnd)
    requires IsRun(ws, ls) && i < |ws| && Owed(ws[i], id, stream)
    requires SafeEchoes(ArgvsOf(id, ws[i].log))
    requires ws[i].books[id].tail == FrameLine(dend) + ReadLine(end)
    ensures DecodesTo(id, ws[i].log, stream, dend, end)
  {
    RunsKeepInvariant(ws, ls);
    hide IsRun, Step, Inv, SafeEchoes, FrameLine, ReadLine, ErrorReplies, Reply.Framable, Reply.Encode, DecodesTo;
    var rs := OwedAsList(ws[i], id, stream);
    ErrorRepliesSpell(dend, end);
    ReplyListMatches(id, ws[i].log);
    DecodedIs(id, ws[i].log, stream, rs, dend, end);
  }

  lemma DecodedIs(id: nat, log: seq<Rec>, stream: bytes, rs: seq<Reply.Reply>, dend: DispatchEnd, end: ReadEnd)
    requires stream == Reply.EncodeMany(rs) + Reply.EncodeMany(ErrorReplies(dend, end))
    requires |rs| == |ArgvsOf(id, log)| == |ReplyListTo(id, log)|
    requires Concat(ReplyListTo(id, log)) == RepliesTo(id, log)
    requires forall k :: 0 <= k < |rs| ==> Reply.Framable(rs[k]) && Reply.Encode(rs[k]) == ReplyListTo(id, log)[k]
    requires forall k :: 0 <= k < |ErrorReplies(dend, end)| ==> Reply.Framable(ErrorReplies(dend, end)[k])
    ensures DecodesTo(id, log, stream, dend, end)
  {
    hide ErrorReplies, Reply.Framable, Reply.Encode;
    var lines := ErrorReplies(dend, end);
    Reply.EncodeManyAppend(rs, lines);
    Reply.StreamRoundTrip(rs + lines);
    assert (rs + lines)[|rs|..] == lines;
  }

  lemma OwedAsList(w: World, id: nat, stream: bytes) returns (rs: seq<Reply.Reply>)
    requires Inv(w) && Owed(w, id, stream) && SafeEchoes(ArgvsOf(id, w.log))
    ensures stream == Reply.EncodeMany(rs) + w.books[id].tail
    ensures |rs| == |ArgvsOf(id, w.log)| == |ReplyListTo(id, w.log)|
    ensures forall k :: 0 <= k < |rs| ==> Reply.Framable(rs[k]) && Reply.Encode(rs[k]) == ReplyListTo(id, w.log)[k]
  {
    hide SafeEchoes, LogRuns, T.Empty, Reply.Framable, Reply.Encode, Parse, Takes, ProtocolLine;
    if id in w.conns {
      assert ConnOk(id, w.conns[id], w.books[id], w.log);
    }
    rs := RepliesAsList(id, T.Empty(), w.log, w.table);
    AppendNothing(w.books[id].sent);
  }

  /** One request on the wire, one entry in the list of replies. */
  lemma {:induction false} ReplyListMatches(id: nat, log: seq<Rec>)
    ensures |ReplyListTo(id, log)| == |ArgvsOf(id, log)| && Concat(ReplyListTo(id, log)) == RepliesTo(id, log)
    decreases |log|
  {
    if log == [] {
    } else {
      ReplyListMatches(id, log[1..]);
      var head := if log[0].id == id then [log[0].reply] else [];
      ConcatAppend(head, ReplyListTo(id, log[1..]));
      assert head != [] ==> head[1..] == [] && head[0] + Concat([]) == head[0];
    }
  }
}
