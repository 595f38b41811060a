/** Repeated parse-and-consume over a growing stream of bytes. */
module Stream {
  import opened Bytes
  import opened Resp

  /** The requests taken so far, the bytes left over, and whether a protocol error stopped it. */
  datatype Frames = Frames(argvs: seq<seq<bytes>>, rest: bytes, bad: bool)

  /** Take every complete frame from the head of `s`. */
  function Split(s: bytes): Frames
    decreases |s|
  {
    match Parse(s)
    case NeedMore => Frames([], s, false)
    case Malformed => Frames([], s, true)
    case Ok(argv, used) =>
      UsedWithin(s);
      var more := Split(s[used..]);
      Frames([argv] + more.argvs, more.rest, more.bad)
  }

  /** More bytes arrive: nothing follows a protocol error, otherwise the leftover is parsed again. */
  function Feed(f: Frames, chunk: bytes): Frames {
    if f.bad then Frames(f.argvs, f.rest + chunk, true)
    else
      var more := Split(f.rest + chunk);
      Frames(f.argvs + more.argvs, more.rest, more.bad)
  }

  function FeedAll(f: Frames, chunks: seq<bytes>): Frames
    decreases |chunks|
  {
    if chunks == [] then f else FeedAll(Feed(f, chunks[0]), chunks[1..])
  }

  /** Restarting from the leftover is the same as parsing the whole stream at once. */
  lemma {:induction false} SplitExtends(s: bytes, e: bytes)
    ensures Split(s + e) == Feed(Split(s), e)
    decreases |s|
  {
    hide Parse;
    ParseStable(s, e);
    if Parse(s).NeedMore? {
      assert [] + Split(s + e).argvs == Split(s + e).argvs;
    } else if Parse(s).Ok? {
      UsedWithin(s);
      var argv, tail := Parse(s).value, s[Parse(s).used..];
      UsedWithin(s + e);
      assert (s + e)[Parse(s).used..] == tail + e;
      SplitExtends(tail, e);
      FeedAfter(argv, Split(tail), e);
    }
  }

  lemma FeedAfter(argv: seq<bytes>, f: Frames, e: bytes)
    ensures var g := Feed(f, e);
            Feed(Frames([argv] + f.argvs, f.rest, f.bad), e) == Frames([argv] + g.argvs, g.rest, g.bad)
  {
    hide Parse;
    if !f.bad {
      var more := Split(f.rest + e);
      assert [argv] + (f.argvs + more.argvs) == ([argv] + f.argvs) + more.argvs;
    }
  }

  /** However the stream is cut into chunks, the requests, the leftover and the verdict are the
      same as for the whole stream. */
  lemma {:induction false} SegmentationIndependence(s: bytes, chunks: seq<bytes>)
    ensures FeedAll(Split(s), chunks) == Split(s + Concat(chunks))
    decreases |chunks|
  {
    hide Parse;
    if chunks == [] {
      assert s + Concat(chunks) == s;
    } else {
      SplitExtends(s, chunks[0]);
      SegmentationIndependence(s + chunks[0], chunks[1..]);
      assert s + Concat(chunks) == (s + chunks[0]) + Concat(chunks[1..]);
    }
  }

  function EncodeAll(argvs: seq<seq<bytes>>): bytes {
    if argvs == [] then [] else EncodeRequest(argvs[0]) + EncodeAll(argvs[1..])
  }

  /** A pipeline of encoded requests comes back as exactly that list, then waits for more. */
  lemma {:induction false} PipelineRoundTrip(argvs: seq<seq<bytes>>)
    requires forall i :: 0 <= i < |argvs| ==> ValidArgv(argvs[i])
    ensures Split(EncodeAll(argvs)) == Frames(argvs, [], false)
    decreases |argvs|
  {
    assert Parse([]).NeedMore?;
    hide Parse;
    if argvs == [] {
    } else {
      var s, n := EncodeAll(argvs), |EncodeRequest(argvs[0])|;
      RequestRoundTrip(argvs[0], EncodeAll(argvs[1..]));
      assert s[n..] == EncodeAll(argvs[1..]);
      PipelineRoundTrip(argvs[1..]);
      assert [argvs[0]] + argvs[1..] == argvs;
    }
  }

  /** `argvs` are the first requests of `s`, and `rest` is what follows them. */
  ghost predicate Takes(s: bytes, argvs: seq<seq<bytes>>, rest: bytes)
    decreases |argvs|
  {
    if argvs == [] then rest == s
    else
      && Parse(s).Ok?
      && Parse(s).value == argvs[0]
      && Parse(s).used <= |s|
      && Takes(s[Parse(s).used..], argvs[1..], rest)
  }

  lemma {:induction false} TakesThenSplit(s: bytes, argvs: seq<seq<bytes>>, rest: bytes)
    requires Takes(s, argvs, rest)
    ensures var f := Split(rest); Split(s) == Frames(argvs + f.argvs, f.rest, f.bad)
    decreases |argvs|
  {
    hide Parse;
    if argvs == [] {
      assert [] + Split(rest).argvs == Split(rest).argvs;
    } else {
      UsedWithin(s);
      TakesThenSplit(s[Parse(s).used..], argvs[1..], rest);
      assert [argvs[0]] + (argvs[1..] + Split(rest).argvs) == argvs + Split(rest).argvs;
    }
  }

  lemma {:induction false} TakesShrinks(s: bytes, argvs: seq<seq<bytes>>, rest: bytes)
    requires Takes(s, argvs, rest)
    ensures |rest| <= |s|
    decreases |argvs|
  {
    hide Parse;
    if argvs == [] {
    } else {
      TakesShrinks(s[Parse(s).used..], argvs[1..], rest);
    }
  }

  lemma {:induction false} TakesExtends(s: bytes, argvs: seq<seq<bytes>>, rest: bytes, e: bytes)
    requires Takes(s, argvs, rest)
    ensures Takes(s + e, argvs, rest + e)
    decreases |argvs|
  {
    hide Parse;
    if argvs == [] {
    } else {
      ParseStable(s, e);
      assert (s + e)[Parse(s).used..] == s[Parse(s).used..] + e;
      TakesExtends(s[Parse(s).used..], argvs[1..], rest, e);
    }
  }

  lemma {:induction false} TakesJoin(s: bytes, a: seq<seq<bytes>>, mid: bytes, b: seq<seq<bytes>>, rest: bytes)
    requires Takes(s, a, mid) && Takes(mid, b, rest)
    ensures Takes(s, a + b, rest)
    decreases |a|
  {
    hide Parse;
    if a == [] {
      assert a + b == b;
    } else {
      assert (a + b)[1..] == a[1..] + b;
      TakesJoin(s[Parse(s).used..], a[1..], mid, b, rest);
    }
  }
}
