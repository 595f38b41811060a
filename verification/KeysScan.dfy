/** The two passes of KEYS: a callback with state, driven over the buckets of the table. */
module KeysScan {
  import opened Bytes
  import opened ByteBuffer
  import opened CommandSpec
  import opened Hash
  import opened HashTable
  import opened Reply
  import opened ReplyWriter
  import Glob
  import T = Table

  /** The callback's state: a count in the first pass, an emitter in the second. */
  class KeysCtx {
    const out: ByteBuf
    const pattern: bytes
    var matched: nat
    var write: bool
    var emitFailed: bool

    /** The keys of every call so far. */
    ghost var called: seq<bytes>

    constructor (out: ByteBuf, pattern: bytes)
      ensures this.out == out && this.pattern == pattern
      ensures matched == 0 && !write && !emitFailed && called == []
    {
      this.out, this.pattern := out, pattern;
      matched, write, emitFailed, called := 0, false, false, [];
    }

    /** One entry; false stops the scan. */
    method Callback(key: bytes) returns (more: bool, ghost refused: bool)
      requires out.Valid()
      modifies this`matched, this`emitFailed, this`called, out, out.data
      ensures out.Valid() && (out.data == old(out.data) || fresh(out.data))
      ensures called == old(called) + [key]
      ensures var hits := Matching([T.Entry(key, [])], pattern);
              if write then
                && Wrote(old(out.Contents()), out.Contents(), EncodeMany(hits), more, refused)
                && matched == old(matched) && emitFailed == (old(emitFailed) || !more)
              else
                && matched == old(matched) + |hits| && emitFailed == old(emitFailed)
                && more && !refused && unchanged(out) && (out.data != null ==> unchanged(out.data))
    {
      called := called + [key];
      OneMatch(key, pattern);
      hide Matching, EncodeMany, Glob.InLanguage, Glob.Tokenise;
      refused := false;
      var fits := Glob.GlobMatch(pattern, key);
      if !fits {
        WroteNothing(out.Contents());
        return true, false;
      }
      if write {
        more, refused := ReplyBulk(out, key);
        if !more {
          emitFailed := true;
        }
        return;
      }
      matched := matched + 1;
      return true, false;
    }
  }

  lemma OneMatch(key: bytes, pattern: bytes)
    ensures var hits := Matching([T.Entry(key, [])], pattern);
            && |hits| == (if Glob.InLanguage(Glob.Tokenise(pattern), key) then 1 else 0)
            && EncodeMany(hits) == if Glob.InLanguage(Glob.Tokenise(pattern), key) then Encode(Bulk(key)) else []
  {
    hide Glob.InLanguage, Glob.Tokenise, Encode;
    assert Matching([], pattern) == [];
    var one := [Bulk(key)];
    assert one[1..] == [] && EncodeMany(one) == Encode(Bulk(key)) + [];
  }

  lemma WroteNothing(a: bytes)
    requires |a| <= MAX
    ensures Wrote(a, a, [], true, false)
  {
    assert a + [] == a;
  }

  // ---- Splitting the scan -------------------------------------------------

  lemma {:induction false} MatchingAppend(a: seq<T.Entry>, b: seq<T.Entry>, pattern: bytes)
    ensures Matching(a + b, pattern) == Matching(a, pattern) + Matching(b, pattern)
    decreases |a|
  {
    hide Glob.InLanguage, Glob.Tokenise;
    if a == [] {
      assert a + b == b;
    } else {
      assert (a + b)[1..] == a[1..] + b;
      MatchingAppend(a[1..], b, pattern);
      Associative([Bulk(a[0].key)], Matching(a[1..], pattern), Matching(b, pattern));
    }
  }

  lemma {:induction false} EntriesAppend(a: T.Chains, b: T.Chains)
    ensures T.Entries(a + b) == T.Entries(a) + T.Entries(b)
    decreases |a|
  {
    if a == [] {
      assert a + b == b;
    } else {
      assert (a + b)[1..] == a[1..] + b;
      EntriesAppend(a[1..], b);
      Associative(a[0], T.Entries(a[1..]), T.Entries(b));
    }
  }

  /** What a scan has done after the entries `done`. */
  ghost predicate Progress(before: bytes, after: bytes, done: seq<T.Entry>, pattern: bytes, matched: nat, write: bool) {
    && |after| <= MAX
    && if write then after == before + EncodeMany(Matching(done, pattern))
       else after == before && matched == |Matching(done, pattern)|
  }

  lemma ProgressStep(before: bytes, mid: bytes, after: bytes, done: seq<T.Entry>, e: T.Entry, pattern: bytes,
                     matched: nat, write: bool, more: bool, refused: bool)
    requires Progress(before, mid, done, pattern, matched, write)
    requires write ==> Wrote(mid, after, EncodeMany(Matching([T.Entry(e.key, [])], pattern)), more, refused)
    requires !write ==> after == mid && more
    ensures var n := |Matching([T.Entry(e.key, [])], pattern)|;
            more ==> Progress(before, after, done + [e], pattern, if write then matched else matched + n, write)
    ensures write ==> Wrote(before, after, EncodeMany(Matching(done + [e], pattern)), more, refused)
  {
    hide Matching, EncodeMany;
    SameKeyMatches(e, pattern);
    var hits, was := Matching([e], pattern), Matching(done, pattern);
    MatchingAppend(done, [e], pattern);
    EncodeManyAppend(was, hits);
    if write {
      Associative(before, EncodeMany(was), EncodeMany(hits));
      assert before <= mid;
    }
  }

  lemma SameKeyMatches(e: T.Entry, pattern: bytes)
    ensures Matching([e], pattern) == Matching([T.Entry(e.key, [])], pattern)
  {
    hide Glob.InLanguage, Glob.Tokenise;
    assert [e][1..] == [T.Entry(e.key, [])][1..] == [];
  }

  /** A scan stopped early has written a prefix of what the whole scan writes. */
  lemma StoppedEarly(before: bytes, after: bytes, done: seq<T.Entry>, rest: seq<T.Entry>, pattern: bytes, refused: bool)
    requires Wrote(before, after, EncodeMany(Matching(done, pattern)), false, refused)
    ensures Wrote(before, after, EncodeMany(Matching(done + rest, pattern)), false, refused)
  {
    hide Matching, EncodeMany, Wrote;
    MatchingAppend(done, rest, pattern);
    EncodeManyAppend(Matching(done, pattern), Matching(rest, pattern));
    FailedEarly(before, after, EncodeMany(Matching(done, pattern)), EncodeMany(Matching(rest, pattern)), refused);
  }

  lemma ProgressStart(before: bytes, pattern: bytes, write: bool)
    requires |before| <= MAX
    ensures Progress(before, before, [], pattern, 0, write)
  {
    assert Matching([], pattern) == [] && EncodeMany([]) == [];
    assert before + [] == before;
  }

  lemma ProgressEnd(before: bytes, after: bytes, done: seq<T.Entry>, pattern: bytes, matched: nat, write: bool)
    requires Progress(before, after, done, pattern, matched, write)
    ensures write ==> Wrote(before, after, EncodeMany(Matching(done, pattern)), true, false)
    ensures !write ==> after == before && matched == |Matching(done, pattern)|
  {
  }

  lemma EntriesOne(c: T.Chain)
    ensures T.Entries([c]) == c
  {
    assert [c][1..] == [] && c + [] == c;
  }

  lemma EntriesSnoc(t: T.Chains, i: nat)
    requires i < |t|
    ensures T.Entries(t[..i + 1]) == T.Entries(t[..i]) + t[i]
    ensures T.Entries(t) == T.Entries(t[..i + 1]) + T.Entries(t[i + 1..])
  {
    hide T.Entries;
    SplitAt(t, i);
    EntriesOne(t[i]);
    EntriesAppend(t[..i], [t[i]]);
    EntriesAppend(t[..i + 1], t[i + 1..]);
  }

  lemma SplitAt<X>(s: seq<X>, i: nat)
    requires i < |s|
    ensures s[..i + 1] == s[..i] + [s[i]]
    ensures s == s[..i + 1] + s[i + 1..]
  {
  }

  ghost function KeysOf(es: seq<T.Entry>): seq<bytes> {
    seq(|es|, i requires 0 <= i < |es| => es[i].key)
  }

  lemma KeysOfNothing(called: seq<bytes>, es: seq<T.Entry>)
    ensures called + KeysOf(es[..0]) == called && called + KeysOf([]) == called
    ensures es[..|es|] == es
  {
  }

  lemma KeysSnoc(called: seq<bytes>, t: T.Chain, j: nat)
    requires j < |t|
    ensures called + KeysOf(t[..j]) + [t[j].key] == called + KeysOf(t[..j + 1])
  {
    assert KeysOf(t[..j]) + [t[j].key] == KeysOf(t[..j + 1]);
  }

  lemma KeysPrefix(called: seq<bytes>, done: seq<T.Entry>, c: T.Chain, rest: seq<T.Entry>, v: nat)
    requires v <= |c|
    ensures called + KeysOf(done) + KeysOf(c[..v]) == called + KeysOf((done + c + rest)[..|done| + v])
    ensures v == |c| ==> (done + c + rest)[..|done| + v] == done + c
  {
    assert KeysOf(done) + KeysOf(c[..v]) == KeysOf((done + c + rest)[..|done| + v]);
  }

  // ---- The scan -----------------------------------------------------------

  /** The callback's context lives apart from the table. */
  ghost predicate Separate(store: HashTable, kc: KeysCtx)
    reads store, kc.out
  {
    && kc !in store.Repr && kc.out !in store.Repr
    && (kc.out.data != null ==> kc.out.data !in store.Repr)
  }

  /** Bucket order, chain order, until the callback says stop. */
  method Scan(store: HashTable, kc: KeysCtx) returns (visited: nat, ghost refused: bool)
    requires store.Valid() && kc.out.Valid() && Separate(store, kc)
    requires !kc.emitFailed && kc.matched == 0
    modifies kc`matched, kc`emitFailed, kc`called, kc.out, kc.out.data
    ensures kc.out.Valid() && (kc.out.data == old(kc.out.data) || fresh(kc.out.data))
    ensures visited <= |T.Entries(store.table)|
    ensures kc.called == old(kc.called) + KeysOf(T.Entries(store.table)[..visited])
    ensures !kc.emitFailed ==> visited == |T.Entries(store.table)|
    ensures var hits := Matching(T.Entries(store.table), kc.pattern);
            if kc.write then Wrote(old(kc.out.Contents()), kc.out.Contents(), EncodeMany(hits), !kc.emitFailed, refused)
            else kc.out.Contents() == old(kc.out.Contents()) && kc.matched == |hits| && !kc.emitFailed
  {
    hide T.Entries, T.WellFormed, Matching, EncodeMany, Progress, Wrote, ByteBuf.Contents, ByteBuf.Valid, KeysOf;
    visited, refused := 0, false;
    ghost var t, before := store.table, kc.out.Contents();
    ProgressStart(before, kc.pattern, kc.write);
    EntriesOfNothing(t);
    KeysOfNothing(kc.called, T.Entries(t));
    for i := 0 to BUCKETS
      invariant kc.out.Valid() && (kc.out.data == old(kc.out.data) || fresh(kc.out.data))
      invariant visited == |T.Entries(t[..i])| && kc.called == old(kc.called) + KeysOf(T.Entries(t[..i]))
      invariant !kc.emitFailed && !refused
      invariant Progress(before, kc.out.Contents(), T.Entries(t[..i]), kc.pattern, kc.matched, kc.write)
    {
      EntriesSnoc(t, i);
      ghost var done := T.Entries(t[..i]);
      assert Linked(store.buckets[i], store.chains[i], t[i]);
      var stopped;
      visited, stopped, refused := ScanChain(kc, store.buckets[i], visited, before, T.Entries(t[..i]),
          store.chains[i], t[i]);
      KeysPrefix(old(kc.called), done, t[i], T.Entries(t[i + 1..]), visited - |done|);
      if stopped {
        StoppedEarly(before, kc.out.Contents(), T.Entries(t[..i + 1]), T.Entries(t[i + 1..]), kc.pattern, refused);
        return;
      }
    }
    assert t[..BUCKETS] == t;
    ProgressEnd(before, kc.out.Contents(), T.Entries(t), kc.pattern, kc.matched, kc.write);
  }

  /** One chain; `stopped` tells that the callback stopped the scan. */
  method ScanChain(kc: KeysCtx, head: Node?, visited0: nat, ghost before: bytes, ghost done0: seq<T.Entry>,
                   ghost c: seq<Node>, ghost t: T.Chain)
    returns (visited: nat, stopped: bool, ghost refused: bool)
    requires kc.out.Valid() && Linked(head, c, t) && !kc.emitFailed
    requires Progress(before, kc.out.Contents(), done0, kc.pattern, kc.matched, kc.write)
    modifies kc`matched, kc`emitFailed, kc`called, kc.out, kc.out.data
    ensures kc.out.Valid() && (kc.out.data == old(kc.out.data) || fresh(kc.out.data))
    ensures stopped == kc.emitFailed && (stopped ==> kc.write)
    ensures visited0 <= visited <= visited0 + |t|
    ensures kc.called == old(kc.called) + KeysOf(t[..visited - visited0])
    ensures !stopped ==>
              && !refused && visited == visited0 + |t|
              && Progress(before, kc.out.Contents(), done0 + t, kc.pattern, kc.matched, kc.write)
    ensures stopped ==> Wrote(before, kc.out.Contents(), EncodeMany(Matching(done0 + t, kc.pattern)), false, refused)
  {
    hide Matching, EncodeMany, Progress, Wrote, ByteBuf.Contents, ByteBuf.Valid, KeysOf, Linked;
    LinkedLengths(head, c, t);
    visited, stopped, refused := visited0, false, false;
    ghost var j, done := 0, done0;
    var cur := head;
    TakeNone(done0, t);
    KeysOfNothing(kc.called, t);
    while cur != null
      invariant j <= |c| && cur == At(c, j) && Linked(head, c, t)
      invariant kc.out.Valid() && (kc.out.data == old(kc.out.data) || fresh(kc.out.data))
      invariant visited == visited0 + j && kc.called == old(kc.called) + KeysOf(t[..j])
      invariant !kc.emitFailed && !refused
      invariant done + t[j..] == done0 + t
      invariant Progress(before, kc.out.Contents(), done, kc.pattern, kc.matched, kc.write)
      decreases |c| - j
    {
      visited := visited + 1;
      LinkedAt(head, c, t, j);
      TakeOne(done, t, j);
      KeysSnoc(old(kc.called), t, j);
      var more;
      more, refused := Visit(kc, cur.key, before, done, t[j]);
      done := done + [t[j]];
      if !more {
        StoppedEarly(before, kc.out.Contents(), done, t[j + 1..], kc.pattern, refused);
        stopped := true;
        return;
      }
      cur := cur.next;
      j := j + 1;
    }
    TakeAll(done, t);
    KeysOfNothing(kc.called, t);
  }

  lemma TakeNone(done: seq<T.Entry>, t: T.Chain)
    ensures done + t[0..] == done + t
  {
    assert t[0..] == t;
  }

  lemma TakeOne(done: seq<T.Entry>, t: T.Chain, j: nat)
    requires j < |t|
    ensures done + t[j..] == done + [t[j]] + t[j + 1..]
  {
    assert t[j..] == [t[j]] + t[j + 1..];
    Associative(done, [t[j]], t[j + 1..]);
  }

  lemma TakeAll(done: seq<T.Entry>, t: T.Chain)
    ensures done + t[|t|..] == done
  {
  }

  /** One call of the callback, after the entries `done`. */
  method Visit(kc: KeysCtx, key: bytes, ghost before: bytes, ghost done: seq<T.Entry>, ghost e: T.Entry)
    returns (more: bool, ghost refused: bool)
    requires kc.out.Valid() && !kc.emitFailed && e.key == key
    requires Progress(before, kc.out.Contents(), done, kc.pattern, kc.matched, kc.write)
    modifies kc`matched, kc`emitFailed, kc`called, kc.out, kc.out.data
    ensures kc.out.Valid() && (kc.out.data == old(kc.out.data) || fresh(kc.out.data))
    ensures kc.called == old(kc.called) + [key]
    ensures more ==>
              && !refused && !kc.emitFailed
              && Progress(before, kc.out.Contents(), done + [e], kc.pattern, kc.matched, kc.write)
    ensures !more ==>
              && kc.write && kc.emitFailed
              && Wrote(before, kc.out.Contents(), EncodeMany(Matching(done + [e], kc.pattern)), false, refused)
  {
    hide Matching, EncodeMany, Progress, ByteBuf.Contents, ByteBuf.Valid;
    ghost var mid, matched0 := kc.out.Contents(), kc.matched;
    more, refused := kc.Callback(key);
    ProgressStep(before, mid, kc.out.Contents(), done, e, kc.pattern, matched0, kc.write, more, refused);
  }

  lemma EntriesOfNothing(t: T.Chains)
    ensures T.Entries(t[..0]) == []
  {
  }
}
