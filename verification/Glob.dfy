/** The KEYS glob matcher against the language its pattern denotes. */
module Glob {
  import opened Bytes

  /** What a pattern is made of. `Unclosed` is a class whose `]` is missing. */
  datatype Token =
    | Star
    | Any
    | Class(negated: bool, members: bytes)
    | Lit(b: byte)
    | Unclosed

  datatype ClassBody = ClassBody(members: bytes, rest: bytes)

  /** The members up to the closing bracket, and the pattern after it. */
  function ReadClass(p: bytes): (r: Option<ClassBody>)
    ensures r.Some? ==> |r.value.rest| < |p|
  {
    if p == [] then None
    else if p[0] == CLOSE then Some(ClassBody([], p[1..]))
    else
      var used := if p[0] == BACKSLASH && |p| > 1 then 2 else 1;
      match ReadClass(p[used..])
      case None => None
      case Some(body) => Some(ClassBody([p[used - 1]] + body.members, body.rest))
  }

  predicate IsNegated(p: bytes) { |p| > 1 && (p[1] == CARET || p[1] == BANG) }

  /** The part of `p`, an opening bracket and more, where the members start. */
  function ClassStart(p: bytes): bytes
    requires p != []
  {
    if IsNegated(p) then p[2..] else p[1..]
  }

  function Tokenise(p: bytes): seq<Token>
    decreases |p|
  {
    if p == [] then []
    else if p[0] == STAR then [Star] + Tokenise(p[1..])
    else if p[0] == QUESTION then [Any] + Tokenise(p[1..])
    else if p[0] == OPEN then
      match ReadClass(ClassStart(p))
      case None => [Unclosed]
      case Some(body) => [Class(IsNegated(p), body.members)] + Tokenise(body.rest)
    else if p[0] == BACKSLASH && |p| > 1 then [Lit(p[1])] + Tokenise(p[2..])
    else [Lit(p[0])] + Tokenise(p[1..])
  }

  // ---- The language of a pattern ------------------------------------------

  /** The strings one token stands for. */
  predicate Denotes(t: Token, piece: bytes) {
    match t
    case Star => true
    case Any => |piece| == 1
    case Class(negated, members) => |piece| == 1 && ((piece[0] in members) != negated)
    case Lit(b) => piece == [b]
    case Unclosed => false
  }

  /** `parts` cuts `s` into one piece per token, each piece denoted by its token. */
  ghost predicate Cuts(ts: seq<Token>, parts: seq<bytes>, s: bytes) {
    && |parts| == |ts|
    && Concat(parts) == s
    && forall i :: 0 <= i < |ts| ==> Denotes(ts[i], parts[i])
  }

  ghost predicate InLanguage(ts: seq<Token>, s: bytes) {
    exists parts: seq<bytes> :: Cuts(ts, parts, s)
  }

  /** The same language, decided one token at a time. */
  ghost predicate Match(ts: seq<Token>, s: bytes) {
    if ts == [] then s == []
    else if ts[0] == Star then exists k :: 0 <= k <= |s| && Match(ts[1..], s[k..])
    else s != [] && Denotes(ts[0], [s[0]]) && Match(ts[1..], s[1..])
  }

  lemma {:induction false} MatchIffInLanguage(ts: seq<Token>, s: bytes)
    ensures Match(ts, s) <==> InLanguage(ts, s)
  {
    if Match(ts, s) {
      var parts := MatchCuts(ts, s);
    }
    if InLanguage(ts, s) {
      var parts :| Cuts(ts, parts, s);
      CutsMatch(ts, parts, s);
    }
  }

  lemma {:induction false} MatchCuts(ts: seq<Token>, s: bytes) returns (parts: seq<bytes>)
    requires Match(ts, s)
    ensures Cuts(ts, parts, s)
    decreases |ts|
  {
    if ts == [] {
      parts := [];
    } else {
      var k := 1;
      if ts[0] == Star {
        k :| 0 <= k <= |s| && Match(ts[1..], s[k..]);
      }
      var rest := MatchCuts(ts[1..], s[k..]);
      parts := [s[..k]] + rest;
      assert parts[1..] == rest;
      assert s == s[..k] + s[k..];
      forall i | 0 <= i < |ts| ensures Denotes(ts[i], parts[i]) {
        if i == 0 {
          assert ts[0] != Star ==> s[..1] == [s[0]];
        } else {
          assert Denotes(ts[1..][i - 1], rest[i - 1]);
        }
      }
    }
  }

  lemma {:induction false} CutsMatch(ts: seq<Token>, parts: seq<bytes>, s: bytes)
    requires Cuts(ts, parts, s)
    ensures Match(ts, s)
    decreases |ts|
  {
    if ts == [] {
    } else {
      var k := |parts[0]|;
      assert s[k..] == Concat(parts[1..]);
      assert Denotes(ts[0], parts[0]);
      assert forall i :: 0 <= i < |ts| - 1 ==> ts[1..][i] == ts[i + 1] && parts[1..][i] == parts[i + 1];
      CutsMatch(ts[1..], parts[1..], s[k..]);
      assert ts[0] != Star ==> parts[0] == [s[0]];
    }
  }

  // ---- The matcher --------------------------------------------------------

  /** The text `s` is in the language of the pattern `p`. */
  ghost predicate Fits(p: bytes, s: bytes) {
    Match(Tokenise(p), s)
  }

  lemma StarStep(p: bytes, s: bytes)
    requires p != [] && p[0] == STAR
    ensures Fits(p, s) <==> exists k :: 0 <= k <= |s| && Fits(p[1..], s[k..])
  {
    assert Tokenise(p)[1..] == Tokenise(p[1..]);
    assert forall k :: 0 <= k <= |s| ==> (Fits(p[1..], s[k..]) <==> Match(Tokenise(p)[1..], s[k..]));
  }

  /** Two stars in a row say no more than one. */
  lemma StarAbsorbs(p: bytes, s: bytes)
    requires |p| > 1 && p[0] == STAR && p[1] == STAR
    ensures Fits(p, s) <==> Fits(p[1..], s)
  {
    hide Fits;
    StarStep(p, s);
    StarStep(p[1..], s);
    if Fits(p, s) {
      var k :| 0 <= k <= |s| && Fits(p[1..], s[k..]);
      StarStep(p[1..], s[k..]);
      var j :| 0 <= j <= |s[k..]| && Fits(p[1..][1..], s[k..][j..]);
      assert s[k..][j..] == s[k + j..];
    }
    if Fits(p[1..], s) {
      assert s[0..] == s;
    }
  }

  lemma AnyStep(p: bytes, s: bytes)
    requires p != [] && p[0] == QUESTION
    ensures Fits(p, s) <==> s != [] && Fits(p[1..], s[1..])
  {
    assert Tokenise(p)[1..] == Tokenise(p[1..]);
  }

  lemma ClassStep(p: bytes, s: bytes)
    requires p != [] && p[0] == OPEN
    ensures match ReadClass(ClassStart(p))
            case None => !Fits(p, s)
            case Some(body) =>
              Fits(p, s) <==> s != [] && ((s[0] in body.members) != IsNegated(p)) && Fits(body.rest, s[1..])
  {
    if ReadClass(ClassStart(p)).Some? {
      assert Tokenise(p)[1..] == Tokenise(ReadClass(ClassStart(p)).value.rest);
    }
  }

  lemma LiteralStep(p: bytes, used: nat, s: bytes)
    requires p != [] && p[0] != STAR && p[0] != QUESTION && p[0] != OPEN
    requires used == if p[0] == BACKSLASH && |p| > 1 then 2 else 1
    ensures Fits(p, s) <==> s != [] && s[0] == p[used - 1] && Fits(p[used..], s[1..])
  {
    var ts := Tokenise(p);
    assert ts[0] == Lit(p[used - 1]) && ts[1..] == Tokenise(p[used..]);
    assert s != [] ==> ([s[0]] == [p[used - 1]] <==> s[0] == p[used - 1]);
  }

  lemma EmptyFits(p: bytes, s: bytes)
    ensures p == [] ==> (Fits(p, s) <==> s == [])
    ensures p == [STAR] ==> Fits(p, s)
  {
    if p == [STAR] {
      StarStep(p, s);
      assert Fits([], s[|s|..]);
    }
  }

  lemma ReadClassStep(p: bytes)
    requires p != []
    ensures p[0] == CLOSE ==> ReadClass(p) == Some(ClassBody([], p[1..]))
    ensures p[0] != CLOSE ==>
              var used := if p[0] == BACKSLASH && |p| > 1 then 2 else 1;
              ReadClass(p) == Prepend([p[used - 1]], ReadClass(p[used..]))
  {
  }

  /** Exactly the strings of the pattern's language match. */
  method GlobMatch(pat: bytes, str: bytes) returns (r: bool)
    ensures r <==> InLanguage(Tokenise(pat), str)
    decreases |pat|
  {
    MatchIffInLanguage(Tokenise(pat), str);
    assert Fits(pat, str) <==> InLanguage(Tokenise(pat), str);
    hide Fits, InLanguage, Match, Cuts, Denotes, Tokenise, ReadClass, Prepend, Concat;
    var p, s := pat, str;
    while |p| > 0
      invariant |p| <= |pat|
      invariant Fits(p, s) <==> Fits(pat, str)
      decreases |p|
    {
      var pc := p[0];

      if pc == STAR {
        while |p| > 1 && p[1] == STAR
          invariant 0 < |p| <= |pat| && p[0] == STAR
          invariant Fits(p, s) <==> Fits(pat, str)
          decreases |p|
        {
          StarAbsorbs(p, s);
          p := p[1..];
        }
        if |p| == 1 {
          EmptyFits(p, s);
          return true;
        }
        StarStep(p, s);
        for k := 0 to |s| + 1
          invariant forall j :: 0 <= j < k ==> !Fits(p[1..], s[j..])
        {
          var found := GlobMatch(p[1..], s[k..]);
          LanguageFits(p[1..], s[k..]);
          if found {
            return true;
          }
        }
        return false;
      }

      if pc == QUESTION {
        AnyStep(p, s);
        if |s| == 0 {
          return false;
        }
        s, p := s[1..], p[1..];
        continue;
      }

      if pc == OPEN {
        ghost var whole := p;
        ClassStep(p, s);
        p := p[1..];
        var negate := false;
        if |p| > 0 && (p[0] == CARET || p[0] == BANG) {
          negate := true;
          p := p[1..];
        }
        ghost var start, seen := p, [];
        assert start == ClassStart(whole) && negate == IsNegated(whole);
        PrependNothing(ReadClass(start));
        var matched := false;
        while |p| > 0 && p[0] != CLOSE
          invariant |p| < |whole|
          invariant ReadClass(start) == Prepend(seen, ReadClass(p))
          invariant matched <==> |s| > 0 && s[0] in seen
          decreases |p|
        {
          ReadClassStep(p);
          if p[0] == BACKSLASH && |p| > 1 {
            p := p[1..];
          }
          if |s| > 0 && p[0] == s[0] {
            matched := true;
          }
          PrependTwice(seen, [p[0]], ReadClass(p[1..]));
          seen := seen + [p[0]];
          p := p[1..];
        }
        if |p| == 0 {
          ReadNothing(seen);
          return false;
        }
        ReadClassStep(p);
        p := p[1..];
        PrependSome(seen, p);
        if negate {
          matched := !matched;
        }
        if !matched || |s| == 0 {
          return false;
        }
        s := s[1..];
        continue;
      }

      LiteralStep(p, if p[0] == BACKSLASH && |p| > 1 then 2 else 1, s);
      if pc == BACKSLASH && |p| > 1 {
        p := p[1..];
        pc := p[0];
      }
      if |s| == 0 || pc != s[0] {
        return false;
      }
      s, p := s[1..], p[1..];
    }
    EmptyFits(p, s);
    return |s| == 0;
  }

  lemma LanguageFits(p: bytes, s: bytes)
    ensures InLanguage(Tokenise(p), s) <==> Fits(p, s)
  {
    MatchIffInLanguage(Tokenise(p), s);
  }

  ghost function Prepend(front: bytes, r: Option<ClassBody>): Option<ClassBody> {
    if r.None? then None else Some(ClassBody(front + r.value.members, r.value.rest))
  }

  lemma PrependNothing(r: Option<ClassBody>)
    ensures Prepend([], r) == r
  {
    assert r.Some? ==> [] + r.value.members == r.value.members;
  }

  lemma ReadNothing(front: bytes)
    ensures Prepend(front, ReadClass([])) == None
  {
  }

  lemma PrependSome(front: bytes, rest: bytes)
    ensures Prepend(front, Some(ClassBody([], rest))) == Some(ClassBody(front, rest))
  {
    assert front + [] == front;
  }

  lemma PrependTwice(a: bytes, b: bytes, r: Option<ClassBody>)
    ensures Prepend(a, Prepend(b, r)) == Prepend(a + b, r)
  {
    if r.Some? {
      Associative(a, b, r.value.members);
    }
  }

  // ---- Composition and quoting --------------------------------------------

  /** No class is left open and no backslash dangles at the end. */
  predicate Closed(p: bytes)
    decreases |p|
  {
    if p == [] then true
    else if p[0] == OPEN then
      match ReadClass(ClassStart(p))
      case None => false
      case Some(body) => Closed(body.rest)
    else if p[0] == BACKSLASH then |p| > 1 && Closed(p[2..])
    else Closed(p[1..])
  }

  lemma {:induction false} ReadClassExtends(p: bytes, q: bytes)
    requires ReadClass(p).Some?
    ensures ReadClass(p + q) ==
            Some(ClassBody(ReadClass(p).value.members, ReadClass(p).value.rest + q))
    decreases |p|
  {
    if p[0] == CLOSE {
      assert (p + q)[1..] == p[1..] + q;
    } else {
      var used := if p[0] == BACKSLASH && |p| > 1 then 2 else 1;
      ReadClassExtends(p[used..], q);
      assert (p + q)[used..] == p[used..] + q;
      assert |p| > 1;
    }
  }

  lemma {:induction false} TokeniseExtends(p: bytes, q: bytes)
    requires Closed(p)
    ensures Tokenise(p + q) == Tokenise(p) + Tokenise(q)
    decreases |p|
  {
    var whole := p + q;
    if p == [] {
      assert whole == q;
    } else if p[0] == OPEN {
      var body := ReadClass(ClassStart(p)).value;
      assert |p| > 1 && ClassStart(whole) == ClassStart(p) + q;
      ReadClassExtends(ClassStart(p), q);
      TokeniseExtends(body.rest, q);
    } else if p[0] == BACKSLASH {
      assert whole[2..] == p[2..] + q;
      TokeniseExtends(p[2..], q);
    } else {
      assert whole[1..] == p[1..] + q;
      TokeniseExtends(p[1..], q);
    }
  }

  lemma {:induction false} ReadClassClosing(p: bytes)
    requires ReadClass(p).None?
    ensures ReadClass(p + [CLOSE]).Some? ==> ReadClass(p + [CLOSE]).value.rest == []
    decreases |p|
  {
    if p == [] {
      assert p + [CLOSE] == [CLOSE];
    } else {
      var used := if p[0] == BACKSLASH && |p| > 1 then 2 else 1;
      assert used <= |p| && (p + [CLOSE])[used..] == p[used..] + [CLOSE];
      ReadClassClosing(p[used..]);
    }
  }

  lemma {:induction false} UnclosedSwallows(p: bytes)
    requires !Closed(p)
    ensures |Tokenise(p + [CLOSE])| == |Tokenise(p)|
    decreases |p|
  {
    var whole := p + [CLOSE];
    if p[0] == OPEN {
      if |p| > 1 {
        assert ClassStart(whole) == ClassStart(p) + [CLOSE];
      } else {
        assert ClassStart(whole) == [CLOSE] == ClassStart(p) + [CLOSE];
      }
      match ReadClass(ClassStart(p)) {
        case None =>
          ReadClassClosing(ClassStart(p));
        case Some(body) =>
          ReadClassExtends(ClassStart(p), [CLOSE]);
          UnclosedSwallows(body.rest);
      }
    } else if p[0] == BACKSLASH {
      if |p| > 1 {
        assert whole[2..] == p[2..] + [CLOSE];
        UnclosedSwallows(p[2..]);
      } else {
        assert whole[2..] == [] && p[1..] == [];
      }
    } else {
      assert whole[1..] == p[1..] + [CLOSE];
      UnclosedSwallows(p[1..]);
    }
  }

  /** Tokens compose under every continuation exactly for closed patterns. */
  lemma ComposesIffClosed(p: bytes)
    ensures Closed(p) <==> forall q :: Tokenise(p + q) == Tokenise(p) + Tokenise(q)
  {
    if Closed(p) {
      forall q ensures Tokenise(p + q) == Tokenise(p) + Tokenise(q) {
        TokeniseExtends(p, q);
      }
    } else {
      UnclosedSwallows(p);
      assert Tokenise([CLOSE]) == [Lit(CLOSE)];
      assert Tokenise(p + [CLOSE]) != Tokenise(p) + Tokenise([CLOSE]);
    }
  }

  lemma {:induction false} SplitMatch(a: seq<Token>, b: seq<Token>, s: bytes) returns (k: nat)
    requires Match(a + b, s)
    ensures k <= |s| && Match(a, s[..k]) && Match(b, s[k..])
    decreases |a|
  {
    if a == [] {
      assert a + b == b && s[0..] == s;
      k := 0;
    } else {
      assert (a + b)[1..] == a[1..] + b;
      var j := 1;
      if a[0] == Star {
        j :| 0 <= j <= |s| && Match(a[1..] + b, s[j..]);
      }
      var i := SplitMatch(a[1..], b, s[j..]);
      k := j + i;
      assert s[j..][..i] == s[..k][j..] && s[j..][i..] == s[k..];
    }
  }

  lemma {:induction false} JoinMatch(a: seq<Token>, b: seq<Token>, s: bytes, k: nat)
    requires k <= |s| && Match(a, s[..k]) && Match(b, s[k..])
    ensures Match(a + b, s)
    decreases |a|
  {
    if a == [] {
      assert a + b == b && s[k..] == s;
    } else {
      assert (a + b)[1..] == a[1..] + b;
      var j := 1;
      if a[0] == Star {
        j :| 0 <= j <= k && Match(a[1..], s[..k][j..]);
      }
      assert s[..k][j..] == s[j..][..k - j] && s[k..] == s[j..][k - j..];
      JoinMatch(a[1..], b, s[j..], k - j);
    }
  }

  /** For a closed p, the pattern p ++ q matches exactly the concatenations. */
  lemma PatternsCompose(p: bytes, q: bytes, s: bytes)
    requires Closed(p)
    ensures InLanguage(Tokenise(p + q), s) <==>
            exists k :: 0 <= k <= |s| && InLanguage(Tokenise(p), s[..k]) && InLanguage(Tokenise(q), s[k..])
  {
    TokeniseExtends(p, q);
    MatchIffInLanguage(Tokenise(p + q), s);
    if InLanguage(Tokenise(p + q), s) {
      var k := SplitMatch(Tokenise(p), Tokenise(q), s);
      MatchIffInLanguage(Tokenise(p), s[..k]);
      MatchIffInLanguage(Tokenise(q), s[k..]);
    }
    if k :| 0 <= k <= |s| && InLanguage(Tokenise(p), s[..k]) && InLanguage(Tokenise(q), s[k..]) {
      MatchIffInLanguage(Tokenise(p), s[..k]);
      MatchIffInLanguage(Tokenise(q), s[k..]);
      JoinMatch(Tokenise(p), Tokenise(q), s, k);
    }
  }

  /** Backslash-quote every byte. */
  function Quote(t: bytes): bytes {
    if t == [] then [] else [BACKSLASH, t[0]] + Quote(t[1..])
  }

  /** A quoted text is a closed pattern that matches that text and nothing else. */
  lemma {:induction false} QuoteMatchesOnlyItself(t: bytes, s: bytes)
    ensures Closed(Quote(t))
    ensures InLanguage(Tokenise(Quote(t)), s) <==> s == t
    decreases |t|
  {
    var ts := Tokenise(Quote(t));
    MatchIffInLanguage(ts, s);
    if t == [] {
    } else {
      assert Quote(t)[2..] == Quote(t[1..]);
      assert ts[0] == Lit(t[0]) && ts[1..] == Tokenise(Quote(t[1..]));
      var rest := if s == [] then [] else s[1..];
      QuoteMatchesOnlyItself(t[1..], rest);
      MatchIffInLanguage(ts[1..], rest);
      if s == [] {
      } else {
        assert s == [s[0]] + s[1..];
        assert t == [t[0]] + t[1..];
        assert [s[0]] == [t[0]] <==> s[0] == t[0];
      }
    }
  }

  /** A pattern that leaves a class open matches nothing at all, whatever precedes the class. */
  lemma UnclosedMatchesNothing(p: bytes, q: bytes, s: bytes)
    requires Closed(p)
    requires q != [] && q[0] == OPEN && ReadClass(ClassStart(q)).None?
    ensures !InLanguage(Tokenise(p + q), s)
  {
    TokeniseExtends(p, q);
    var ts := Tokenise(p + q);
    assert ts[|ts| - 1] == Unclosed;
  }
}
