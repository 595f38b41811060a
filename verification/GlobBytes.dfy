/** What patterns match, said in bytes: 42 is `*`, 63 `?`, 91 and 93 the brackets, 92 the backslash,
    94 `^` and 33 `!`. */
module GlobBytes {
  import opened Bytes
  import opened Glob

  /** What the matcher decides. */
  ghost predicate Matches(p: bytes, s: bytes) { InLanguage(Tokenise(p), s) }

  lemma MatchesFits(p: bytes, s: bytes)
    ensures Matches(p, s) <==> Fits(p, s)
  {
    hide Fits, InLanguage;
    LanguageFits(p, s);
  }

  lemma EmptyLaw(s: bytes)
    ensures Matches([], s) <==> s == []
  {
    MatchesFits([], s);
    EmptyFits([], s);
  }

  /** A 42 stands for any run of bytes. */
  lemma StarLaw(p: bytes, s: bytes)
    ensures Matches([42] + p, s) <==> exists k :: 0 <= k <= |s| && Matches(p, s[k..])
  {
    hide Fits, Matches;
    var q := [42] + p;
    assert q[1..] == p;
    MatchesFits(q, s);
    StarStep(q, s);
    forall k | 0 <= k <= |s| ensures Matches(p, s[k..]) <==> Fits(q[1..], s[k..]) {
      MatchesFits(p, s[k..]);
    }
  }

  /** A 63 stands for any one byte. */
  lemma AnyLaw(p: bytes, s: bytes)
    ensures Matches([63] + p, s) <==> s != [] && Matches(p, s[1..])
  {
    hide Fits, Matches;
    var q := [63] + p;
    assert q[1..] == p;
    MatchesFits(q, s);
    AnyStep(q, s);
    if s != [] {
      MatchesFits(p, s[1..]);
    }
  }

  /** Any byte but 42, 63, 91 and 92 stands for itself; so does a 92 that ends the pattern. */
  lemma LiteralLaw(b: byte, p: bytes, s: bytes)
    requires b !in {42, 63, 91, 92} || (b == 92 && p == [])
    ensures Matches([b] + p, s) <==> s != [] && s[0] == b && Matches(p, s[1..])
  {
    hide Fits, Matches;
    var q := [b] + p;
    assert q[1..] == p;
    MatchesFits(q, s);
    LiteralStep(q, 1, s);
    if s != [] {
      MatchesFits(p, s[1..]);
    }
  }

  /** After a 92 any byte stands for itself. */
  lemma EscapeLaw(b: byte, p: bytes, s: bytes)
    ensures Matches([92, b] + p, s) <==> s != [] && s[0] == b && Matches(p, s[1..])
  {
    hide Fits, Matches;
    var q := [92, b] + p;
    assert q[2..] == p;
    MatchesFits(q, s);
    LiteralStep(q, 2, s);
    if s != [] {
      MatchesFits(p, s[1..]);
    }
  }

  // ---- Classes ------------------------------------------------------------

  /** A member of a class as it is written: as itself, or after a 92. */
  datatype Item = Plain(b: byte) | Escaped(b: byte)

  /** Written as itself, a member is neither 92 nor 93. */
  predicate Writable(items: seq<Item>) {
    forall i :: 0 <= i < |items| ==> items[i].Plain? ==> items[i].b != 92 && items[i].b != 93
  }

  function ItemText(item: Item): bytes {
    if item.Plain? then [item.b] else [92, item.b]
  }

  function Text(items: seq<Item>): bytes {
    if items == [] then []
    else ItemText(items[0]) + Text(items[1..])
  }

  function Members(items: seq<Item>): bytes {
    if items == [] then [] else [items[0].b] + Members(items[1..])
  }

  lemma {:induction false} ReadText(items: seq<Item>, rest: bytes)
    requires Writable(items)
    ensures ReadClass(Text(items) + [93] + rest) == Some(ClassBody(Members(items), rest))
    decreases |items|
  {
    hide ReadClass;
    var p := Text(items) + [93] + rest;
    if items == [] {
      assert p == [93] + rest && p[1..] == rest;
      ReadClassStep(p);
    } else {
      var tail := Text(items[1..]) + [93] + rest;
      assert forall i :: 0 <= i < |items| - 1 ==> items[1..][i] == items[i + 1];
      ReadText(items[1..], rest);
      TextStep(items[0], Text(items[1..]), rest);
      ReadClassStep(p);
    }
  }

  lemma TextStep(item: Item, more: bytes, rest: bytes)
    ensures var p, n := ItemText(item) + more + [93] + rest, |ItemText(item)|;
            p[..n] == ItemText(item) && p[n..] == more + [93] + rest
  {
  }

  /** A class that does not start with a plain 94 or 33 stands for any one of its members; `-` is a
      member like any other, and an empty class stands for nothing. */
  lemma ClassLaw(items: seq<Item>, p: bytes, s: bytes)
    requires Writable(items) && (items != [] && items[0].Plain? ==> items[0].b != 94 && items[0].b != 33)
    ensures Matches([91] + Text(items) + [93] + p, s) <==>
            s != [] && s[0] in Members(items) && Matches(p, s[1..])
  {
    hide Fits, Matches, ReadClass;
    var q := [91] + Text(items) + [93] + p;
    var inner := Text(items) + [93] + p;
    assert q == [91] + inner && q[1..] == inner;
    ReadText(items, p);
    FirstByte(items);
    assert !IsNegated(q) by {
      assert q[1] == inner[0];
    }
    MatchesFits(q, s);
    ClassStep(q, s);
    if s != [] {
      MatchesFits(p, s[1..]);
    }
  }

  lemma FirstByte(items: seq<Item>)
    ensures items != [] ==> Text(items) != [] && Text(items)[0] == if items[0].Plain? then items[0].b else 92
  {
  }

  /** After a 94 or a 33 it stands for any one byte that is not a member. */
  lemma NegatedLaw(x: byte, items: seq<Item>, p: bytes, s: bytes)
    requires Writable(items) && (x == 94 || x == 33)
    ensures Matches([91, x] + Text(items) + [93] + p, s) <==>
            s != [] && s[0] !in Members(items) && Matches(p, s[1..])
  {
    hide Fits, Matches, ReadClass;
    var q := [91, x] + Text(items) + [93] + p;
    var inner := Text(items) + [93] + p;
    assert q == [91, x] + inner && q[2..] == inner && q[1] == x;
    ReadText(items, p);
    MatchesFits(q, s);
    ClassStep(q, s);
    if s != [] {
      MatchesFits(p, s[1..]);
    }
  }

  /** A bracket that no 93 closes, one after a 92 not counting, matches nothing. */
  lemma OpenLaw(items: seq<Item>, last: bytes, s: bytes)
    requires Writable(items) && (last == [] || last == [92])
    ensures !Matches([91] + Text(items) + last, s)
  {
    hide Fits, Matches, ReadClass;
    var q, inner := [91] + Text(items) + last, Text(items) + last;
    assert q == [91] + inner && q[1..] == inner;
    if IsNegated(q) {
      assert q[1] == inner[0];
      FirstByte(items);
      var more := Text(items[1..]) + last;
      assert q[2..] == more;
      assert forall i :: 0 <= i < |items| - 1 ==> items[1..][i] == items[i + 1];
      NeverClosed(items[1..], last);
    } else {
      NeverClosed(items, last);
    }
    MatchesFits(q, s);
    ClassStep(q, s);
  }

  lemma {:induction false} NeverClosed(items: seq<Item>, last: bytes)
    requires Writable(items) && (last == [] || last == [92])
    ensures ReadClass(Text(items) + last).None?
    decreases |items|
  {
    hide ReadClass;
    var p := Text(items) + last;
    if items == [] {
      assert p == last;
      ReadNothing();
      if last != [] {
        ReadClassStep(p);
        assert p[1..] == [];
      }
    } else {
      var tail, n := Text(items[1..]) + last, |ItemText(items[0])|;
      assert forall i :: 0 <= i < |items| - 1 ==> items[1..][i] == items[i + 1];
      NeverClosed(items[1..], last);
      assert p == ItemText(items[0]) + tail && p[n..] == tail && p[..n] == ItemText(items[0]);
      ReadClassStep(p);
    }
  }

  lemma ReadNothing()
    ensures ReadClass([]).None?
  {
  }

  // ---- Classes of plain bytes ---------------------------------------------

  function Plains(ms: bytes): seq<Item> {
    if ms == [] then [] else [Plain(ms[0])] + Plains(ms[1..])
  }

  lemma {:induction false} PlainText(ms: bytes)
    requires 92 !in ms && 93 !in ms
    ensures Writable(Plains(ms)) && Text(Plains(ms)) == ms && Members(Plains(ms)) == ms
    ensures ms != [] ==> Plains(ms) != [] && Plains(ms)[0] == Plain(ms[0])
    decreases |ms|
  {
    if ms == [] {
    } else {
      PlainText(ms[1..]);
      assert Plains(ms)[1..] == Plains(ms[1..]) && ms == [ms[0]] + ms[1..];
      forall i | 0 <= i < |Plains(ms)| && Plains(ms)[i].Plain?
        ensures Plains(ms)[i].b != 92 && Plains(ms)[i].b != 93
      {
        if i > 0 {
          assert Plains(ms)[i] == Plains(ms[1..])[i - 1];
        }
      }
    }
  }

  /** `[ms]` alone matches exactly the one-byte texts of its bytes, `[^ms]` and `[!ms]` exactly the
      others. */
  lemma PlainClasses(ms: bytes, s: bytes)
    requires 92 !in ms && 93 !in ms
    ensures ms == [] || (ms[0] != 94 && ms[0] != 33) ==>
              (Matches([91] + ms + [93], s) <==> |s| == 1 && s[0] in ms)
    ensures Matches([91, 94] + ms + [93], s) <==> |s| == 1 && s[0] !in ms
    ensures Matches([91, 33] + ms + [93], s) <==> |s| == 1 && s[0] !in ms
  {
    hide Matches;
    PlainText(ms);
    var items := Plains(ms);
    if s != [] {
      EmptyLaw(s[1..]);
    }
    if ms == [] || (ms[0] != 94 && ms[0] != 33) {
      ClassLaw(items, [], s);
      assert [91] + ms + [93] + [] == [91] + ms + [93];
    }
    NegatedLaw(94, items, [], s);
    assert [91, 94] + ms + [93] + [] == [91, 94] + ms + [93];
    NegatedLaw(33, items, [], s);
    assert [91, 33] + ms + [93] + [] == [91, 33] + ms + [93];
  }
}
