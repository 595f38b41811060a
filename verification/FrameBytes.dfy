/** What the request parser answers on every buffer, said in bytes: 10 and 13 end lines, 9 and 32
    separate words, 36, 42 and 45 are `$`, `*` and `-`, digits run from 48 to 57. */
module FrameBytes {
  import opened Bytes
  import opened Decimal
  import opened Resp
  import Completable
  import W = Words

  // ---- Numbers ------------------------------------------------------------

  predicate Digits(s: bytes) { forall i :: 0 <= i < |s| ==> 48 <= s[i] <= 57 }

  /** The number digits spell. */
  function Number(s: bytes): int {
    if s == [] then 0 else 10 * Number(s[..|s| - 1]) + (s[|s| - 1] as int - 48)
  }

  function Unsigned(s: bytes): bytes {
    if s != [] && s[0] == 45 then s[1..] else s
  }

  /** A text the readers accept. */
  predicate Readable(s: bytes) {
    Unsigned(s) != [] && Digits(Unsigned(s)) && Number(Unsigned(s)) <= 9223372036854775799
  }

  function Spelled(s: bytes): int {
    if s != [] && s[0] == 45 then -Number(Unsigned(s)) else Number(Unsigned(s))
  }

  lemma {:induction false} NumberIsValue(s: bytes)
    ensures Digits(s) <==> AllDigits(s)
    ensures Digits(s) ==> Number(s) == Value(s)
    decreases |s|
  {
    if s == [] {
    } else {
      NumberIsValue(s[..|s| - 1]);
    }
  }

  /** The guarded readers accept exactly an optional 45 and digits of magnitude at most
      9223372036854775799, and read the number they spell. */
  lemma AcceptsBytes(s: bytes)
    ensures Accepts(s) <==> Readable(s)
    ensures Accepts(s) ==> SignedValue(s) == Spelled(s)
  {
    NumberIsValue(Unsigned(s));
    assert Unsigned(s) == Magnitude(s);
  }

  // ---- Headers ------------------------------------------------------------

  /** Where the byte b first stands in s, or |s|. */
  function First(s: bytes, b: byte): (i: nat)
    ensures i <= |s|
    ensures forall j :: 0 <= j < i ==> s[j] != b
    ensures i < |s| ==> s[i] == b
  {
    if s == [] || s[0] == b then 0 else 1 + First(s[1..], b)
  }

  lemma {:induction false} FirstUnique(s: bytes, b: byte, i: nat)
    requires i < |s| && s[i] == b && forall j :: 0 <= j < i ==> s[j] != b
    ensures First(s, b) == i
  {
    var f := First(s, b);
    assert f >= i;
    assert f <= i;
  }

  /** A complete number line: a readable text, then 13, then 10. */
  predicate HeaderDone(s: bytes) {
    var i := First(s, 13);
    i + 1 < |s| && s[i + 1] == 10 && Readable(s[..i])
  }

  function HeaderValue(s: bytes): int { Spelled(s[..First(s, 13)]) }

  function HeaderSize(s: bytes): nat { First(s, 13) + 2 }

  /** The beginning of a number line: perhaps a 45, digits within range, perhaps a last 13. */
  predicate HeaderOpen(s: bytes) {
    var text := if s != [] && s[|s| - 1] == 13 then s[..|s| - 1] else s;
    Digits(Unsigned(text)) && Number(Unsigned(text)) <= 9223372036854775799
  }

  lemma {:induction false} ScanOpen(s: bytes, at: nat, i: nat, negative: bool, v: nat)
    requires at <= i <= |s| && AllDigits(s[at..i]) && v == Value(s[at..i]) <= LIMIT
    ensures ScanInt(s, at, i, negative, v).NeedMore? <==>
            var end := if |s| > i && s[|s| - 1] == CR then |s| - 1 else |s|;
            AllDigits(s[at..end]) && Value(s[at..end]) <= LIMIT
    decreases |s| - i
  {
    hide Value;
    var end := if |s| > i && s[|s| - 1] == CR then |s| - 1 else |s|;
    if i == |s| {
    } else if s[i] == CR {
      if i + 1 < |s| {
        assert end > i && s[at..end][i - at] == CR;
      }
    } else if !IsDigit(s[i]) {
      assert end > i && s[at..end][i - at] == s[i];
    } else {
      assert end > i;
      ValueSnoc(s[at..i], s[i]);
      assert s[at..i] + [s[i]] == s[at..i + 1];
      if v > GUARD {
        if AllDigits(s[at..end]) {
          ValueMonotone(s[at..end], i + 1 - at);
          assert s[at..end][..i + 1 - at] == s[at..i + 1];
        }
      } else {
        ScanOpen(s, at, i + 1, negative, v * 10 + (s[i] - 48));
      }
    }
  }

  /** A number line is waited for exactly as long as it can still be the beginning of one. */
  lemma HeaderOpenIff(s: bytes)
    ensures ParseInt(s).NeedMore? <==> HeaderOpen(s)
  {
    hide ScanInt, Value, Number;
    var at := if s != [] && s[0] == DASH then 1 else 0;
    assert s[at..at] == [];
    ZeroDigits();
    ScanOpen(s, at, at, at == 1, 0);
    var text := if s != [] && s[|s| - 1] == 13 then s[..|s| - 1] else s;
    var end := if |s| > at && s[|s| - 1] == CR then |s| - 1 else |s|;
    assert Unsigned(text) == s[at..end];
    NumberIsValue(Unsigned(text));
  }

  lemma ZeroDigits()
    ensures AllDigits([]) && Value([]) == 0
  {
  }

  /** It is accepted exactly when it is complete. */
  lemma HeaderDoneIff(s: bytes)
    ensures ParseInt(s).Ok? <==> HeaderDone(s)
    ensures ParseInt(s).Ok? ==> ParseInt(s) == Ok(HeaderValue(s), HeaderSize(s))
  {
    hide ParseInt, Value, Number, Readable, Spelled;
    if ParseInt(s).Ok? {
      var text := Completable.TextOf(s);
      var i := |text|;
      assert text == s[..i] && s[i] == CR && s[i + 1] == LF by {
        assert text == (text + CRLF)[..i] && (text + CRLF)[i] == CR && (text + CRLF)[i + 1] == LF;
      }
      NoCrInText(text);
      FirstUnique(s, 13, i);
      AcceptsBytes(text);
      ParseIntMeaning(s, text);
    }
    if HeaderDone(s) {
      var i := First(s, 13);
      AcceptsBytes(s[..i]);
      assert s[..i] + CRLF == s[..i + 2];
      ParseIntMeaning(s, s[..i]);
    }
  }

  lemma NoCrInText(text: bytes)
    requires Accepts(text)
    ensures forall i :: 0 <= i < |text| ==> text[i] != 13
  {
    hide Value;
    forall i | 0 <= i < |text| ensures text[i] != 13 {
      if i > 0 || text[0] != DASH {
        assert IsDigit(Magnitude(text)[i - (|text| - |Magnitude(text)|)]);
      }
    }
  }

  // ---- Bulk strings -------------------------------------------------------

  /** Where a bulk string ends, its number line being complete: header, body, 13, 10. */
  function BulkEnd(s: bytes): int
    requires s != []
  {
    1 + HeaderSize(s[1..]) + HeaderValue(s[1..]) + 2
  }

  predicate LengthOk(s: bytes)
    requires s != []
  {
    HeaderDone(s[1..]) && 0 <= HeaderValue(s[1..]) <= 536870912
  }

  predicate BulkOpen(s: bytes) {
    s == [] || (s[0] == 36 && (HeaderOpen(s[1..]) || (LengthOk(s) && |s| < BulkEnd(s))))
  }

  predicate BulkDone(s: bytes) {
    && s != [] && s[0] == 36 && LengthOk(s) && BulkEnd(s) <= |s|
    && s[BulkEnd(s) - 2] == 13 && s[BulkEnd(s) - 1] == 10
  }

  function BulkBody(s: bytes): bytes
    requires BulkDone(s)
  {
    s[1 + HeaderSize(s[1..])..BulkEnd(s) - 2]
  }

  lemma BulkVerdict(s: bytes)
    ensures ParseBulk(s).NeedMore? <==> BulkOpen(s)
    ensures ParseBulk(s).Ok? <==> BulkDone(s)
    ensures BulkDone(s) ==> ParseBulk(s) == Ok(BulkBody(s), BulkEnd(s))
  {
    hide ParseInt, HeaderOpen, HeaderDone, HeaderValue, HeaderSize;
    if s != [] {
      HeaderOpenIff(s[1..]);
      HeaderDoneIff(s[1..]);
      if s[0] == 36 && LengthOk(s) && BulkEnd(s) <= |s| {
        var end := BulkEnd(s);
        assert s[end - 2..end] == [s[end - 2], s[end - 1]];
      }
    }
  }

  // ---- Multi-bulk frames --------------------------------------------------

  /** The first bulk string of n that is not complete is still open, or is refused. */
  predicate ArgsOpen(s: bytes, n: nat)
    decreases n
  {
    n > 0 && if BulkDone(s) then ArgsOpen(s[BulkEnd(s)..], n - 1) else BulkOpen(s)
  }

  predicate ArgsRefused(s: bytes, n: nat)
    decreases n
  {
    n > 0 && if BulkDone(s) then ArgsRefused(s[BulkEnd(s)..], n - 1) else !BulkOpen(s)
  }

  predicate ArgsDone(s: bytes, n: nat)
    decreases n
  {
    n > 0 ==> BulkDone(s) && ArgsDone(s[BulkEnd(s)..], n - 1)
  }

  function ArgBodies(s: bytes, n: nat): seq<bytes>
    requires ArgsDone(s, n)
    decreases n
  {
    if n == 0 then [] else [BulkBody(s)] + ArgBodies(s[BulkEnd(s)..], n - 1)
  }

  function ArgsEnd(s: bytes, n: nat): nat
    requires ArgsDone(s, n)
    decreases n
  {
    if n == 0 then 0 else BulkEnd(s) + ArgsEnd(s[BulkEnd(s)..], n - 1)
  }

  lemma {:induction false} ArgsVerdict(s: bytes, n: nat)
    ensures ParseArgs(s, n).NeedMore? <==> ArgsOpen(s, n)
    ensures ParseArgs(s, n).Malformed? <==> ArgsRefused(s, n)
    ensures ParseArgs(s, n).Ok? <==> ArgsDone(s, n)
    ensures ArgsDone(s, n) ==> ParseArgs(s, n) == Ok(ArgBodies(s, n), ArgsEnd(s, n))
    decreases n
  {
    hide ParseBulk, BulkOpen, BulkBody, BulkEnd;
    BulkVerdict(s);
    if n == 0 {
    } else if BulkDone(s) {
      ArgsVerdict(s[BulkEnd(s)..], n - 1);
    }
  }

  predicate CountOk(s: bytes)
    requires s != []
  {
    HeaderDone(s[1..]) && 1 <= HeaderValue(s[1..]) <= 32
  }

  function AfterCount(s: bytes): bytes
    requires s != [] && HeaderDone(s[1..])
  {
    s[1 + HeaderSize(s[1..])..]
  }

  predicate FrameDone(s: bytes)
    requires s != []
  {
    CountOk(s) && ArgsDone(AfterCount(s), HeaderValue(s[1..]))
  }

  function FrameBodies(s: bytes): seq<bytes>
    requires s != [] && FrameDone(s)
  {
    ArgBodies(AfterCount(s), HeaderValue(s[1..]))
  }

  function FrameEnd(s: bytes): nat
    requires s != [] && FrameDone(s)
  {
    1 + HeaderSize(s[1..]) + ArgsEnd(AfterCount(s), HeaderValue(s[1..]))
  }

  /** A frame that starts with 42 is waited for exactly while its count line or one of its bulk strings
      is open; accepted, as the list of their bodies, exactly when all are complete; and refused exactly
      when the count line can never be one, says less than 1 or more than 32, or a bulk string is
      neither complete nor open. */
  lemma MultiBulkVerdict(s: bytes)
    requires s != [] && s[0] == 42
    ensures Parse(s).NeedMore? <==>
            HeaderOpen(s[1..]) || (CountOk(s) && ArgsOpen(AfterCount(s), HeaderValue(s[1..])))
    ensures Parse(s).Malformed? <==>
            && !HeaderOpen(s[1..])
            && (CountOk(s) ==> ArgsRefused(AfterCount(s), HeaderValue(s[1..])))
    ensures Parse(s).Ok? <==> FrameDone(s)
    ensures FrameDone(s) ==> Parse(s) == Ok(FrameBodies(s), FrameEnd(s))
  {
    hide ParseInt, ParseArgs, HeaderOpen, HeaderValue, ArgsOpen, ArgsRefused, ArgsDone, ArgBodies, ArgsEnd;
    HeaderOpenIff(s[1..]);
    HeaderDoneIff(s[1..]);
    ParseIntStable(s[1..], []);
    if CountOk(s) {
      ArgsVerdict(AfterCount(s), HeaderValue(s[1..]));
    }
  }

  // ---- Lines --------------------------------------------------------------

  predicate Gap(s: bytes) { forall i :: 0 <= i < |s| ==> s[i] == 32 || s[i] == 9 }

  predicate Word(s: bytes) { s != [] && forall i :: 0 <= i < |s| ==> s[i] != 32 && s[i] != 9 }

  /** gap, word, gap, word, ..., gap. */
  function Weave(gaps: seq<bytes>, words: seq<bytes>): bytes
    requires |gaps| == |words| + 1
  {
    if words == [] then gaps[0] else gaps[0] + words[0] + Weave(gaps[1..], words[1..])
  }

  /** The line is these words, runs of 32 and 9 around them and between them. */
  ghost predicate Reads(line: bytes, words: seq<bytes>, gaps: seq<bytes>) {
    && |gaps| == |words| + 1
    && (forall i :: 0 <= i < |gaps| ==> Gap(gaps[i]))
    && (forall i :: 0 < i < |words| ==> gaps[i] != [])
    && (forall i :: 0 <= i < |words| ==> Word(words[i]))
    && line == Weave(gaps, words)
  }

  lemma {:induction false} SameWeave(gaps: seq<bytes>, words: seq<bytes>)
    requires |gaps| == |words| + 1
    ensures Weave(gaps, words) == W.Weave(gaps, words)
    decreases |words|
  {
    if words == [] {
    } else {
      SameWeave(gaps[1..], words[1..]);
    }
  }

  lemma ReadsIsSpells(line: bytes, words: seq<bytes>, gaps: seq<bytes>)
    ensures Reads(line, words, gaps) <==> W.Spells(line, words, gaps)
  {
    hide Weave, W.Weave;
    if |gaps| == |words| + 1 {
      SameWeave(gaps, words);
      forall i | 0 <= i < |gaps| ensures Gap(gaps[i]) <==> W.AllBlank(gaps[i]) {
      }
      forall i | 0 <= i < |words| ensures Word(words[i]) <==> W.IsWord(words[i]) {
      }
    }
  }

  /** The words of the line. */
  ghost predicate HasWords(line: bytes, words: seq<bytes>) {
    exists gaps :: Reads(line, words, gaps)
  }

  lemma HasWordsIff(line: bytes, words: seq<bytes>)
    ensures HasWords(line, words) <==> Words(line) == words
  {
    hide Reads, W.Spells, Words;
    W.WordsAreTheReading(line, words);
    if gaps :| Reads(line, words, gaps) {
      ReadsIsSpells(line, words, gaps);
    }
    if gaps :| W.Spells(line, words, gaps) {
      ReadsIsSpells(line, words, gaps);
    }
  }

  /** The line before a 10 at nl: a 13 just before it does not belong to it. */
  function Line(s: bytes, nl: nat): bytes
    requires nl <= |s|
  {
    if nl > 0 && s[nl - 1] == 13 then s[..nl - 1] else s[..nl]
  }

  lemma NoNewlineYet(s: bytes)
    requires First(s, 10) == |s| || First(s, 10) >= 8192
    ensures ParseInline(s) == if |s| < 8192 then NeedMore else Malformed
  {
    hide Words, IndexOf, First;
    var limit := if |s| < MAX_INLINE_LEN then |s| else MAX_INLINE_LEN;
    var nl := IndexOf(s[..limit], LF);
    if nl < limit {
      assert false;
    }
  }

  lemma NewlineAt(s: bytes)
    requires First(s, 10) < |s| && First(s, 10) < 8192
    ensures var nl := First(s, 10); var words := Words(Line(s, nl));
            ParseInline(s) == if 1 <= |words| <= 32 then Ok(words, nl + 1) else Malformed
  {
    hide Words, IndexOf, First;
    var nl := First(s, 10);
    assert Line(s, nl) == s[..LineEnd(s, nl)];
    Completable.InlineAt(s, nl);
  }

  /** A buffer that does not start with 42 is waited for exactly while it is shorter than 8192 bytes and
      holds no 10; it is accepted exactly when the first 10 is among the first 8192 bytes and the line
      before it is 1 to 32 words; and refused otherwise. */
  lemma LineVerdict(s: bytes, words: seq<bytes>)
    requires s != [] && s[0] != 42
    ensures var nl := First(s, 10);
            && (Parse(s).NeedMore? <==> nl == |s| < 8192)
            && (Parse(s) == Ok(words, nl + 1) <==>
                nl < |s| && nl < 8192 && 1 <= |words| <= 32 && HasWords(Line(s, nl), words))
            && (Parse(s).Ok? ==> Parse(s).used == nl + 1 && HasWords(Line(s, nl), Parse(s).value))
  {
    hide Words, ParseInline, First, HasWords, Line;
    var nl := First(s, 10);
    if nl < |s| && nl < 8192 {
      NewlineAt(s);
      HasWordsIff(Line(s, nl), words);
      HasWordsIff(Line(s, nl), Words(Line(s, nl)));
    } else {
      NoNewlineYet(s);
    }
  }

  /** A line of 1 to 32 words, ended by 13 10 or by 10 alone, is read as those words, and exactly the
      line and its end are consumed. */
  lemma LineRead(line: bytes, words: seq<bytes>, rest: bytes)
    requires 10 !in line && |line| + 2 <= 8192 && line != [] && line[0] != 42 && line[|line| - 1] != 13
    requires 1 <= |words| <= 32 && HasWords(line, words)
    ensures Parse(line + [13, 10] + rest) == Ok(words, |line| + 2)
    ensures Parse(line + [10] + rest) == Ok(words, |line| + 1)
  {
    hide Parse, HasWords;
    var n := |line|;
    var a, b := line + [13, 10] + rest, line + [10] + rest;
    assert forall i :: 0 <= i < n ==> a[i] == line[i] && b[i] == line[i] && line[i] in line;
    FirstUnique(a, 10, n + 1);
    FirstUnique(b, 10, n);
    assert Line(a, n + 1) == line && Line(b, n) == line;
    LineVerdict(a, words);
    LineVerdict(b, words);
  }
}
