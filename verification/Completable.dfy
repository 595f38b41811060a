/** Which undecided buffers can still become a request. The parser asks for more bytes on any text it
    has not refused yet; some of those texts no continuation can complete. */
module Completable {
  import opened Bytes
  import opened Decimal
  import opened Resp

  /** Some continuation of `s` is an accepted frame. */
  ghost predicate CanComplete(s: bytes) {
    exists e :: Parse(s + e).Ok?
  }

  // ---- Headers ------------------------------------------------------------

  predicate EndsInCr(s: bytes) { s != [] && s[|s| - 1] == CR }

  /** The number text of an unfinished header: what stands before a pending carriage return. */
  function NumberText(s: bytes): bytes {
    if EndsInCr(s) then s[..|s| - 1] else s
  }

  /** An unfinished header can still say a number from lo to hi, lo being 0 or 1: with its carriage
      return in place the number is settled; before, digits can only make it larger. */
  predicate HeaderAlive(s: bytes, lo: nat, hi: nat) {
    var text := NumberText(s);
    && AllDigits(Magnitude(text))
    && if EndsInCr(s) then IsDecimal(text) && lo <= SignedValue(text) <= hi
       else if text != Magnitude(text) then lo == 0 && Value(Magnitude(text)) == 0
       else Value(text) <= hi
  }

  /** The header `s` continued by `e` says a number from lo to hi. */
  ghost predicate Says(s: bytes, e: bytes, lo: nat, hi: nat) {
    ParseInt(s + e).Ok? && lo <= ParseInt(s + e).value <= hi
  }

  lemma SaysText(s: bytes, e: bytes, text: bytes, lo: nat, hi: nat)
    requires text + CRLF == s + e && IsDecimal(text) && lo <= SignedValue(text) <= hi <= LIMIT
    ensures Says(s, e, lo, hi) && ParseInt(s + e).used == |s + e|
  {
    ParseIntMeaning(s + e, text);
  }

  /** A continuation of a header that is alive. */
  lemma FinishHeader(s: bytes, lo: nat, hi: nat) returns (e: bytes)
    requires HeaderAlive(s, lo, hi) && lo <= 1 <= hi <= LIMIT
    ensures Says(s, e, lo, hi) && ParseInt(s + e).used == |s + e|
  {
    hide ParseInt, Value;
    if EndsInCr(s) {
      e := [LF];
      assert NumberText(s) + CRLF == s + e;
      SaysText(s, e, NumberText(s), lo, hi);
    } else {
      var m := Magnitude(s);
      if m != [] && lo <= SignedValue(s) {
        e := CRLF;
        SaysText(s, e, s, lo, hi);
      } else {
        var d: byte := 48 + lo;
        ZeroOrEmpty(m);
        ValueSnoc(m, d);
        assert Magnitude(s + [d]) == m + [d];
        e := [d] + CRLF;
        assert (s + [d]) + CRLF == s + e;
        SaysText(s, e, s + [d], lo, hi);
      }
    }
  }

  lemma ZeroOrEmpty(m: bytes)
    requires AllDigits(m)
    ensures m == [] ==> Value(m) == 0
  {
  }

  /** What an accepted header says is spelled out before its line end. */
  lemma TextOf(s: bytes) returns (text: bytes)
    requires ParseInt(s).Ok?
    ensures text + CRLF <= s && Accepts(text) && ParseInt(s).value == SignedValue(text)
  {
    var at := if s[0] == DASH then 1 else 0;
    assert s[at..at] == [];
    var end := ScanIntSound(s, at, at, at == 1, 0);
    hide ScanInt, Value;
    text := s[..end];
    assert Magnitude(text) == s[at..end];
    assert text + CRLF == s[..end + 2];
  }

  /** A text cut short of a number in range. */
  lemma CutText(text: bytes, n: nat, lo: nat, hi: nat)
    requires IsDecimal(text) && lo <= SignedValue(text) <= hi && n <= |text|
    ensures HeaderAlive(text[..n], lo, hi)
  {
    hide Value;
    var cut, m := text[..n], Magnitude(text);
    assert forall i :: 0 <= i < |m| ==> IsDigit(m[i]);
    assert forall i :: 0 <= i < n ==> cut[i] == DASH || IsDigit(cut[i]) by {
      assert forall i :: 0 <= i < n ==> cut[i] == text[i];
      assert forall i :: |text| - |m| <= i < |text| ==> text[i] == m[i - (|text| - |m|)];
    }
    if cut == [] {
      ZeroOrEmpty(cut);
    } else {
      var k := n - (|text| - |m|);
      assert Magnitude(cut) == m[..k];
      ValueMonotone(m, k);
    }
  }

  /** A continuation that says a number in range shows the header was alive. */
  lemma HeaderWasAlive(s: bytes, e: bytes, lo: nat, hi: nat)
    requires ParseInt(s).NeedMore? && Says(s, e, lo, hi)
    ensures HeaderAlive(s, lo, hi)
  {
    var text := TextOf(s + e);
    hide ParseInt, Value, HeaderAlive, Accepts;
    var n := |text|;
    if n + 2 <= |s| {
      assert text + CRLF == (s + e)[..n + 2] == s[..n + 2];
      ParseIntMeaning(s, text);
      assert false;
    } else if |s| == n + 1 {
      assert s == (text + CRLF)[..n + 1] == text + [CR];
      PendingCr(s, text, lo, hi);
    } else {
      assert s == (text + CRLF)[..|s|] == text[..|s|];
      CutText(text, |s|, lo, hi);
    }
  }

  lemma PendingCr(s: bytes, text: bytes, lo: nat, hi: nat)
    requires s == text + [CR] && IsDecimal(text) && lo <= SignedValue(text) <= hi
    ensures HeaderAlive(s, lo, hi)
  {
    hide Value;
    assert NumberText(s) == text;
  }

  // ---- Bulk strings -------------------------------------------------------

  /** An undecided bulk string can still be completed: its header can, or its body is there up to, at
      most, a carriage return in the right place. */
  predicate BulkAlive(s: bytes) {
    if s == [] then true
    else
      match ParseInt(s[1..])
      case Ok(length, used) => |s| == 1 + used + length + 1 ==> s[|s| - 1] == CR
      case _ => HeaderAlive(s[1..], 0, MAX_BULK_LEN)
  }

  /** Body and line end, as far as they are missing. */
  lemma FinishBody(s: bytes, length: nat, used: nat) returns (e: bytes)
    requires s != [] && s[0] == DOLLAR && length <= MAX_BULK_LEN
    requires ParseInt(s[1..]) == Ok(length, used) && used < |s| < 1 + used + length + 2
    requires |s| == 1 + used + length + 1 ==> s[|s| - 1] == CR
    ensures ParseBulk(s + e).Ok? && ParseBulk(s + e).used == |s + e|
  {
    hide ParseInt;
    var total := 1 + used + length + 2;
    if |s| == total - 1 {
      e := [LF];
    } else {
      var fill: bytes := seq(total - 2 - |s|, _ => 0);
      e := fill + CRLF;
    }
    ParseIntStable(s[1..], e);
    assert (s + e)[1..] == s[1..] + e;
    assert (s + e)[total - 2..total] == CRLF;
  }

  lemma FinishBulk(s: bytes) returns (e: bytes)
    requires ParseBulk(s).NeedMore? && BulkAlive(s)
    ensures ParseBulk(s + e).Ok? && ParseBulk(s + e).used == |s + e|
  {
    hide ParseInt, HeaderAlive;
    if s == [] {
      e := EncodeBulk([]);
      ParseBulkEncoded([], []);
      assert s + e == e + [];
    } else {
      ParseIntStable(s[1..], []);
      if ParseInt(s[1..]).Ok? {
        e := FinishBody(s, ParseInt(s[1..]).value, ParseInt(s[1..]).used);
      } else {
        var h := FinishHeader(s[1..], 0, MAX_BULK_LEN);
        assert (s + h)[1..] == s[1..] + h;
        var more := FinishBody(s + h, ParseInt(s[1..] + h).value, ParseInt(s[1..] + h).used);
        Associative(s, h, more);
        e := h + more;
      }
    }
  }

  lemma BulkWasAlive(s: bytes, e: bytes)
    requires ParseBulk(s).NeedMore? && ParseBulk(s + e).Ok?
    ensures BulkAlive(s)
  {
    hide ParseInt, HeaderAlive;
    if s != [] {
      assert (s + e)[1..] == s[1..] + e;
      ParseIntStable(s[1..], e);
      if ParseInt(s[1..]).NeedMore? {
        HeaderWasAlive(s[1..], e, 0, MAX_BULK_LEN);
      } else {
        var total := ParseBulk(s + e).used;
        assert (s + e)[total - 2..total][0] == (s + e)[total - 2];
      }
    }
  }

  /** Of n bulk strings, the first one that is not there yet decides. */
  predicate ArgsAlive(s: bytes, n: nat)
    decreases n
  {
    if n == 0 then true
    else
      match ParseBulk(s)
      case Ok(_, used) => ArgsAlive(s[used..], n - 1)
      case _ => BulkAlive(s)
  }

  lemma {:induction false} FinishArgs(s: bytes, n: nat) returns (e: bytes)
    requires ParseArgs(s, n).NeedMore? && ArgsAlive(s, n)
    ensures ParseArgs(s + e, n).Ok?
    decreases n
  {
    hide ParseBulk, BulkAlive, EncodeBulks;
    if ParseBulk(s).Ok? {
      var used := ParseBulk(s).used;
      e := FinishArgs(s[used..], n - 1);
      ParseBulkStable(s, e);
      assert (s + e)[used..] == s[used..] + e;
    } else {
      var b := FinishBulk(s);
      var empties: seq<bytes> := seq(n - 1, _ => []);
      var more := EncodeBulks(empties);
      ParseArgsEncoded(empties, []);
      assert more + [] == more;
      e := b + more;
      Associative(s, b, more);
      ParseBulkStable(s + b, more);
      assert (s + e)[|s + b|..] == more;
    }
  }

  lemma {:induction false} ArgsWereAlive(s: bytes, e: bytes, n: nat)
    requires ParseArgs(s, n).NeedMore? && ParseArgs(s + e, n).Ok?
    ensures ArgsAlive(s, n)
    decreases n
  {
    hide ParseBulk, BulkAlive;
    ParseBulkStable(s, e);
    if ParseBulk(s).Ok? {
      var used := ParseBulk(s).used;
      assert (s + e)[used..] == s[used..] + e;
      ArgsWereAlive(s[used..], e, n - 1);
    } else {
      BulkWasAlive(s, e);
    }
  }

  // ---- Multi-bulk frames --------------------------------------------------

  predicate MultiBulkAlive(s: bytes)
    requires s != []
  {
    match ParseInt(s[1..])
    case Ok(argc, used) => argc >= 0 && 1 + used <= |s| && ArgsAlive(s[1 + used..], argc)
    case _ => HeaderAlive(s[1..], 1, MAX_ARGC)
  }

  lemma FinishMultiBulk(s: bytes) returns (e: bytes)
    requires s != [] && ParseMultiBulk(s).NeedMore? && MultiBulkAlive(s)
    ensures ParseMultiBulk(s + e).Ok?
  {
    hide ParseInt, HeaderAlive, ParseArgs, ArgsAlive, EncodeBulks;
    if ParseInt(s[1..]).Ok? {
      var at := 1 + ParseInt(s[1..]).used;
      e := FinishArgs(s[at..], ParseInt(s[1..]).value);
      ParseIntStable(s[1..], e);
      assert (s + e)[1..] == s[1..] + e && (s + e)[at..] == s[at..] + e;
    } else {
      var h := FinishHeader(s[1..], 1, MAX_ARGC);
      var empties: seq<bytes> := seq(ParseInt(s[1..] + h).value, _ => []);
      var more := EncodeBulks(empties);
      ParseArgsEncoded(empties, []);
      assert more + [] == more;
      e := h + more;
      ParseIntStable(s[1..] + h, more);
      assert (s + e)[1..] == s[1..] + h + more && (s + e)[|s + h|..] == more;
    }
  }

  lemma MultiBulkWasAlive(s: bytes, e: bytes)
    requires s != [] && ParseMultiBulk(s).NeedMore? && ParseMultiBulk(s + e).Ok?
    ensures MultiBulkAlive(s)
  {
    hide ParseInt, HeaderAlive, ParseArgs, ArgsAlive;
    assert (s + e)[1..] == s[1..] + e;
    ParseIntStable(s[1..], e);
    if ParseInt(s[1..]).Ok? {
      var at := 1 + ParseInt(s[1..]).used;
      assert (s + e)[at..] == s[at..] + e;
      ArgsWereAlive(s[at..], e, ParseInt(s[1..]).value);
    } else {
      HeaderWasAlive(s[1..], e, 1, MAX_ARGC);
    }
  }

  // ---- Inline commands ----------------------------------------------------

  /** An unfinished line can still be completed: ended here it has words enough and not too many, or
      there is room for one more byte before the newline and the words are not yet too many. */
  predicate InlineAlive(s: bytes) {
    || 1 <= |Words(s[..LineEnd(s, |s|)])| <= MAX_ARGC
    || (|s| + 1 < MAX_INLINE_LEN && |Words(s)| <= MAX_ARGC)
  }

  /** A longer line never has fewer words. */
  lemma {:induction false} WordsGrow(s: bytes, t: bytes)
    ensures |Words(s)| <= |Words(s + t)|
    ensures Words(s) == [] ==> Words(s + t) == Words(t)
    decreases |s|
  {
    if s == [] {
      assert s + t == t;
    } else if IsBlank(s[0]) {
      assert (s + t)[1..] == s[1..] + t;
      WordsGrow(s[1..], t);
    } else {
      var n, m := WordLength(s), WordLength(s + t);
      assert (s + t)[0] == s[0];
      if n < |s| {
        assert (s + t)[n] == s[n];
        assert m == n by {
          assert forall i :: 0 <= i < n ==> (s + t)[i] == s[i];
        }
        assert (s + t)[n..] == s[n..] + t;
        WordsGrow(s[n..], t);
      } else {
        assert Words(s[n..]) == [];
      }
    }
  }

  /** What a line is read as once its newline is at `nl`. */
  lemma InlineAt(s: bytes, nl: nat)
    requires nl < |s| && nl < MAX_INLINE_LEN && s[nl] == LF && forall i :: 0 <= i < nl ==> s[i] != LF
    ensures var words := Words(s[..LineEnd(s, nl)]);
            ParseInline(s) == if words == [] || |words| > MAX_ARGC then Malformed else Ok(words, nl + 1)
  {
    hide Words, IndexOf;
    var limit := if |s| < MAX_INLINE_LEN then |s| else MAX_INLINE_LEN;
    IndexOfUnique(s[..limit], LF, nl);
  }

  /** An undecided line has no newline and is short of the limit. */
  lemma NoNewline(s: bytes)
    requires ParseInline(s).NeedMore?
    ensures |s| < MAX_INLINE_LEN && forall i :: 0 <= i < |s| ==> s[i] != LF
  {
    hide Words, IndexOf;
    assert s[..|s|] == s;
  }

  lemma FinishInline(s: bytes) returns (e: bytes)
    requires ParseInline(s).NeedMore? && InlineAlive(s)
    ensures ParseInline(s + e).Ok?
  {
    hide ParseInline;
    NoNewline(s);
    if 1 <= |Words(s[..LineEnd(s, |s|)])| <= MAX_ARGC {
      e := [LF];
      InlineAt(s + e, |s|);
      assert (s + e)[..LineEnd(s, |s|)] == s[..LineEnd(s, |s|)];
    } else {
      var x: byte := if Words(s) == [] then 97 else CR;
      e := [x, LF];
      InlineAt(s + e, |s| + 1);
      if x == CR {
        assert (s + e)[..|s|] == s;
      } else {
        WordsGrow(s, [x]);
        assert [x][..1] == [x] && [x][1..] == [] && Words([]) == [];
        assert WordLength([x]) == 1 && Words([x]) == [[x]] + Words([x][1..]);
        assert (s + e)[..|s| + 1] == s + [x];
      }
    }
  }

  lemma InlineWasAlive(s: bytes, e: bytes)
    requires ParseInline(s).NeedMore? && ParseInline(s + e).Ok?
    ensures InlineAlive(s)
  {
    hide Words;
    NoNewline(s);
    var whole := s + e;
    var limit := if |whole| < MAX_INLINE_LEN then |whole| else MAX_INLINE_LEN;
    var nl := IndexOf(whole[..limit], LF);
    assert whole[nl] == LF && forall i :: 0 <= i < |s| ==> whole[i] == s[i];
    var end := LineEnd(whole, nl);
    if nl == |s| {
      assert whole[..end] == s[..LineEnd(s, |s|)];
    } else {
      assert whole[..end] == s + whole[|s|..end];
      WordsGrow(s, whole[|s|..end]);
    }
  }

  // ---- Whole frames -------------------------------------------------------

  /** A test on the bytes of an undecided buffer. */
  predicate Alive(s: bytes) {
    if s == [] then true
    else if s[0] == STAR then MultiBulkAlive(s)
    else InlineAlive(s)
  }

  /** An undecided buffer can still become a request exactly when the test says so. */
  lemma CompletableIff(s: bytes)
    requires Parse(s).NeedMore?
    ensures CanComplete(s) <==> Alive(s)
  {
    hide ParseInline, ParseMultiBulk, InlineAlive, MultiBulkAlive;
    if s == [] {
      RequestRoundTrip([[]], []);
      assert s + (EncodeRequest([[]]) + []) == EncodeRequest([[]]) + [];
    } else if Alive(s) {
      var e;
      if s[0] == STAR {
        e := FinishMultiBulk(s);
      } else {
        e := FinishInline(s);
      }
      assert Parse(s + e).Ok?;
    } else {
      forall e ensures !Parse(s + e).Ok? {
        if Parse(s + e).Ok? {
          if s[0] == STAR {
            MultiBulkWasAlive(s, e);
          } else {
            InlineWasAlive(s, e);
          }
        }
      }
    }
  }

  /** A minus sign after the star: the parser waits on for ever. */
  lemma WaitsOnMinus()
    ensures Parse([STAR, DASH]).NeedMore? && !CanComplete([STAR, DASH])
  {
    hide CanComplete;
    var s := [STAR, DASH];
    assert s[1..] == [DASH];
    CompletableIff(s);
  }

  /** So it does on a count above the limit whose line has not ended. */
  lemma WaitsOnTooMany()
    ensures Parse([STAR, 57, 57]).NeedMore? && !CanComplete([STAR, 57, 57])
  {
    hide CanComplete;
    var s, d := [STAR, 57, 57], [57, 57];
    assert s[1..] == d;
    assert ScanInt(d, 0, 2, false, 99).NeedMore?;
    assert ScanInt(d, 0, 1, false, 9).NeedMore?;
    assert Parse(s).NeedMore?;
    ValueSnoc([], 57);
    ValueSnoc([57], 57);
    assert [] + [57] == [57] && [57] + [57] == d;
    CompletableIff(s);
  }
}
