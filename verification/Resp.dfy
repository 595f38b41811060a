/** What the request parser recognises: a three-way function of the buffered bytes. */
module Resp {
  import opened Bytes
  import opened Decimal

  const MAX_ARGC: nat := 32
  const MAX_BULK_LEN: nat := 536870912
  const MAX_INLINE_LEN: nat := 8192

  datatype Parsed<+T> = Ok(value: T, used: nat) | NeedMore | Malformed

  // ---- Integers up to CRLF ------------------------------------------------

  function Signed(negative: bool, magnitude: int): int {
    if negative then -magnitude else magnitude
  }

  /** Digits of `s` from index `i` on, `v` being the value read so far; the first digit is
      expected at `at`. */
  function ScanInt(s: bytes, at: nat, i: nat, negative: bool, v: nat): Parsed<int>
    requires at <= i <= |s|
    decreases |s| - i
  {
    if i == |s| then NeedMore
    else if s[i] == CR then
      if i + 1 == |s| then NeedMore
      else if s[i + 1] != LF || i == at then Malformed
      else Ok(Signed(negative, v), i + 2)
    else if !IsDigit(s[i]) || v > GUARD then Malformed
    else ScanInt(s, at, i + 1, negative, v * 10 + (s[i] - 48))
  }

  function ParseInt(s: bytes): Parsed<int> {
    if s != [] && s[0] == DASH then ScanInt(s, 1, 1, true, 0) else ScanInt(s, 0, 0, false, 0)
  }

  lemma {:induction false} ScanIntStable(s: bytes, e: bytes, at: nat, i: nat, negative: bool, v: nat)
    requires at <= i <= |s|
    ensures var r := ScanInt(s, at, i, negative, v);
            && (!r.NeedMore? ==> ScanInt(s + e, at, i, negative, v) == r)
            && (r.Ok? ==> i + 2 <= r.used <= |s|)
    decreases |s| - i
  {
    if i == |s| || s[i] == CR || !IsDigit(s[i]) || v > GUARD {
    } else {
      ScanIntStable(s, e, at, i + 1, negative, v * 10 + (s[i] - 48));
    }
  }

  lemma {:induction false} ScanIntLocal(s: bytes, at: nat, i: nat, negative: bool, v: nat)
    requires at <= i <= |s| && ScanInt(s, at, i, negative, v).Ok?
    ensures var r := ScanInt(s, at, i, negative, v);
            i + 2 <= r.used <= |s| && ScanInt(s[..r.used], at, i, negative, v) == r
    decreases |s| - i
  {
    if s[i] == CR {
    } else {
      ScanIntLocal(s, at, i + 1, negative, v * 10 + (s[i] - 48));
    }
  }

  /** What an accepted header says: digits within the reader's range, then CRLF. */
  lemma {:induction false} ScanIntSound(s: bytes, at: nat, i: nat, negative: bool, v: nat)
    returns (end: nat)
    requires at <= i <= |s| && ScanInt(s, at, i, negative, v).Ok?
    requires AllDigits(s[at..i]) && v == Value(s[at..i]) <= LIMIT
    ensures at < end && end + 2 <= |s| && s[end] == CR && s[end + 1] == LF
    ensures AllDigits(s[at..end]) && Value(s[at..end]) <= LIMIT
    ensures ScanInt(s, at, i, negative, v) == Ok(Signed(negative, Value(s[at..end])), end + 2)
    decreases |s| - i
  {
    hide Value;
    if s[i] == CR {
      end := i;
    } else {
      ValueSnoc(s[at..i], s[i]);
      assert s[at..i] + [s[i]] == s[at..i + 1];
      end := ScanIntSound(s, at, i + 1, negative, v * 10 + (s[i] - 48));
    }
  }

  lemma {:induction false} ScanIntComplete(s: bytes, at: nat, i: nat, end: nat, negative: bool)
    requires at <= i <= end && at < end && end + 2 <= |s| && s[end] == CR && s[end + 1] == LF
    requires AllDigits(s[at..end]) && Value(s[at..end]) <= LIMIT
    ensures AllDigits(s[at..i])
    ensures ScanInt(s, at, i, negative, Value(s[at..i])) ==
            Ok(Signed(negative, Value(s[at..end])), end + 2)
    decreases end - i
  {
    hide Value;
    assert forall j :: at <= j < end ==> s[j] == s[at..end][j - at];
    if i < end {
      ValueSnoc(s[at..i], s[i]);
      assert s[at..i] + [s[i]] == s[at..i + 1];
      ValueMonotone(s[at..end], i + 1 - at);
      assert s[at..end][..i + 1 - at] == s[at..i + 1];
      ScanIntComplete(s, at, i + 1, end, negative);
    }
  }

  /** A header is accepted exactly when it is a decimal text the reader accepts, then CRLF. */
  lemma ParseIntMeaning(s: bytes, d: bytes)
    requires d + CRLF <= s
    ensures Accepts(d) <==> ParseInt(s) == Ok(if IsDecimal(d) then SignedValue(d) else 0, |d| + 2)
  {
    hide ScanInt;
    var n := |d|;
    assert s[..n] == d && s[n] == CR && s[n + 1] == LF by {
      assert d == (d + CRLF)[..n] && (d + CRLF)[n] == CR && (d + CRLF)[n + 1] == LF;
    }
    var at := if s[0] == DASH then 1 else 0;
    if Accepts(d) {
      assert d[0] == s[0] && Magnitude(d) == s[at..n];
      assert s[at..at] == [];
      ScanIntComplete(s, at, at, n, at == 1);
    }
    if ParseInt(s).Ok? && ParseInt(s).used == n + 2 {
      assert s[at..at] == [];
      var end := ScanIntSound(s, at, at, at == 1, 0);
      assert Magnitude(d) == s[at..n];
    }
  }

  lemma ParseIntStable(s: bytes, e: bytes)
    ensures !ParseInt(s).NeedMore? ==> ParseInt(s + e) == ParseInt(s)
    ensures ParseInt(s).Ok? ==> 3 <= ParseInt(s).used <= |s| && ParseInt(s[..ParseInt(s).used]) == ParseInt(s)
  {
    if s != [] {
      var at := if s[0] == DASH then 1 else 0;
      ScanIntStable(s, e, at, at, at == 1, 0);
      if ParseInt(s).Ok? {
        ScanIntLocal(s, at, at, at == 1, 0);
        assert s[at..at] == [];
        var end := ScanIntSound(s, at, at, at == 1, 0);
      }
    }
  }

  // ---- Bulk strings and multi-bulk frames ---------------------------------

  function ParseBulk(s: bytes): (r: Parsed<bytes>)
    ensures r.Ok? ==> r.used <= |s|
  {
    if s == [] then NeedMore
    else if s[0] != DOLLAR then Malformed
    else
      match ParseInt(s[1..])
      case NeedMore => NeedMore
      case Malformed => Malformed
      case Ok(length, used) =>
        if length < 0 || length > MAX_BULK_LEN then Malformed
        else
          var body := 1 + used;
          var total := body + length + 2;
          if |s| < total then NeedMore
          else if s[total - 2..total] != CRLF then Malformed
          else Ok(s[body..body + length], total)
  }

  lemma ParseBulkStable(s: bytes, e: bytes)
    ensures !ParseBulk(s).NeedMore? ==> ParseBulk(s + e) == ParseBulk(s)
    ensures ParseBulk(s).Ok? ==> 6 <= ParseBulk(s).used && |ParseBulk(s).value| <= MAX_BULK_LEN
  {
    hide ParseInt;
    if s != [] {
      ParseIntStable(s[1..], e);
      assert (s + e)[1..] == s[1..] + e;
      var header := ParseInt(s[1..]);
      if header.Ok? && 0 <= header.value <= MAX_BULK_LEN {
        var body := 1 + header.used;
        var total := body + header.value + 2;
        if total <= |s| {
          assert (s + e)[total - 2..total] == s[total - 2..total];
          assert (s + e)[body..body + header.value] == s[body..body + header.value];
        }
      }
    }
  }

  lemma ParseBulkLocal(s: bytes)
    requires ParseBulk(s).Ok?
    ensures ParseBulk(s[..ParseBulk(s).used]) == ParseBulk(s)
  {
    hide ParseInt;
    var total, header := ParseBulk(s).used, ParseInt(s[1..]);
    var cut := s[..total];
    ParseIntStable(s[1..], []);
    var head, tail := s[1..][..header.used], cut[1 + header.used..];
    ParseIntStable(head, tail);
    assert cut[1..] == head + tail;
    assert ParseInt(cut[1..]) == header;
    var body := 1 + header.used;
    assert cut[total - 2..total] == s[total - 2..total];
    assert cut[body..body + header.value] == s[body..body + header.value];
  }

  function ParseArgs(s: bytes, n: nat): Parsed<seq<bytes>>
    decreases n
  {
    if n == 0 then Ok([], 0)
    else
      match ParseBulk(s)
      case NeedMore => NeedMore
      case Malformed => Malformed
      case Ok(arg, used) =>
        match ParseArgs(s[used..], n - 1)
        case NeedMore => NeedMore
        case Malformed => Malformed
        case Ok(args, more) => Ok([arg] + args, used + more)
  }

  lemma {:induction false} ParseArgsStable(s: bytes, e: bytes, n: nat)
    ensures !ParseArgs(s, n).NeedMore? ==> ParseArgs(s + e, n) == ParseArgs(s, n)
    ensures ParseArgs(s, n).Ok? ==>
              && ParseArgs(s, n).used <= |s|
              && |ParseArgs(s, n).value| == n
              && forall i :: 0 <= i < n ==> |ParseArgs(s, n).value[i]| <= MAX_BULK_LEN
    decreases n
  {
    hide ParseBulk;
    if n == 0 {
    } else {
      ParseBulkStable(s, e);
      if ParseBulk(s).Ok? {
        var used := ParseBulk(s).used;
        assert (s + e)[used..] == s[used..] + e;
        ParseArgsStable(s[used..], e, n - 1);
      }
    }
  }

  lemma {:induction false} ParseArgsLocal(s: bytes, n: nat)
    requires ParseArgs(s, n).Ok?
    ensures var used := ParseArgs(s, n).used;
            used <= |s| && ParseArgs(s[..used], n) == ParseArgs(s, n)
    decreases n
  {
    hide ParseBulk;
    if n == 0 {
    } else {
      var u := ParseBulk(s).used;
      ParseArgsLocal(s[u..], n - 1);
      ParseBulkLocal(s);
      var cut := s[..ParseArgs(s, n).used];
      ParseBulkStable(s[..u], cut[u..]);
      assert cut == s[..u] + cut[u..];
      assert cut[u..] == s[u..][..ParseArgs(s[u..], n - 1).used];
    }
  }

  function ParseMultiBulk(s: bytes): Parsed<seq<bytes>>
    requires s != []
  {
    match ParseInt(s[1..])
    case NeedMore => NeedMore
    case Malformed => Malformed
    case Ok(argc, used) =>
      if argc < 1 || argc > MAX_ARGC || 1 + used > |s| then Malformed
      else
        match ParseArgs(s[1 + used..], argc)
        case NeedMore => NeedMore
        case Malformed => Malformed
        case Ok(args, more) => Ok(args, 1 + used + more)
  }

  lemma ParseMultiBulkStable(s: bytes, e: bytes)
    requires s != []
    ensures !ParseMultiBulk(s).NeedMore? ==> ParseMultiBulk(s + e) == ParseMultiBulk(s)
    ensures ParseMultiBulk(s).Ok? ==>
              && 1 < ParseMultiBulk(s).used <= |s|
              && ValidArgv(ParseMultiBulk(s).value)
  {
    hide ParseInt, ParseArgs;
    ParseIntStable(s[1..], e);
    assert (s + e)[1..] == s[1..] + e;
    var header := ParseInt(s[1..]);
    if header.Ok? && 1 <= header.value <= MAX_ARGC {
      assert (s + e)[1 + header.used..] == s[1 + header.used..] + e;
      ParseArgsStable(s[1 + header.used..], e, header.value);
    }
  }

  lemma ParseMultiBulkLocal(s: bytes)
    requires s != [] && ParseMultiBulk(s).Ok?
    ensures var used := ParseMultiBulk(s).used;
            1 < used <= |s| && ParseMultiBulk(s[..used]) == ParseMultiBulk(s)
  {
    hide ParseInt, ParseArgs;
    ParseMultiBulkStable(s, []);
    var header, total := ParseInt(s[1..]), ParseMultiBulk(s).used;
    var cut, at := s[..total], 1 + header.used;
    ParseIntStable(s[1..], []);
    ParseArgsLocal(s[at..], header.value);
    ParseIntStable(s[1..][..header.used], cut[at..]);
    assert cut[1..] == s[1..][..header.used] + cut[at..];
    assert cut[at..] == s[at..][..ParseArgs(s[at..], header.value).used];
  }

  /** The argument lists a request can carry. */
  ghost predicate ValidArgv(argv: seq<bytes>) {
    && 1 <= |argv| <= MAX_ARGC
    && forall i :: 0 <= i < |argv| ==> |argv[i]| <= MAX_BULK_LEN
  }

  // ---- Inline commands ----------------------------------------------------

  predicate IsBlank(b: byte) { b == SPACE || b == TAB }

  /** Length of the leading run of non-blank bytes. */
  function WordLength(line: bytes): (n: nat)
    ensures n <= |line|
    ensures forall i :: 0 <= i < n ==> !IsBlank(line[i])
    ensures n < |line| ==> IsBlank(line[n])
  {
    if line == [] || IsBlank(line[0]) then 0 else 1 + WordLength(line[1..])
  }

  /** The words of a line, separated by runs of blanks. */
  function Words(line: bytes): seq<bytes>
    decreases |line|
  {
    if line == [] then []
    else if IsBlank(line[0]) then Words(line[1..])
    else [line[..WordLength(line)]] + Words(line[WordLength(line)..])
  }

  /** First index of `b` in `s`, or |s|. */
  function IndexOf(s: bytes, b: byte): (i: nat)
    ensures i <= |s|
    ensures forall j :: 0 <= j < i ==> s[j] != b
    ensures i < |s| ==> s[i] == b
  {
    if s == [] || s[0] == b then 0 else 1 + IndexOf(s[1..], b)
  }

  /** The line ends before its newline, and before a carriage return just in front of it. */
  function LineEnd(s: bytes, nl: nat): (end: nat)
    requires nl <= |s|
    ensures end <= nl
  {
    if nl > 0 && s[nl - 1] == CR then nl - 1 else nl
  }

  function ParseInline(s: bytes): Parsed<seq<bytes>> {
    var limit := if |s| < MAX_INLINE_LEN then |s| else MAX_INLINE_LEN;
    var nl := IndexOf(s[..limit], LF);
    if nl == limit then
      if |s| >= MAX_INLINE_LEN then Malformed else NeedMore
    else
      var words := Words(s[..LineEnd(s, nl)]);
      if words == [] || |words| > MAX_ARGC then Malformed else Ok(words, nl + 1)
  }

  lemma {:induction false} IndexOfUnique(s: bytes, b: byte, i: nat)
    requires i < |s| && s[i] == b && forall j :: 0 <= j < i ==> s[j] != b
    ensures IndexOf(s, b) == i
  {
  }

  lemma {:induction false} WordsAreShort(line: bytes)
    ensures forall i :: 0 <= i < |Words(line)| ==> 0 < |Words(line)[i]| <= |line|
    decreases |line|
  {
    if line == [] {
    } else {
      var n := WordLength(line);
      WordsAreShort(if IsBlank(line[0]) then line[1..] else line[n..]);
    }
  }

  lemma ParseInlineStable(s: bytes, e: bytes)
    ensures !ParseInline(s).NeedMore? ==> ParseInline(s + e) == ParseInline(s)
    ensures ParseInline(s).Ok? ==>
              && 0 < ParseInline(s).used <= |s|
              && ValidArgv(ParseInline(s).value)
              && ParseInline(s[..ParseInline(s).used]) == ParseInline(s)
  {
    hide Words, IndexOf, WordLength;
    var limit := if |s| < MAX_INLINE_LEN then |s| else MAX_INLINE_LEN;
    var nl := IndexOf(s[..limit], LF);
    var wide := s + e;
    if nl < limit {
      var limit' := if |wide| < MAX_INLINE_LEN then |wide| else MAX_INLINE_LEN;
      IndexOfUnique(wide[..limit'], LF, nl);
      assert wide[..LineEnd(s, nl)] == s[..LineEnd(s, nl)];
      WordsAreShort(s[..LineEnd(s, nl)]);
      var cut := s[..nl + 1];
      IndexOfUnique(cut, LF, nl);
      assert cut[..nl + 1] == cut;
      assert cut[..LineEnd(s, nl)] == s[..LineEnd(s, nl)];
    } else if |s| >= MAX_INLINE_LEN {
      assert wide[..limit] == s[..limit];
    }
  }

  // ---- Whole frames -------------------------------------------------------

  function Parse(s: bytes): Parsed<seq<bytes>> {
    if s == [] then NeedMore
    else if s[0] == STAR then ParseMultiBulk(s)
    else ParseInline(s)
  }

  /** Once decided, a verdict never changes as more bytes arrive. */
  lemma ParseStable(s: bytes, e: bytes)
    ensures !Parse(s).NeedMore? ==> Parse(s + e) == Parse(s)
  {
    if s != [] {
      ParseInlineStable(s, e);
      ParseMultiBulkStable(s, e);
    }
  }

  /** An accepted frame is non-empty, within the buffer, self-contained and minimal. */
  lemma ParseMinimal(s: bytes)
    requires Parse(s).Ok?
    ensures var n := Parse(s).used;
            && 0 < n <= |s|
            && ValidArgv(Parse(s).value)
            && Parse(s[..n]) == Parse(s)
            && forall k :: 0 <= k < n ==> Parse(s[..k]).NeedMore?
  {
    hide ParseInline, ParseMultiBulk;
    ParseInlineStable(s, []);
    ParseMultiBulkStable(s, []);
    if s[0] == STAR {
      ParseMultiBulkLocal(s);
    }
    var n := Parse(s).used;
    forall k | 0 <= k < n ensures Parse(s[..k]).NeedMore? {
      ParseStable(s[..k], s[k..]);
      assert s[..k] + s[k..] == s;
      if Parse(s[..k]).Ok? {
        UsedWithin(s[..k]);
      }
    }
  }

  lemma UsedWithin(s: bytes)
    requires Parse(s).Ok?
    ensures 0 < Parse(s).used <= |s| && ValidArgv(Parse(s).value)
  {
    ParseInlineStable(s, []);
    ParseMultiBulkStable(s, []);
  }

  // ---- Encoding requests --------------------------------------------------

  /** A number and its line end. */
  function Header(n: int): bytes {
    FormatInt(n) + CRLF
  }

  function EncodeBulk(b: bytes): bytes {
    [DOLLAR] + Header(|b|) + b + CRLF
  }

  function EncodeBulks(args: seq<bytes>): bytes {
    if args == [] then [] else EncodeBulk(args[0]) + EncodeBulks(args[1..])
  }

  /** The multi-bulk form of a request. */
  function EncodeRequest(argv: seq<bytes>): bytes {
    [STAR] + Header(|argv|) + EncodeBulks(argv)
  }

  lemma ParseIntPrinted(n: int, rest: bytes)
    requires -LIMIT <= n <= LIMIT
    ensures ParseInt(Header(n) + rest) == Ok(n, |Header(n)|)
  {
    FormatRoundTrip(n);
    var s := Header(n) + rest;
    assert FormatInt(n) + CRLF <= s;
    ParseIntMeaning(s, FormatInt(n));
  }

  lemma ParseBulkEncoded(b: bytes, rest: bytes)
    requires |b| <= MAX_BULK_LEN
    ensures ParseBulk(EncodeBulk(b) + rest) == Ok(b, |EncodeBulk(b)|)
  {
    hide ParseInt;
    var s, header := EncodeBulk(b) + rest, Header(|b|);
    ParseIntPrinted(|b|, b + CRLF + rest);
    assert s[1..] == header + (b + CRLF + rest);
    var body := 1 + |header|;
    assert s[body..body + |b|] == b;
    assert s[body + |b|..body + |b| + 2] == CRLF;
  }

  lemma {:induction false} ParseArgsEncoded(args: seq<bytes>, rest: bytes)
    requires forall i :: 0 <= i < |args| ==> |args[i]| <= MAX_BULK_LEN
    ensures ParseArgs(EncodeBulks(args) + rest, |args|) == Ok(args, |EncodeBulks(args)|)
    decreases |args|
  {
    hide ParseBulk, EncodeBulk;
    if args == [] {
    } else {
      var s, tail := EncodeBulks(args) + rest, EncodeBulks(args[1..]) + rest;
      assert s == EncodeBulk(args[0]) + tail;
      ParseBulkEncoded(args[0], tail);
      assert s[|EncodeBulk(args[0])|..] == tail;
      ParseArgsEncoded(args[1..], rest);
      assert [args[0]] + args[1..] == args;
    }
  }

  lemma ParseMultiBulkFrom(header: bytes, bulks: bytes, rest: bytes, args: seq<bytes>)
    requires 1 <= |args| <= MAX_ARGC
    requires ParseInt(header + (bulks + rest)) == Ok(|args|, |header|)
    requires ParseArgs(bulks + rest, |args|) == Ok(args, |bulks|)
    ensures Parse([STAR] + header + bulks + rest) == Ok(args, |[STAR] + header + bulks|)
  {
    hide ParseInt, ParseArgs, ParseInline;
    var s := [STAR] + header + bulks + rest;
    assert s[1..] == header + (bulks + rest);
    assert s[1 + |header|..] == bulks + rest;
  }

  /** Encoding then parsing returns the argument list and consumes exactly the encoding. */
  lemma RequestRoundTrip(argv: seq<bytes>, rest: bytes)
    requires ValidArgv(argv)
    ensures Parse(EncodeRequest(argv) + rest) == Ok(argv, |EncodeRequest(argv)|)
  {
    hide ParseInt, ParseArgs, Parse, Header, EncodeBulks;
    ParseIntPrinted(|argv|, EncodeBulks(argv) + rest);
    ParseArgsEncoded(argv, rest);
    ParseMultiBulkFrom(Header(|argv|), EncodeBulks(argv), rest, argv);
  }

  /** Any accepted frame, inline included, re-encoded as multi-bulk parses to the same request. */
  lemma ReencodeAccepted(s: bytes, rest: bytes)
    requires Parse(s).Ok?
    ensures Parse(EncodeRequest(Parse(s).value) + rest) ==
            Ok(Parse(s).value, |EncodeRequest(Parse(s).value)|)
  {
    hide Parse;
    UsedWithin(s);
    RequestRoundTrip(Parse(s).value, rest);
  }
}
