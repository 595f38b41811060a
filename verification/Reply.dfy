/** RESP2 replies: what the serializers write, and a client-side decoder that reads it back. */
module Reply {
  import opened Bytes
  import opened Decimal
  import opened Resp

  datatype Reply =
    | Simple(text: bytes)
    | Error(text: bytes)
    | Int(n: int)
    | Bulk(b: bytes)
    | Nil
    | Array(elems: seq<Reply>)

  const NIL_BULK: bytes := [DOLLAR, DASH, 49, CR, LF]

  /** The bytes of one reply. */
  function Encode(r: Reply): bytes {
    match r
    case Simple(text) => [PLUS] + text + CRLF
    case Error(text) => [DASH] + text + CRLF
    case Int(n) => [COLON] + Header(n)
    case Bulk(b) => EncodeBulk(b)
    case Nil => NIL_BULK
    case Array(elems) => [STAR] + Header(|elems|) + EncodeMany(elems)
  }

  function EncodeMany(rs: seq<Reply>): bytes {
    if rs == [] then [] else Encode(rs[0]) + EncodeMany(rs[1..])
  }

  lemma {:induction false} EncodeManyAppend(a: seq<Reply>, b: seq<Reply>)
    ensures EncodeMany(a + b) == EncodeMany(a) + EncodeMany(b)
    decreases |a|
  {
    hide Encode;
    if a == [] {
      assert a + b == b;
    } else {
      assert (a + b)[1..] == a[1..] + b;
      EncodeManyAppend(a[1..], b);
      Associative(Encode(a[0]), EncodeMany(a[1..]), EncodeMany(b));
    }
  }

  // ---- A decoder that follows the protocol, not the serializers -----------

  /** Where the first CRLF pair starts, or |s|. */
  function FindCrlf(s: bytes): (i: nat)
    ensures i <= |s|
    ensures i < |s| ==> i + 1 < |s| && s[i] == CR && s[i + 1] == LF
    ensures forall j :: 0 <= j < i && j + 1 < |s| ==> !(s[j] == CR && s[j + 1] == LF)
  {
    if |s| < 2 then |s|
    else if s[0] == CR && s[1] == LF then 0
    else 1 + FindCrlf(s[1..])
  }

  function Decode(s: bytes): (r: Parsed<Reply>)
    ensures r.Ok? ==> 0 < r.used <= |s|
    decreases |s|, 0
  {
    if s == [] then NeedMore
    else
      var end := FindCrlf(s[1..]);
      if end == |s| - 1 then NeedMore
      else
        var line, used := s[1..][..end], 1 + end + 2;
        if s[0] == PLUS then Ok(Simple(line), used)
        else if s[0] == DASH then Ok(Error(line), used)
        else if !IsDecimal(line) then Malformed
        else if s[0] == COLON then Ok(Int(SignedValue(line)), used)
        else if s[0] == DOLLAR then DecodeBody(s, used, SignedValue(line))
        else if s[0] == STAR && SignedValue(line) >= 0 then
          match DecodeMany(s[used..], SignedValue(line))
          case NeedMore => NeedMore
          case Malformed => Malformed
          case Ok(elems, more) => Ok(Array(elems), used + more)
        else Malformed
  }

  /** A bulk string whose header, `used` bytes long, announced length n. */
  function DecodeBody(s: bytes, used: nat, n: int): (r: Parsed<Reply>)
    requires 0 < used <= |s|
    ensures r.Ok? ==> 0 < r.used <= |s|
  {
    if n == -1 then Ok(Nil, used)
    else if n < 0 then Malformed
    else if |s| < used + n + 2 then NeedMore
    else if s[used + n..used + n + 2] != CRLF then Malformed
    else Ok(Bulk(s[used..used + n]), used + n + 2)
  }

  function DecodeMany(s: bytes, n: nat): (r: Parsed<seq<Reply>>)
    ensures r.Ok? ==> r.used <= |s|
    decreases |s|, n + 1
  {
    if n == 0 then Ok([], 0)
    else
      match Decode(s)
      case NeedMore => NeedMore
      case Malformed => Malformed
      case Ok(first, used) =>
        match DecodeMany(s[used..], n - 1)
        case NeedMore => NeedMore
        case Malformed => Malformed
        case Ok(rest, more) => Ok([first] + rest, used + more)
  }

  // ---- Unique decodability ------------------------------------------------

  predicate NoCrlf(s: bytes) { FindCrlf(s) == |s| }

  /** A reply survives framing when no status or error text contains a CRLF pair. */
  predicate Framable(r: Reply) {
    match r
    case Simple(text) => NoCrlf(text)
    case Error(text) => NoCrlf(text)
    case Array(elems) => forall i :: 0 <= i < |elems| ==> Framable(elems[i])
    case _ => true
  }

  lemma FindCrlfAfter(line: bytes, rest: bytes)
    ensures FindCrlf(line + CRLF + rest) <= |line|
    ensures NoCrlf(line) <==> FindCrlf(line + CRLF + rest) == |line|
  {
    var s := line + CRLF + rest;
    var i, k := FindCrlf(s), FindCrlf(line);
    assert s[|line|] == CR && s[|line| + 1] == LF;
    assert forall j :: 0 <= j < |line| ==> s[j] == line[j];
  }

  lemma HeaderLine(n: int, rest: bytes)
    ensures FindCrlf(Header(n) + rest) == |FormatInt(n)|
    ensures (Header(n) + rest)[..|FormatInt(n)|] == FormatInt(n)
    ensures IsDecimal(FormatInt(n)) && SignedValue(FormatInt(n)) == n
  {
    FormatRoundTrip(n);
    var d := FormatInt(n);
    forall j | 0 <= j < |d| ensures d[j] != LF {
      if d[0] != DASH {
        assert IsDigit(Magnitude(d)[j]);
      } else if j > 0 {
        assert IsDigit(Magnitude(d)[j - 1]);
      }
    }
    FindCrlfAfter(d, rest);
  }

  lemma DecodeText(r: Reply, rest: bytes)
    requires r.Simple? || r.Error?
    ensures Decode(Encode(r) + rest) == Ok(r, |Encode(r)|) <==> Framable(r)
  {
    var s := Encode(r) + rest;
    assert s[1..] == r.text + CRLF + rest;
    FindCrlfAfter(r.text, rest);
    assert s[1..][..|r.text|] == r.text;
  }

  lemma DecodeInt(n: int, rest: bytes)
    ensures Decode(Encode(Int(n)) + rest) == Ok(Int(n), |Encode(Int(n))|)
  {
    HeaderLine(n, rest);
    assert (Encode(Int(n)) + rest)[1..] == Header(n) + rest;
  }

  lemma DecodeNil(rest: bytes)
    ensures Decode(NIL_BULK + rest) == Ok(Nil, |NIL_BULK|)
  {
    var s := NIL_BULK + rest;
    assert s[1..] == [DASH, 49] + CRLF + rest;
    FindCrlfAfter([DASH, 49], rest);
    assert s[1..][..2] == [DASH, 49];
    assert Magnitude([DASH, 49]) == [49] && [49][..0] == [];
    assert Value([49]) == 1;
  }

  lemma DecodeBodyAt(header: bytes, b: bytes, rest: bytes)
    requires header != []
    ensures DecodeBody(header + b + CRLF + rest, |header|, |b|) == Ok(Bulk(b), |header + b + CRLF|)
  {
    var s, used := header + b + CRLF + rest, |header|;
    assert s[used..used + |b|] == b;
    assert s[used + |b|..used + |b| + 2] == CRLF;
  }

  lemma DecodeBulk(b: bytes, rest: bytes)
    ensures Decode(EncodeBulk(b) + rest) == Ok(Bulk(b), |EncodeBulk(b)|)
  {
    hide FindCrlf, SignedValue, IsDecimal, FormatInt, DecodeBody;
    var s, h := EncodeBulk(b) + rest, Header(|b|);
    HeaderLine(|b|, b + CRLF + rest);
    assert s[1..] == h + (b + CRLF + rest);
    DecodeBodyAt([DOLLAR] + h, b, rest);
  }

  /** A framable reply decodes to itself and to nothing more, whatever follows it. */
  lemma {:induction false} DecodeRoundTrip(r: Reply, rest: bytes)
    requires Framable(r)
    ensures Decode(Encode(r) + rest) == Ok(r, |Encode(r)|)
    decreases r
  {
    match r {
      case Simple(_) => DecodeText(r, rest);
      case Error(_) => DecodeText(r, rest);
      case Int(n) => DecodeInt(n, rest);
      case Bulk(b) => DecodeBulk(b, rest);
      case Nil => DecodeNil(rest);
      case Array(elems) =>
        DecodeManyRoundTrip(r, elems, rest);
        DecodeArray(elems, EncodeMany(elems), rest);
    }
  }

  lemma DecodeArray(elems: seq<Reply>, body: bytes, rest: bytes)
    requires DecodeMany(body + rest, |elems|) == Ok(elems, |body|)
    ensures Decode([STAR] + Header(|elems|) + body + rest) ==
            Ok(Array(elems), |[STAR] + Header(|elems|) + body|)
  {
    hide DecodeMany;
    var s := [STAR] + Header(|elems|) + body + rest;
    HeaderLine(|elems|, body + rest);
    assert s[1..] == Header(|elems|) + (body + rest);
    assert s[1 + |Header(|elems|)|..] == body + rest;
  }

  lemma {:induction false} DecodeManyRoundTrip(whole: Reply, rs: seq<Reply>, rest: bytes)
    requires forall i :: 0 <= i < |rs| ==> rs[i] < whole && Framable(rs[i])
    ensures DecodeMany(EncodeMany(rs) + rest, |rs|) == Ok(rs, |EncodeMany(rs)|)
    decreases whole, |rs|
  {
    hide Decode, Encode, Framable;
    if rs == [] {
    } else {
      var s, tail := EncodeMany(rs) + rest, EncodeMany(rs[1..]) + rest;
      Associative(Encode(rs[0]), EncodeMany(rs[1..]), rest);
      DecodeRoundTrip(rs[0], tail);
      assert s[|Encode(rs[0])|..] == tail;
      DecodeManyRoundTrip(whole, rs[1..], rest);
      assert [rs[0]] + rs[1..] == rs;
    }
  }

  /** Decode replies until the stream no longer yields one. */
  function DecodeStream(s: bytes): seq<Reply>
    decreases |s|
  {
    match Decode(s)
    case Ok(r, used) => [r] + DecodeStream(s[used..])
    case _ => []
  }

  /** A stream of framable replies decodes to exactly those replies, one for one, in order. */
  lemma {:induction false} StreamRoundTrip(rs: seq<Reply>)
    requires forall i :: 0 <= i < |rs| ==> Framable(rs[i])
    ensures DecodeStream(EncodeMany(rs)) == rs
    decreases |rs|
  {
    hide Decode, Encode;
    if rs == [] {
      DecodeNothing();
    } else {
      var s := EncodeMany(rs);
      DecodeRoundTrip(rs[0], EncodeMany(rs[1..]));
      assert s[|Encode(rs[0])|..] == EncodeMany(rs[1..]);
      StreamRoundTrip(rs[1..]);
      assert [rs[0]] + rs[1..] == rs;
    }
  }

  lemma DecodeNothing()
    ensures Decode([]) == NeedMore
  {
  }
}
