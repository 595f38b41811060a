/** The request parser as it runs: loops over the buffer that fill borrowed slices. */
module RespParser {
  import opened Bytes
  import opened Decimal
  import opened Resp

  datatype Status = OK | NEED_MORE | PROTOCOL_ERR

  /** A borrowed view into the input buffer. */
  datatype Slice = Slice(start: nat, len: nat)

  function Resolve(input: bytes, s: Slice): bytes
    requires s.start + s.len <= |input|
  {
    input[s.start..s.start + s.len]
  }

  /** `done` are the bytes the slices view. */
  ghost predicate Views(input: bytes, slices: seq<Slice>, done: seq<bytes>) {
    && |slices| == |done|
    && forall k :: 0 <= k < |slices| ==>
         slices[k].start + slices[k].len <= |input| && Resolve(input, slices[k]) == done[k]
  }

  /** The caller's result record; written only when a frame is complete. */
  class Request {
    const args: array<Slice>
    var argc: nat
    var bytesConsumed: nat

    constructor ()
      ensures args.Length == MAX_ARGC && fresh(args)
    {
      args := new Slice[MAX_ARGC];
      argc, bytesConsumed := 0, 0;
    }

    /** The record describes the frame (argv, used) of `input`. */
    ghost predicate Describes(input: bytes, argv: seq<bytes>, used: nat)
      reads this, args
    {
      && argc <= args.Length
      && Views(input, args[..argc], argv)
      && bytesConsumed == used
    }
  }

  /** A status agrees with a verdict of the specification. */
  ghost predicate Says<T>(st: Status, r: Parsed<T>) {
    && (st == NEED_MORE <==> r.NeedMore?)
    && (st == PROTOCOL_ERR <==> r.Malformed?)
  }

  /** The value is an `int64` throughout: the guard keeps every step in range. */
  method ParseIntUntilCrlf(p: bytes) returns (st: Status, value: int64, consumed: nat)
    ensures Says(st, ParseInt(p))
    ensures st == OK ==> ParseInt(p) == Ok(value as int, consumed)
  {
    value, consumed := 0, 0;
    var negative, i, digitsAt := false, 0, 0;
    if i < |p| && p[i] == DASH {
      negative := true;
      i := i + 1;
      digitsAt := i;
    }
    while i < |p|
      invariant digitsAt <= i <= |p|
      invariant 0 <= value as int <= LIMIT
      invariant ScanInt(p, digitsAt, i, negative, value as int) == ParseInt(p)
    {
      var c := p[i];
      if c == CR {
        if i + 1 >= |p| {
          return NEED_MORE, value, consumed;
        }
        if p[i + 1] != LF {
          return PROTOCOL_ERR, value, consumed;
        }
        if i == digitsAt {
          return PROTOCOL_ERR, value, consumed;
        }
        return OK, if negative then -value else value, i + 2;
      }
      if c < 48 || c > 57 {
        return PROTOCOL_ERR, value, consumed;
      }
      if value > 922337203685477579 {
        return PROTOCOL_ERR, value, consumed;
      }
      value := value * 10 + (c - 48) as int64;
      i := i + 1;
    }
    return NEED_MORE, value, consumed;
  }

  /** A bulk string at offset `pos`. */
  method ParseBulkAt(input: bytes, pos: nat) returns (st: Status, slice: Slice, consumed: nat)
    requires pos <= |input|
    ensures Says(st, ParseBulk(input[pos..]))
    ensures st == OK ==>
              && slice.start + slice.len <= |input| && pos + consumed <= |input|
              && ParseBulk(input[pos..]) == Ok(Resolve(input, slice), consumed)
  {
    slice, consumed := Slice(0, 0), 0;
    var avail := |input| - pos;
    ghost var s := input[pos..];
    if avail == 0 {
      return NEED_MORE, slice, consumed;
    }
    if input[pos] != DOLLAR {
      return PROTOCOL_ERR, slice, consumed;
    }
    var length, hdrUsed;
    st, length, hdrUsed := ParseIntUntilCrlf(input[pos + 1..]);
    assert s[1..] == input[pos + 1..];
    ParseIntStable(s[1..], []);
    hide ParseInt;
    if st != OK {
      return;
    }
    if length < 0 || length as int > MAX_BULK_LEN {
      return PROTOCOL_ERR, slice, consumed;
    }
    var headerSize := 1 + hdrUsed;
    var bodySize := length as nat;
    var total := headerSize + bodySize + 2;
    if total < headerSize {
      return PROTOCOL_ERR, slice, consumed;
    }
    if avail < total {
      return NEED_MORE, slice, consumed;
    }
    var end := pos + headerSize + bodySize;
    assert s[total - 2..total] == [input[end], input[end + 1]];
    if input[end] != CR || input[end + 1] != LF {
      return PROTOCOL_ERR, slice, consumed;
    }
    slice, consumed := Slice(pos + headerSize, bodySize), total;
    assert Resolve(input, slice) == s[headerSize..headerSize + bodySize];
  }

  /** What the rest of the arguments adds to the ones already parsed. */
  ghost function Glue(done: seq<bytes>, used: nat, r: Parsed<seq<bytes>>): Parsed<seq<bytes>> {
    if r.Ok? then Ok(done + r.value, used + r.used) else r
  }

  lemma GlueStep(done: seq<bytes>, used: nat, s: bytes, n: nat)
    requires n > 0
    ensures match ParseBulk(s)
            case NeedMore => Glue(done, used, ParseArgs(s, n)).NeedMore?
            case Malformed => Glue(done, used, ParseArgs(s, n)).Malformed?
            case Ok(b, u) =>
              Glue(done, used, ParseArgs(s, n)) == Glue(done + [b], used + u, ParseArgs(s[u..], n - 1))
  {
    if ParseBulk(s).Ok? {
      var u := ParseBulk(s).used;
      if ParseArgs(s[u..], n - 1).Ok? {
        Associative(done, [ParseBulk(s).value], ParseArgs(s[u..], n - 1).value);
      }
    }
  }

  /** A multi-bulk frame; `out` is untouched unless the frame is complete. */
  method ParseMultiBulkInto(input: bytes, out: Request) returns (st: Status)
    requires |input| > 0 && out.args.Length == MAX_ARGC
    modifies out, out.args
    ensures Says(st, ParseMultiBulk(input))
    ensures st == OK ==> out.Describes(input, ParseMultiBulk(input).value, ParseMultiBulk(input).used)
    ensures st != OK ==> unchanged(out) && unchanged(out.args)
  {
    var argc, hdrUsed;
    st, argc, hdrUsed := ParseIntUntilCrlf(input[1..]);
    ParseIntStable(input[1..], []);
    if st != OK {
      return;
    }
    if argc < 1 || argc as int > MAX_ARGC {
      return PROTOCOL_ERR;
    }
    var expectedArgc := argc as nat;
    var tmp, pos;
    ghost var argv;
    st, tmp, pos, argv := ParseArguments(input, 1 + hdrUsed, expectedArgc);
    if st != OK {
      return;
    }
    hide ParseInt, ParseArgs;
    forall k | 0 <= k < expectedArgc {
      out.args[k] := tmp[k];
    }
    out.argc := expectedArgc;
    out.bytesConsumed := pos;
    assert out.args[..out.argc] == tmp[..expectedArgc];
  }

  /** The loop over the expected number of bulk strings, staged in a local array. */
  method ParseArguments(input: bytes, from: nat, n: nat)
    returns (st: Status, tmp: array<Slice>, pos: nat, ghost argv: seq<bytes>)
    requires from <= |input| && n <= MAX_ARGC
    ensures Says(st, ParseArgs(input[from..], n))
    ensures fresh(tmp) && tmp.Length == MAX_ARGC
    ensures st == OK ==> from <= pos && ParseArgs(input[from..], n) == Ok(argv, pos - from)
    ensures st == OK ==> Views(input, tmp[..n], argv)
  {
    hide ParseBulk, Glue, ParseArgs;
    tmp := new Slice[MAX_ARGC];
    pos, argv, st := from, [], OK;
    GlueNothing(ParseArgs(input[from..], n));
    var i := 0;
    while i < n
      invariant i <= n && from <= pos <= |input|
      invariant Views(input, tmp[..i], argv)
      invariant ParseArgs(input[from..], n) == Glue(argv, pos - from, ParseArgs(input[pos..], n - i))
      modifies tmp
    {
      GlueStep(argv, pos - from, input[pos..], n - i);
      var slice, bulkUsed;
      st, slice, bulkUsed := ParseBulkAt(input, pos);
      if st != OK {
        return;
      }
      tmp[i] := slice;
      assert tmp[..i + 1] == tmp[..i] + [slice];
      assert input[pos..][bulkUsed..] == input[pos + bulkUsed..];
      argv := argv + [Resolve(input, slice)];
      pos := pos + bulkUsed;
      i := i + 1;
    }
    GlueEnd(argv, pos - from, input[pos..]);
    return OK, tmp, pos, argv;
  }

  lemma GlueNothing(r: Parsed<seq<bytes>>)
    ensures Glue([], 0, r) == r
  {
    if r.Ok? {
      assert [] + r.value == r.value;
    }
  }

  lemma GlueEnd(done: seq<bytes>, used: nat, s: bytes)
    ensures Glue(done, used, ParseArgs(s, 0)) == Ok(done, used)
  {
    assert done + [] == done;
  }

  // ---- Inline commands ----------------------------------------------------

  /** One word more: the run of non-blank bytes from i to end. */
  lemma WordStep(line: bytes, i: nat, end: nat)
    requires i < end <= |line|
    requires forall k :: i <= k < end ==> !IsBlank(line[k])
    requires end == |line| || IsBlank(line[end])
    ensures Words(line[i..]) == [line[i..end]] + Words(line[end..])
  {
    var rest := line[i..];
    assert forall k :: 0 <= k < end - i ==> rest[k] == line[i + k];
    assert end < |line| ==> rest[end - i] == line[end];
    assert WordLength(rest) == end - i;
    assert rest[..end - i] == line[i..end] && rest[end - i..] == line[end..];
  }

  lemma BlankStep(line: bytes, i: nat)
    requires i < |line| && IsBlank(line[i])
    ensures Words(line[i..]) == Words(line[i + 1..])
  {
    assert line[i..][1..] == line[i + 1..];
  }

  /** Split the line at blanks into at most 32 slices; `overflow` tells that there were more. */
  method Tokenise(input: bytes, lineEnd: nat)
    returns (overflow: bool, tmp: array<Slice>, argc: nat, ghost argv: seq<bytes>)
    requires lineEnd <= |input|
    ensures fresh(tmp) && tmp.Length == MAX_ARGC && argc <= MAX_ARGC
    ensures overflow <==> |Words(input[..lineEnd])| > MAX_ARGC
    ensures !overflow ==> argv == Words(input[..lineEnd]) && Views(input, tmp[..argc], argv)
  {
    hide Words, WordLength;
    tmp := new Slice[MAX_ARGC];
    argc, argv, overflow := 0, [], false;
    ghost var line := input[..lineEnd];
    assert line[0..] == line;
    var i := 0;
    assert [] + Words(line) == Words(line);
    while i < lineEnd
      invariant i <= lineEnd && argc <= MAX_ARGC
      invariant Views(input, tmp[..argc], argv)
      invariant Words(line) == argv + Words(line[i..])
      invariant overflow == false
      modifies tmp
      decreases lineEnd - i
    {
      while i < lineEnd && (input[i] == SPACE || input[i] == TAB)
        invariant i <= lineEnd
        invariant Words(line) == argv + Words(line[i..])
        modifies {}
      {
        BlankStep(line, i);
        i := i + 1;
      }
      if i >= lineEnd {
        break;
      }
      var tokStart := i;
      while i < lineEnd && input[i] != SPACE && input[i] != TAB
        invariant tokStart <= i <= lineEnd
        invariant forall k :: tokStart <= k < i ==> !IsBlank(line[k])
        invariant i == tokStart ==> i < lineEnd && !IsBlank(line[i])
        modifies {}
      {
        i := i + 1;
      }
      WordStep(line, tokStart, i);
      if argc >= MAX_ARGC {
        return true, tmp, argc, argv;
      }
      var slice := Slice(tokStart, i - tokStart);
      tmp[argc] := slice;
      assert tmp[..argc + 1] == tmp[..argc] + [slice];
      assert line[tokStart..i] == input[tokStart..i];
      assert tokStart + (i - tokStart) == i;
      Associative(argv, [line[tokStart..i]], Words(line[i..]));
      argv := argv + [line[tokStart..i]];
      argc := argc + 1;
    }
    WordsOfNothing();
    assert line[i..] == [];
    assert argv + [] == argv;
  }

  lemma WordsOfNothing()
    ensures Words([]) == []
  {
  }

  /** A line-terminated command; `out` is untouched unless the line is complete and valid. */
  method ParseInlineInto(input: bytes, out: Request) returns (st: Status)
    requires out.args.Length == MAX_ARGC
    modifies out, out.args
    ensures Says(st, ParseInline(input))
    ensures st == OK ==> out.Describes(input, ParseInline(input).value, ParseInline(input).used)
    ensures st != OK ==> unchanged(out) && unchanged(out.args)
  {
    var scanLimit := if |input| < MAX_INLINE_LEN then |input| else MAX_INLINE_LEN;
    var nl := FindNewline(input, scanLimit);
    if nl == scanLimit {
      if |input| >= MAX_INLINE_LEN {
        return PROTOCOL_ERR;
      }
      return NEED_MORE;
    }
    var lineEnd := nl;
    if lineEnd > 0 && input[lineEnd - 1] == CR {
      lineEnd := lineEnd - 1;
    }
    hide IndexOf, Words;
    var overflow, tmp, argc;
    ghost var argv;
    overflow, tmp, argc, argv := Tokenise(input, lineEnd);
    if overflow {
      return PROTOCOL_ERR;
    }
    if argc == 0 {
      return PROTOCOL_ERR;
    }
    forall k | 0 <= k < argc {
      out.args[k] := tmp[k];
    }
    out.argc := argc;
    out.bytesConsumed := nl + 1;
    assert out.args[..out.argc] == tmp[..argc];
    return OK;
  }

  /** The bounded scan for the first newline. */
  method FindNewline(input: bytes, scanLimit: nat) returns (nl: nat)
    requires scanLimit <= |input|
    ensures nl == IndexOf(input[..scanLimit], LF)
  {
    nl := scanLimit;
    for i := 0 to scanLimit
      invariant nl == scanLimit
      invariant forall j :: 0 <= j < i ==> input[j] != LF
    {
      if input[i] == LF {
        IndexOfUnique(input[..scanLimit], LF, i);
        return i;
      }
    }
    ghost var s := input[..scanLimit];
    assert forall j :: 0 <= j < scanLimit ==> s[j] == input[j];
    assert IndexOf(s, LF) == scanLimit;
  }

  /** The entry point: one frame from the head of the buffer, or a verdict that leaves `out` as it was. */
  method ParseRequest(input: bytes, out: Request) returns (st: Status)
    requires out.args.Length == MAX_ARGC
    modifies out, out.args
    ensures Says(st, Parse(input))
    ensures st == OK ==> out.Describes(input, Parse(input).value, Parse(input).used)
    ensures st != OK ==> unchanged(out) && unchanged(out.args)
  {
    hide ParseMultiBulk, ParseInline;
    if |input| == 0 {
      return NEED_MORE;
    }
    if input[0] == STAR {
      st := ParseMultiBulkInto(input, out);
      return;
    }
    st := ParseInlineInto(input, out);
  }
}
