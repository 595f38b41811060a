/** The reply serializers: each appends one encoded reply to a byte queue. */
module ReplyWriter {
  import opened Bytes
  import opened ByteBuffer
  import opened Decimal
  import opened Environment
  import opened Reply
  import Resp

  /** What appending `data` to a queue holding `before` may leave behind: everything on success,
      a prefix on failure, and success exactly when no allocation is refused and the cap is not hit. */
  ghost predicate Wrote(before: bytes, after: bytes, data: bytes, ok: bool, refused: bool) {
    && before <= after <= before + data
    && (ok ==> after == before + data)
    && (ok <==> !refused && |before| + |data| <= MAX)
    && (refused ==> !MEMORY_LASTS)
  }

  lemma WroteThenMore(a: bytes, b: bytes, c: bytes, d: bytes, e: bytes, refused: bool, ok: bool, refused': bool)
    requires Wrote(a, b, d, true, refused) && Wrote(b, c, e, ok, refused')
    ensures Wrote(a, c, d + e, ok, refused')
  {
    Associative(a, d, e);
    assert a + d + e == b + e;
  }

  lemma FailedEarly(a: bytes, b: bytes, d: bytes, e: bytes, refused: bool)
    requires Wrote(a, b, d, false, refused)
    ensures Wrote(a, b, d + e, false, refused)
  {
    Associative(a, d, e);
    assert a + d <= a + (d + e);
  }

  /** Three pieces in a row, stopping at the first that does not fit. */
  method AppendThree(out: ByteBuf, a: bytes, b: bytes, c: bytes) returns (ok: bool, ghost refused: bool)
    requires out.Valid()
    modifies out, out.data
    ensures out.Valid() && (out.data == old(out.data) || fresh(out.data))
    ensures Wrote(old(out.Contents()), out.Contents(), a + b + c, ok, refused)
  {
    hide Wrote;
    ghost var s0 := out.Contents();
    ok, refused := AppendOne(out, a);
    if !ok {
      FailedEarly(s0, out.Contents(), a, b, refused);
      FailedEarly(s0, out.Contents(), a + b, c, refused);
      return;
    }
    ghost var s1 := out.Contents();
    ghost var r1 := refused;
    ok, refused := AppendOne(out, b);
    if !ok {
      WroteThenMore(s0, s1, out.Contents(), a, b, r1, false, refused);
      FailedEarly(s0, out.Contents(), a + b, c, refused);
      return;
    }
    WroteThenMore(s0, s1, out.Contents(), a, b, r1, true, refused);
    ghost var s2 := out.Contents();
    ghost var r2 := refused;
    ok, refused := AppendOne(out, c);
    WroteThenMore(s0, s2, out.Contents(), a + b, c, r2, ok, refused);
  }

  method AppendOne(out: ByteBuf, a: bytes) returns (ok: bool, ghost refused: bool)
    requires out.Valid()
    modifies out, out.data
    ensures out.Valid() && (out.data == old(out.data) || fresh(out.data))
    ensures Wrote(old(out.Contents()), out.Contents(), a, ok, refused)
  {
    ok, refused := out.Append(a);
  }

  method ReplySimple(out: ByteBuf, s: bytes) returns (ok: bool, ghost refused: bool)
    requires out.Valid()
    modifies out, out.data
    ensures out.Valid() && (out.data == old(out.data) || fresh(out.data))
    ensures Wrote(old(out.Contents()), out.Contents(), Encode(Simple(s)), ok, refused)
  {
    ok, refused := AppendThree(out, [PLUS], s, CRLF);
  }

  method ReplyError(out: ByteBuf, msg: bytes) returns (ok: bool, ghost refused: bool)
    requires out.Valid()
    modifies out, out.data
    ensures out.Valid() && (out.data == old(out.data) || fresh(out.data))
    ensures Wrote(old(out.Contents()), out.Contents(), Encode(Error(msg)), ok, refused)
  {
    ok, refused := AppendThree(out, [DASH], msg, CRLF);
  }

  method ReplyInt(out: ByteBuf, n: int) returns (ok: bool, ghost refused: bool)
    requires out.Valid()
    modifies out, out.data
    ensures out.Valid() && (out.data == old(out.data) || fresh(out.data))
    ensures Wrote(old(out.Contents()), out.Contents(), Encode(Int(n)), ok, refused)
  {
    ok, refused := AppendOne(out, [COLON] + FormatInt(n) + CRLF);
    assert [COLON] + FormatInt(n) + CRLF == [COLON] + Resp.Header(n);
  }

  method ReplyBulk(out: ByteBuf, b: bytes) returns (ok: bool, ghost refused: bool)
    requires out.Valid()
    modifies out, out.data
    ensures out.Valid() && (out.data == old(out.data) || fresh(out.data))
    ensures Wrote(old(out.Contents()), out.Contents(), Encode(Bulk(b)), ok, refused)
  {
    ok, refused := AppendThree(out, [DOLLAR] + Resp.Header(|b|), b, CRLF);
  }

  method ReplyNil(out: ByteBuf) returns (ok: bool, ghost refused: bool)
    requires out.Valid()
    modifies out, out.data
    ensures out.Valid() && (out.data == old(out.data) || fresh(out.data))
    ensures Wrote(old(out.Contents()), out.Contents(), Encode(Nil), ok, refused)
  {
    ok, refused := AppendOne(out, NIL_BULK);
  }

  /** The header alone; the caller appends the elements. */
  method ReplyArrayHeader(out: ByteBuf, n: nat) returns (ok: bool, ghost refused: bool)
    requires out.Valid()
    modifies out, out.data
    ensures out.Valid() && (out.data == old(out.data) || fresh(out.data))
    ensures Wrote(old(out.Contents()), out.Contents(), [STAR] + Resp.Header(n), ok, refused)
  {
    ok, refused := AppendOne(out, [STAR] + Resp.Header(n));
  }
}
