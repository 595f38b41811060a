/** Bytes, byte strings and the few helpers every other module needs. */
module Bytes {

  /** One `unsigned char`. */
  type byte = x: int | 0 <= x < 256

  /** A binary-safe (pointer, length) pair, as a value. */
  type bytes = seq<byte>

  datatype Option<+T> = None | Some(value: T)

  const NUL: byte := 0
  const TAB: byte := 9
  const LF: byte := 10
  const CR: byte := 13
  const SPACE: byte := 32
  const BANG: byte := 33
  const DOLLAR: byte := 36
  const STAR: byte := 42
  const PLUS: byte := 43
  const DASH: byte := 45
  const COLON: byte := 58
  const QUESTION: byte := 63
  const OPEN: byte := 91
  const BACKSLASH: byte := 92
  const CLOSE: byte := 93
  const CARET: byte := 94

  const CRLF: bytes := [CR, LF]

  /** The bytes of an ASCII string literal. */
  function Ascii(s: string): (r: bytes)
    ensures |r| == |s|
  {
    seq(|s|, i requires 0 <= i < |s| => (s[i] as int) % 256)
  }

  lemma AsciiIs(s: string, b: bytes)
    requires |s| == |b| && forall i :: 0 <= i < |b| ==> s[i] as int == b[i]
    ensures Ascii(s) == b
  {
  }

  /** Concatenation of a list of byte strings. */
  function Concat(parts: seq<bytes>): bytes {
    if parts == [] then [] else parts[0] + Concat(parts[1..])
  }

  lemma {:induction false} ConcatAppend(a: seq<bytes>, b: seq<bytes>)
    ensures Concat(a + b) == Concat(a) + Concat(b)
  {
    if a == [] {
      assert a + b == b;
    } else {
      ConcatAppend(a[1..], b);
      assert (a + b)[1..] == a[1..] + b;
      Associative(a[0], Concat(a[1..]), Concat(b));
    }
  }

  lemma SliceSnoc<T>(s: seq<T>, lo: nat, hi: nat)
    requires lo <= hi < |s|
    ensures s[lo..hi + 1] == s[lo..hi] + [s[hi]]
  {
  }

  lemma SliceEnds<T>(s: seq<T>, lo: nat)
    requires lo <= |s|
    ensures s[lo..lo] == [] && s[lo..|s|] == s[lo..]
  {
  }

  lemma Associative<T>(a: seq<T>, b: seq<T>, c: seq<T>)
    ensures a + (b + c) == (a + b) + c
  {
  }
}
