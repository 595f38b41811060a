/** Decimal text and the guarded 64-bit readers that consume it. */
module Decimal {
  import opened Bytes

  const INT64_MAX: int := 0x7fff_ffff_ffff_ffff
  const INT64_MIN: int := -0x8000_0000_0000_0000

  /** A C `int64_t`; arithmetic that leaves the range does not verify. */
  newtype int64 = x: int | -0x8000_0000_0000_0000 <= x <= 0x7fff_ffff_ffff_ffff

  /** `(INT64_MAX - 9) / 10`: the accumulator bound tested before each digit. */
  const GUARD: int := 922337203685477579

  /** The largest magnitude the guarded readers accept, 2^63 - 9. */
  const LIMIT: int := 9223372036854775799

  predicate IsDigit(b: byte) { 48 <= b <= 57 }

  predicate AllDigits(s: bytes) { forall i :: 0 <= i < |s| ==> IsDigit(s[i]) }

  /** The number a string of digits denotes. */
  function Value(s: bytes): nat
    requires AllDigits(s)
  {
    if s == [] then 0 else 10 * Value(s[..|s| - 1]) + (s[|s| - 1] - 48)
  }

  /** An optional minus sign, and what follows it. */
  function Magnitude(s: bytes): bytes {
    if s != [] && s[0] == DASH then s[1..] else s
  }

  predicate IsDecimal(s: bytes) { Magnitude(s) != [] && AllDigits(Magnitude(s)) }

  function SignedValue(s: bytes): int
    requires IsDecimal(s)
  {
    if s[0] == DASH then -(Value(Magnitude(s)) as int) else Value(Magnitude(s))
  }

  /** The texts the guarded readers accept. */
  predicate Accepts(s: bytes)
    ensures Accepts(s) ==> IsDecimal(s) && -LIMIT <= SignedValue(s) <= LIMIT
  {
    IsDecimal(s) && -LIMIT <= SignedValue(s) <= LIMIT
  }

  /** `snprintf("%PRId64")`. */
  function FormatNat(n: nat): (s: bytes)
    ensures s != []
  {
    if n < 10 then [48 + n] else FormatNat(n / 10) + [48 + n % 10]
  }

  function FormatInt(n: int): bytes {
    if n < 0 then [DASH] + FormatNat(-n) else FormatNat(n)
  }

  // ---- Reading back what was printed --------------------------------------

  lemma ValueSnoc(s: bytes, d: byte)
    requires AllDigits(s) && IsDigit(d)
    ensures AllDigits(s + [d]) && Value(s + [d]) == 10 * Value(s) + (d - 48)
  {
    assert (s + [d])[..|s|] == s;
  }

  lemma {:induction false} FormatNatRoundTrip(n: nat)
    ensures AllDigits(FormatNat(n)) && Value(FormatNat(n)) == n
  {
    if n >= 10 {
      FormatNatRoundTrip(n / 10);
      ValueSnoc(FormatNat(n / 10), 48 + n % 10);
    } else {
      ValueSnoc([], 48 + n);
      assert [] + [48 + n] == [48 + n];
    }
  }

  /** Printing then reading gives the number back. */
  lemma FormatRoundTrip(n: int)
    ensures IsDecimal(FormatInt(n)) && SignedValue(FormatInt(n)) == n
  {
    FormatNatRoundTrip(if n < 0 then -n else n);
    var digits := FormatNat(if n < 0 then -n else n);
    assert IsDigit(digits[0]);
    if n < 0 {
      assert FormatInt(n)[1..] == digits;
    }
  }

  /** The one text the printer produces for each number: no leading zero, no minus zero. */
  predicate Canonical(s: bytes) {
    && IsDecimal(s)
    && (|Magnitude(s)| > 1 ==> Magnitude(s)[0] != 48)
    && (s[0] == DASH ==> Magnitude(s) != [48])
  }

  lemma {:induction false} FormatValue(s: bytes)
    requires AllDigits(s) && s != [] && (|s| > 1 ==> s[0] != 48)
    ensures FormatNat(Value(s)) == s
    ensures s[0] != 48 ==> Value(s) > 0
    decreases |s|
  {
    var front, d := s[..|s| - 1], s[|s| - 1];
    if front == [] {
      assert s == [d];
      assert Value([]) == 0;
    } else {
      FormatValue(front);
      assert s == front + [d];
    }
  }

  /** Reading then printing gives the text back exactly for canonical texts. */
  lemma CanonicalIffPrinted(s: bytes)
    requires IsDecimal(s)
    ensures Canonical(s) <==> FormatInt(SignedValue(s)) == s
  {
    var m := Magnitude(s);
    if Canonical(s) {
      FormatValue(m);
    } else if FormatInt(SignedValue(s)) == s {
      PrintedIsCanonical(SignedValue(s));
    }
  }

  lemma {:induction false} FormatNatLeading(n: nat)
    ensures n > 0 ==> FormatNat(n)[0] != 48
    ensures n < 10 <==> |FormatNat(n)| == 1
  {
    if n < 10 {
    } else {
      FormatNatLeading(n / 10);
    }
  }

  lemma PrintedIsCanonical(n: int)
    ensures Canonical(FormatInt(n))
  {
    FormatRoundTrip(n);
    FormatNatRoundTrip(if n < 0 then -n else n);
    FormatNatLeading(if n < 0 then -n else n);
    var digits := FormatNat(if n < 0 then -n else n);
    assert IsDigit(digits[0]);
    assert Magnitude(FormatInt(n)) == digits;
  }

  // ---- parse_int64 --------------------------------------------------------

  /** A longer digit string never denotes less. */
  lemma {:induction false} ValueMonotone(s: bytes, k: nat)
    requires AllDigits(s) && k <= |s|
    ensures AllDigits(s[..k]) && Value(s[..k]) <= Value(s)
    decreases |s|
  {
    if k == |s| {
      assert s[..k] == s;
    } else {
      ValueMonotone(s[..|s| - 1], k);
      assert s[..|s| - 1][..k] == s[..k];
    }
  }

  /** One round of the reader: `v` is the value of the first `k` digits. */
  lemma DigitStep(m: bytes, k: nat, v: nat)
    requires k < |m| && AllDigits(m[..k]) && v == Value(m[..k])
    ensures IsDigit(m[k]) ==> AllDigits(m[..k + 1]) && Value(m[..k + 1]) == 10 * v + (m[k] - 48)
    ensures AllDigits(m) ==> IsDigit(m[k])
    ensures AllDigits(m) && v > GUARD ==> Value(m) > LIMIT
  {
    hide Value;
    if IsDigit(m[k]) {
      ValueSnoc(m[..k], m[k]);
      assert m[..k] + [m[k]] == m[..k + 1];
      if AllDigits(m) {
        ValueMonotone(m, k + 1);
      }
    }
  }

  /** The strict signed-decimal reader. The accumulator is an `int64`, so verification also
      shows that neither the multiply-add nor the final negation can overflow. */
  method ParseInt64(p: bytes) returns (ok: bool, v: int64)
    ensures ok <==> Accepts(p)
    ensures ok ==> v as int == SignedValue(p)
  {
    hide Value, FormatNat, FormatInt;
    ok, v := false, 0;
    if |p| == 0 {
      return;
    }
    var negative := false;
    var i: nat := 0;
    if p[0] == DASH {
      negative, i := true, 1;
      if |p| == 1 {
        return;
      }
    }
    ghost var m, from := Magnitude(p), i;
    ValueEmpty(m);
    while i < |p|
      invariant from <= i <= |p|
      invariant AllDigits(m[..i - from]) && v as int == Value(m[..i - from])
      invariant v as int <= LIMIT
    {
      var c := p[i];
      assert m[i - from] == c;
      DigitStep(m, i - from, v as int);
      if c < 48 || c > 57 {
        return;
      }
      if v > 922337203685477579 {
        return;
      }
      v := v * 10 + (c - 48) as int64;
      i := i + 1;
    }
    assert m[..i - from] == m;
    v := if negative then -v else v;
    ok := true;
  }

  lemma ValueEmpty(s: bytes)
    ensures AllDigits(s[..0]) && Value(s[..0]) == 0
  {
  }

  /** The accepted range is exactly |v| <= 2^63 - 9, not the range the source comment states. */
  lemma ReaderInvertsPrinter(n: int)
    ensures Accepts(FormatInt(n)) <==> -9223372036854775799 <= n <= 9223372036854775799
  {
    FormatRoundTrip(n);
  }
}
