/** The table's hash: DJB2 with exclusive-or mixing over a wrapping 64-bit state. */
module Hash {
  import opened Bytes

  const BUCKETS: nat := 1024
  const SEED: bv64 := 5381

  /** The eight bits of a byte, most significant first. */
  function Bits8(b: byte): bv8
    decreases b
  {
    if b == 0 then 0 else (Bits8(b / 2) << 1) | (if b % 2 == 1 then 1 else 0)
  }

  lemma ShiftIsDouble(w: bv8, x: bv8)
    requires w < 128 && x < 2
    ensures ((w << 1) | x) as nat == 2 * (w as nat) + (x as nat)
  {
  }

  /** They are the byte's own: read as a number they give it back. */
  lemma {:induction false} Bits8Value(b: byte)
    ensures Bits8(b) as nat == b
    decreases b
  {
    if b == 0 {
    } else {
      Bits8Value(b / 2);
      Bits8Small(b / 2);
      ShiftIsDouble(Bits8(b / 2), if b % 2 == 1 then 1 else 0);
    }
  }

  /** One round of the hashing loop, wrapping at 64 bits. */
  function Step(h: bv64, b: byte): bv64 {
    ((h << 5) + h) ^ (Bits8(b) as bv64)
  }

  /** The state after hashing `key` from state `h`. */
  function HashFrom(h: bv64, key: bytes): bv64
    decreases |key|
  {
    if key == [] then h else HashFrom(Step(h, key[0]), key[1..])
  }

  /** `hash % 1024` as an array index. */
  function BucketIndex(hash: bv64): (i: nat)
    ensures i < BUCKETS
  {
    ModIsMask(hash);
    ((hash % 1024) as bv10) as nat
  }

  function BucketOf(key: bytes): (i: nat)
    ensures i < BUCKETS
  {
    BucketIndex(HashFrom(SEED, key))
  }

  /** The hashing loop folds the bytes left to right. */
  method HashKey(key: bytes) returns (hash: bv64)
    ensures BucketIndex(hash) == BucketOf(key)
    ensures hash == HashFrom(SEED, key)
  {
    hash := SEED;
    for i := 0 to |key|
      invariant HashFrom(hash, key[i..]) == HashFrom(SEED, key)
    {
      assert key[i..][1..] == key[i + 1..];
      hash := ((hash << 5) + hash) ^ (Bits8(key[i]) as bv64);
    }
  }

  // ---- The bucket index needs only ten bits of state ----------------------

  lemma ModIsMask(h: bv64)
    ensures h % 1024 == h & 1023 && h & 1023 < 1024
  {
  }

  function Low10(h: bv64): bv10 {
    (h & 1023) as bv10
  }

  /** The same round on a ten-bit state. */
  function Step10(h: bv10, b: byte): bv10 {
    ((h << 5) + h) ^ (Bits8(b) as bv10)
  }

  function Hash10From(h: bv10, key: bytes): bv10
    decreases |key|
  {
    if key == [] then h else Hash10From(Step10(h, key[0]), key[1..])
  }

  lemma StepLow(h: bv64, b: bv8)
    ensures Low10(((h << 5) + h) ^ (b as bv64)) == ((Low10(h) << 5) + Low10(h)) ^ (b as bv10)
  {
    assert (((h << 5) + h) ^ (b as bv64)) & 1023
        == ((((h & 1023) << 5) + (h & 1023)) ^ (b as bv64)) & 1023;
  }

  /** Taking `hash % 1024` at the end agrees with masking to ten bits after every byte. */
  lemma {:induction false} BucketNeedsTenBits(h: bv64, key: bytes)
    ensures BucketIndex(HashFrom(h, key)) == Hash10From(Low10(h), key) as nat
    decreases |key|
  {
    if key == [] {
      ModIsMask(h);
    } else {
      StepLow(h, Bits8(key[0]));
      BucketNeedsTenBits(Step(h, key[0]), key[1..]);
    }
  }

  // ---- Every round permutes the ten-bit states ----------------------------

  lemma Mix10Injective(h: bv10, b: bv8, g: bv10, c: bv8)
    requires h == g || b == c
    requires ((h << 5) + h) ^ (b as bv10) == ((g << 5) + g) ^ (c as bv10)
    ensures h == g && b == c
  {
  }

  lemma ShiftedBits(u: bv8, v: bv8, x: bv8, y: bv8)
    requires u < 128 && v < 128 && x < 2 && y < 2
    ensures (u << 1) | x == (v << 1) | y ==> u == v && x == y
  {
  }

  lemma HalfBound(b: byte, w: bv8)
    requires w <= 64 && Bits8(b / 2) < w
    ensures Bits8(b) < w << 1
  {
    var u := Bits8(b / 2);
    assert (u << 1) | 1 < w << 1;
  }

  /** The bits of a byte below 128 leave the top bit clear. */
  lemma Bits8Small(b: byte)
    requires b < 128
    ensures Bits8(b) < 128
  {
    var b1 := b / 2;
    var b2 := b1 / 2;
    var b3 := b2 / 2;
    var b4 := b3 / 2;
    var b5 := b4 / 2;
    var b6 := b5 / 2;
    assert b6 / 2 == 0;
    HalfBound(b6, 1);
    HalfBound(b5, 2);
    HalfBound(b4, 4);
    HalfBound(b3, 8);
    HalfBound(b2, 16);
    HalfBound(b1, 32);
    HalfBound(b, 64);
  }

  lemma {:induction false} Bits8Injective(b: byte, c: byte)
    requires Bits8(b) == Bits8(c)
    ensures b == c
    decreases b + c
  {
    if b + c == 0 {
    } else {
      Bits8Small(b / 2);
      Bits8Small(c / 2);
      ShiftedBits(Bits8(b / 2), Bits8(c / 2), if b % 2 == 1 then 1 else 0, if c % 2 == 1 then 1 else 0);
      Bits8Injective(b / 2, c / 2);
    }
  }

  /** A round loses nothing: it separates states under one byte (33 is a unit modulo 1024)
      and bytes from one state. */
  lemma Step10Injective(h: bv10, b: byte, g: bv10, c: byte)
    requires h == g || b == c
    requires Step10(h, b) == Step10(g, c)
    ensures h == g && b == c
  {
    Mix10Injective(h, Bits8(b), g, Bits8(c));
    Bits8Injective(b, c);
  }

  lemma {:induction false} Hash10Injective(h: bv10, g: bv10, key: bytes)
    requires h != g
    ensures Hash10From(h, key) != Hash10From(g, key)
    decreases |key|
  {
    if key == [] {
    } else {
      if Step10(h, key[0]) == Step10(g, key[0]) {
        Step10Injective(h, key[0], g, key[0]);
      }
      Hash10Injective(Step10(h, key[0]), Step10(g, key[0]), key[1..]);
    }
  }

  lemma {:induction false} Hash10OneByteApart(h: bv10, key: bytes, i: nat, b: byte)
    requires i < |key| && b != key[i]
    ensures Hash10From(h, key) != Hash10From(h, key[i := b])
    decreases |key|
  {
    var other := key[i := b];
    if i == 0 {
      if Step10(h, key[0]) == Step10(h, b) {
        Step10Injective(h, key[0], h, b);
      }
      assert other[1..] == key[1..];
      Hash10Injective(Step10(h, key[0]), Step10(h, b), key[1..]);
    } else {
      assert other[1..] == key[1..][i - 1 := b];
      Hash10OneByteApart(Step10(h, key[0]), key[1..], i - 1, b);
    }
  }

  lemma NatInjective(h: bv10, g: bv10)
    requires h as nat == g as nat
    ensures h == g
  {
  }

  /** Two keys of one length that differ in exactly one byte never share a bucket. */
  lemma OneByteApartNeverCollide(key: bytes, i: nat, b: byte)
    requires i < |key| && b != key[i]
    ensures BucketOf(key) != BucketOf(key[i := b])
  {
    BucketNeedsTenBits(SEED, key);
    BucketNeedsTenBits(SEED, key[i := b]);
    Hash10OneByteApart(Low10(SEED), key, i, b);
    if BucketOf(key) == BucketOf(key[i := b]) {
      NatInjective(Hash10From(Low10(SEED), key), Hash10From(Low10(SEED), key[i := b]));
    }
  }

  // ---- The hash in numbers ------------------------------------------------

  lemma {:induction false} HashSnoc(h: bv64, key: bytes, b: byte)
    ensures HashFrom(h, key + [b]) == Step(HashFrom(h, key), b)
    decreases |key|
  {
    hide Step;
    if key == [] {
      assert key + [b] == [b] && [b][1..] == [];
      assert HashFrom(Step(h, b), []) == Step(h, b);
    } else {
      assert (key + [b])[1..] == key[1..] + [b];
      HashSnoc(Step(h, key[0]), key[1..], b);
    }
  }

  /** One round by its arithmetic: times 33, wrapping at 64 bits, then the bits of the byte flipped. */
  function TimesAndFlip(h: bv64, b: byte): bv64 {
    (h * 33) ^ (Bits8(b) as bv64)
  }

  lemma StepTimes(h: bv64, b: byte)
    ensures Step(h, b) == TimesAndFlip(h, b)
  {
    hide Bits8;
    TimesThirtyThree(h);
  }

  lemma TimesThirtyThree(h: bv64)
    ensures (h << 5) + h == h * 33
  {
  }

  /** The hash starts at 5381, and each byte multiplies it by 33, wrapping at 64 bits, and flips the
      bits of the byte in it. */
  lemma HashBytes(key: bytes, b: byte)
    ensures HashFrom(SEED, []) == 5381
    ensures HashFrom(SEED, key + [b]) == TimesAndFlip(HashFrom(SEED, key), b)
  {
    hide Step, Bits8, TimesAndFlip;
    HashSnoc(SEED, key, b);
    StepTimes(HashFrom(SEED, key), b);
  }
}
