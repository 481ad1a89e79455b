/**
 * The JVM's fixed-width integer arithmetic and the library hash functions that
 * the analyzer relies on.  Kotlin's `Int` is a 32-bit two's-complement value;
 * every operation on it wraps around modulo 2^32.
 */
module JavaLang {

  const TWO_32: int := 0x1_0000_0000
  const INT_MAX: int := 0x7fff_ffff
  const INT_MIN: int := -0x8000_0000

  /** Kotlin `Int`. */
  type int32 = x: int | INT_MIN <= x <= INT_MAX

  /** Kotlin `Short`. */
  type int16 = x: int | -0x8000 <= x < 0x8000

  /** The value of `x` as a 32-bit two's-complement `Int`: x less the multiple
      of 2^32 that brings it into range. */
  function Wrap32(x: int): (r: int32)
    ensures INT_MIN <= x <= INT_MAX ==> r == x
    decreases if x > INT_MAX then x - INT_MAX else if x < INT_MIN then INT_MIN - x else 0
  {
    if x > INT_MAX then Wrap32(x - TWO_32)
    else if x < INT_MIN then Wrap32(x + TWO_32)
    else x
  }

  /** Wrapping changes a value by a multiple of 2^32. */
  lemma {:induction false} Wrap32Congruent(x: int)
    ensures (Wrap32(x) - x) % TWO_32 == 0
    decreases if x > INT_MAX then x - INT_MAX else if x < INT_MIN then INT_MIN - x else 0
  {
    if x > INT_MAX {
      Wrap32Congruent(x - TWO_32);
    } else if x < INT_MIN {
      Wrap32Congruent(x + TWO_32);
    }
  }

  /** Values that agree modulo 2^32 wrap to the same `Int`. */
  lemma Wrap32OfCongruent(x: int, y: int)
    requires (x - y) % TWO_32 == 0
    ensures Wrap32(x) == Wrap32(y)
  {
    var i := Wrap32Offset(x);
    var k := Wrap32Offset(y);
    var j := ExactQuotient(x - y);
    InRangeMultiple(Wrap32(x), Wrap32(y), i - k + j);
  }

  /** Adding a multiple of 2^32 does not change the wrapped value. */
  lemma Wrap32Shift(x: int, y: int, q: int)
    requires x == y + q * 0x1_0000_0000
    ensures Wrap32(x) == Wrap32(y)
  {
    var i := Wrap32Offset(x);
    var k := Wrap32Offset(y);
    InRangeMultiple(Wrap32(x), Wrap32(y), i + q - k);
  }

  /** The multiple of 2^32 that wrapping adds. */
  lemma {:induction false} Wrap32Offset(x: int) returns (q: int)
    ensures Wrap32(x) == x + q * 0x1_0000_0000
    decreases if x > INT_MAX then x - INT_MAX else if x < INT_MIN then INT_MIN - x else 0
  {
    if x > INT_MAX {
      q := Wrap32Offset(x - TWO_32);
      q := q - 1;
    } else if x < INT_MIN {
      q := Wrap32Offset(x + TWO_32);
      q := q + 1;
    } else {
      q := 0;
    }
  }

  /** Two `Int` values a multiple of 2^32 apart are equal. */
  lemma InRangeMultiple(a: int32, b: int32, q: int)
    requires a - b == q * 0x1_0000_0000
    ensures a == b
  {
  }

  /** A multiple of 2^32 is its quotient times 2^32. */
  lemma ExactQuotient(d: int) returns (q: int)
    requires d % TWO_32 == 0
    ensures d == q * 0x1_0000_0000
  {
    q := d / TWO_32;
  }

  /** The wrapped value is the residue modulo 2^32, shifted down when it is at
      least 2^31 (the sign bit is set). */
  lemma Wrap32IsResidue(x: int)
    ensures var u := x % TWO_32; Wrap32(x) == if u <= INT_MAX then u else u - TWO_32
  {
    var u := x % TWO_32;
    var w := if u <= INT_MAX then u else u - TWO_32;
    assert Wrap32(w) == w;
    Wrap32OfCongruent(x, w);
  }

  /** A multiple of a multiple of 2^32 is one too. */
  lemma MultipleOfModulus(a: int, k: int)
    requires a % TWO_32 == 0
    ensures (k * a) % TWO_32 == 0
  {
    var q := a / TWO_32;
    assert a == TWO_32 * q;
    assert k * a == TWO_32 * (k * q);
  }

  /** A 32-bit pattern read as a signed `Int`. */
  function ToSigned32(u: nat): (r: int32)
    requires u < TWO_32
    ensures r == Wrap32(u)
  {
    Wrap32IsResidue(u);
    if u <= INT_MAX then u else u - TWO_32
  }

  /** A 16-bit pattern read as a signed `Short` (the `toShort()` of a value whose
      higher bits are zero). */
  function ToSigned16(u: nat): (r: int16)
    requires u < 0x1_0000
    ensures r == u || r == u - 0x1_0000
  {
    if u < 0x8000 then u else u - 0x1_0000
  }

  /** `s.toInt() and 0xffff`: the unsigned value of the bits of a `Short`. */
  function ZeroExtend16(s: int16): (r: int)
    ensures 0 <= r < 0x1_0000
    ensures r == s || r == s + 0x1_0000
  {
    if s < 0 then s + 0x1_0000 else s
  }

  /** Zero-extension undoes the signed reading of a 16-bit pattern. */
  lemma ZeroExtendSigned16(u: nat)
    requires u < 0x1_0000
    ensures ZeroExtend16(ToSigned16(u)) == u
  {
  }

  /** `java.lang.String.hashCode`: h = 31 * h + c over the characters, wrapping. */
  function StringHash(s: string): int32 {
    StringHashFrom(0, s)
  }

  function StringHashFrom(h: int32, s: string): int32
    decreases |s|
  {
    if s == [] then h else StringHashFrom(Wrap32(31 * h + s[0] as int), s[1..])
  }

  /** `java.util.Arrays.hashCode(Object[])` over an array of strings. */
  function ArrayHash(a: seq<string>): int32 {
    ArrayHashFrom(1, a)
  }

  function ArrayHashFrom(h: int32, a: seq<string>): int32
    decreases |a|
  {
    if a == [] then h else ArrayHashFrom(Wrap32(31 * h + StringHash(a[0])), a[1..])
  }

  function Pow31(n: nat): nat {
    if n == 0 then 1 else 31 * Pow31(n - 1)
  }

  /** The hash polynomial without wrap-around: sum of s[i] * 31^(n-1-i). */
  function Poly31(s: string): int {
    if s == [] then 0 else (s[0] as int) * Pow31(|s| - 1) + Poly31(s[1..])
  }

  /** One step of the polynomial: if w agrees with 31 * h + c modulo 2^32, then
      w * p + t agrees with h * (31 * p) + (c * p + t). */
  lemma PolyStep(h: int, c: int, p: int, w: int, t: int)
    requires (w - (31 * h + c)) % TWO_32 == 0
    ensures ((w * p + t) - (h * (31 * p) + (c * p + t))) % TWO_32 == 0
  {
    var e := w - (31 * h + c);
    MultipleOfModulus(e, p);
    assert w * p == (31 * h + c + e) * p;
    assert (31 * h + c + e) * p == h * (31 * p) + c * p + p * e;
  }

  /** Wrapping the running hash before the next step changes nothing modulo 2^32. */
  lemma WrapStep(h: int, c: int, p: int, t: int)
    ensures Wrap32(Wrap32(31 * h + c) * p + t) == Wrap32(h * (31 * p) + (c * p + t))
  {
    var w: int := Wrap32(31 * h + c);
    Wrap32Congruent(31 * h + c);
    PolyStep(h, c, p, w, t);
    Wrap32OfCongruent(w * p + t, h * (31 * p) + (c * p + t));
  }

  lemma {:induction false} StringHashFromPoly(h: int32, s: string)
    ensures StringHashFrom(h, s) == Wrap32(h * Pow31(|s|) + Poly31(s))
    decreases |s|
  {
    if s != [] {
      var c := s[0] as int;
      var p := Pow31(|s| - 1);
      var t := Poly31(s[1..]);
      var w := Wrap32(31 * h + c);
      StringHashFromPoly(w, s[1..]);
      WrapStep(h, c, p, t);
      assert Pow31(|s|) == 31 * p;
      assert Poly31(s) == c * p + t;
    }
  }

  /** `String.hashCode` is the 32-bit residue of its polynomial in 31. */
  lemma StringHashIsPolynomial(s: string)
    ensures StringHash(s) == Wrap32(Poly31(s))
  {
    StringHashFromPoly(0, s);
  }
}
