/**
 * The hand-written IEEE 754 conversions of protocol/field.mbt, with `Double` modelled by `real`:
 * on the ranges used below every operation of the code is exact in binary64. The layout is that of
 * IEEE 754-2019, section 3.4.
 */
module Floats {
  import opened Bytes

  datatype Double = Finite(r: real) | PosInf | NegInf

  // ----- Powers of two and binary logarithm -----

  function Pow2(e: int): (p: real)
    ensures 0.0 < p
    decreases if e < 0 then -e else e
  {
    if e == 0 then 1.0 else if e > 0 then 2.0 * Pow2(e - 1) else Pow2(e + 1) / 2.0
  }

  lemma {:induction false} Pow2Step(e: int)
    ensures Pow2(e + 1) == 2.0 * Pow2(e)
  {
  }

  lemma {:induction false} Pow2Grows(a: int, b: int)
    requires a <= b
    ensures Pow2(a) <= Pow2(b)
    decreases b - a
  {
    if a < b {
      Pow2Grows(a, b - 1);
      Pow2Step(b - 1);
    }
  }

  lemma {:induction false} Pow2Negative(n: nat)
    ensures Pow2(0 - n) * Pow2(n) == 1.0
  {
    if n > 0 {
      Pow2Negative(n - 1);
      var p, q := Pow2(0 - n), Pow2(n - 1);
      assert Pow2(0 - (n - 1)) == 2.0 * p by {
        Pow2Step(0 - n);
      }
      assert p * (2.0 * q) == (2.0 * p) * q;
    }
  }

  /** The loop form: multiply up, then take the reciprocal for a negative exponent. */
  method Pow2Loop(e: int) returns (p: real)
    ensures p == Pow2(e)
  {
    var r := 1.0;
    var n := if e < 0 then -e else e;
    for i := 0 to n
      invariant r == Pow2(i)
    {
      r := r * 2.0;
    }
    if e < 0 {
      Pow2Negative(n);
      assert Pow2(e) * r == 1.0;
      p := 1.0 / r;
    } else {
      p := r;
    }
  }

  /** `n` is the floor of the binary logarithm of `x`. */
  predicate IsLog2(x: real, n: int) {
    Pow2(n) <= x < Pow2(n + 1)
  }

  lemma {:induction false} Log2Unique(x: real, m: int, n: int)
    requires IsLog2(x, m) && IsLog2(x, n)
    ensures m == n
  {
    if m < n {
      Pow2Grows(m + 1, n);
    } else if n < m {
      Pow2Grows(n + 1, m);
    }
  }

  /** A significand with its exponent. */
  function At(v: real, n: int): real {
    v * Pow2(n)
  }

  /** Halving and doubling bring a positive real into [1, 2): the loops end with its logarithm. */
  method Ilog2Loop(x: real) returns (n: int)
    requires 0.0 < x
    ensures IsLog2(x, n)
    ensures forall m :: IsLog2(x, m) ==> m == n
  {
    n := 0;
    var v := x;
    assert At(v, n) == x;
    hide At, IsLog2;
    while v >= 2.0
      invariant 0.0 < v && At(v, n) == x
      decreases v.Floor
    {
      Shift(v / 2.0, n);
      v := v / 2.0;
      n := n + 1;
    }
    while v < 1.0
      invariant 0.0 < v < 2.0 && At(v, n) == x
      decreases (1.0 / v).Floor
    {
      Halving(v);
      Shift(v, n - 1);
      v := v * 2.0;
      n := n - 1;
    }
    ScaledLog(v, n);
    forall m | IsLog2(x, m) ensures m == n {
      Log2Unique(x, m, n);
    }
  }

  /** Doubling the significand and lowering the exponent leave the value alone. */
  lemma {:induction false} Shift(v: real, n: int)
    ensures At(v, n + 1) == At(v * 2.0, n)
  {
    Pow2Step(n);
  }

  lemma {:induction false} Times(a: real, b: real, p: real)
    requires a < b && 0.0 < p
    ensures a * p < b * p
  {
    assert (b - a) * p > 0.0;
  }

  lemma {:induction false} Halving(v: real)
    requires 0.0 < v < 1.0
    ensures (1.0 / (v * 2.0)).Floor < (1.0 / v).Floor && 0 <= (1.0 / v).Floor
  {
    var w := 1.0 / v;
    assert w * v == 1.0;
    assert w > 1.0;
    assert 1.0 / (v * 2.0) == w / 2.0;
  }

  /** A significand in [1, 2) scaled by `Pow2(n)` has logarithm `n`. */
  lemma {:induction false} ScaledLog(v: real, n: int)
    requires 1.0 <= v < 2.0
    ensures IsLog2(At(v, n), n)
  {
    Pow2Step(n);
    hide Pow2;
    Times(v, 2.0, Pow2(n));
    if 1.0 < v {
      Times(1.0, v, Pow2(n));
    }
  }

  function Ilog2(x: real): (n: int)
    requires 0.0 < x
    ensures IsLog2(x, n)
    decreases x < 1.0, if x < 1.0 then (1.0 / x).Floor else x.Floor
  {
    if x >= 2.0 then
      assert (x / 2.0).Floor < x.Floor;
      var n := Ilog2(x / 2.0);
      Pow2Step(n); Pow2Step(n + 1);
      n + 1
    else if x < 1.0 then
      Halving(x);
      var n := Ilog2(x * 2.0);
      Pow2Step(n); Pow2Step(n - 1);
      n - 1
    else
      assert Pow2(1) == 2.0;
      0
  }

  // ----- Significand and exponent, for any significand width -----

  /** The value the decoders give to exponent `k` and fraction `m / scale`. */
  function Scaled(k: int, m: int, scale: real): real
    requires 0.0 < scale
  {
    At(1.0 + m as real / scale, k)
  }

  /** Round half up, on the non-negative arguments the encoders pass. */
  function Round(x: real): int {
    (x + 0.5).Floor
  }

  /** `av / pow2(ilog2_floor(av))`. */
  function Significand(av: real): real
    requires 0.0 < av
  {
    av / Pow2(Ilog2(av))
  }

  /** `(mn - 1.0) * scale`, the fraction before rounding. */
  function Unrounded(av: real, scale: real): real
    requires 0.0 < av
  {
    (Significand(av) - 1.0) * scale
  }

  /** The fraction the encoders compute for `av`, before masking. */
  function Fraction(av: real, scale: real): int
    requires 0.0 < av
  {
    Round(Unrounded(av, scale))
  }

  lemma {:induction false} Cancel(a: real, p: real)
    requires p > 0.0
    ensures a * p / p == a
  {
  }

  lemma {:induction false} Product(a: real, b: real)
    requires 0.0 <= a && 0.0 <= b
    ensures 0.0 <= a * b
  {
  }

  lemma {:induction false} Between(m: real, scale: real)
    requires 0.0 < scale && 0.0 <= m < scale
    ensures 0.0 <= m / scale < 1.0
  {
    var q := m / scale;
    assert q * scale == m;
    if q >= 1.0 {
      Product(q - 1.0, scale);
    } else if q < 0.0 {
      Times(q, 0.0, scale);
    }
  }

  /** Encoding undoes decoding: the logarithm is the exponent and the fraction is the fraction. */
  lemma {:induction false} ScaledParts(k: int, m: nat, scale: real)
    requires 0.0 < scale && m as real < scale
    ensures 0.0 < Scaled(k, m, scale) && Ilog2(Scaled(k, m, scale)) == k
    ensures Fraction(Scaled(k, m, scale), scale) == m
    ensures Pow2(k) <= Scaled(k, m, scale) < Pow2(k + 1)
  {
    hide Pow2, Ilog2;
    Between(m as real, scale);
    var f := 1.0 + m as real / scale;
    var x := Scaled(k, m, scale);
    ScaledLog(f, k);
    assert x == f * Pow2(k);
    Log2Unique(x, Ilog2(x), k);
    Cancel(f, Pow2(k));
    assert Significand(x) == f;
    assert (f - 1.0) * scale == m as real;
    assert Round(m as real) == m;
  }

  /** Decoded values are ordered as (exponent, fraction) pairs. */
  lemma {:induction false} ScaledOrder(k1: int, m1: nat, k2: int, m2: nat, scale: real)
    requires 0.0 < scale && m1 as real < scale && m2 as real < scale
    requires k1 < k2 || (k1 == k2 && m1 < m2)
    ensures Scaled(k1, m1, scale) < Scaled(k2, m2, scale)
  {
    hide Ilog2, Fraction, Pow2;
    if k1 < k2 {
      ScaledParts(k1, m1, scale);
      ScaledParts(k2, m2, scale);
      Pow2Grows(k1 + 1, k2);
    } else {
      Fractions(m1 as real, m2 as real, scale);
      Times(1.0 + m1 as real / scale, 1.0 + m2 as real / scale, Pow2(k1));
    }
  }

  lemma {:induction false} Fractions(a: real, b: real, scale: real)
    requires 0.0 < scale && a < b
    ensures a / scale < b / scale
  {
    var p, q := a / scale, b / scale;
    assert p * scale == a && q * scale == b;
    if q < p {
      Times(q, p, scale);
    }
  }

  // ----- Single precision -----

  const F32_SCALE := 8388608.0

  function F32FromBytes(b: seq<Byte>): Double
    requires |b| >= 4
  {
    var bits := WordOf(b);
    var e: int, m: nat := bits / 0x80_0000 % 256, bits % 0x80_0000;
    if e == 0 && m == 0 then Finite(0.0)
    else if e == 255 then if bits < 0x8000_0000 then PosInf else NegInf
    else
      var v := Scaled(e - 127, m, F32_SCALE);
      Finite(if bits < 0x8000_0000 then v else -v)
  }

  /** `(sb << 31) | (eb << 23) | (mi & 0x7FFFFF)` in 32 bits, for any exponent. */
  function F32Pack(negative: bool, eb: int, mi: int): (w: nat)
    ensures w < 0x1_0000_0000
  {
    (if negative || eb / 256 % 2 == 1 then 0x8000_0000 else 0) + eb % 256 * 0x80_0000 + mi % 0x80_0000
  }

  function F32ToBytes(val: real): (b: seq<Byte>)
    ensures |b| == 4
  {
    if val == 0.0 then [0, 0, 0, 0]
    else
      var av := if val < 0.0 then -val else val;
      WordBytes(F32Pack(val < 0.0, Ilog2(av) + 127, Fraction(av, F32_SCALE)))
  }

  lemma {:induction false} F32Repack(bits: nat)
    requires bits < 0x1_0000_0000
    ensures F32Pack(bits >= 0x8000_0000, bits / 0x80_0000 % 256, bits % 0x80_0000) == bits
  {
    var q := bits / 0x80_0000;
    assert q < 512 && (q >= 256 <==> bits >= 0x8000_0000);
  }

  /**
   * Every finite bit pattern except negative zero survives decoding and encoding, subnormal patterns
   * included; negative zero does not.
   */
  lemma {:induction false} F32RoundTripExact(b: seq<Byte>)
    requires |b| == 4 && F32FromBytes(b).Finite?
    ensures F32ToBytes(F32FromBytes(b).r) == b <==> b != [0x80, 0, 0, 0]
  {
    hide Pow2, Ilog2, Fraction, Scaled, WordBytes;
    var bits := WordOf(b);
    var e: int, m: nat := bits / 0x80_0000 % 256, bits % 0x80_0000;
    BytesOfWord(b);
    if e == 0 && m == 0 {
      assert bits == 0 || bits == 0x8000_0000;
    } else {
      hide F32Pack, WordOf;
      ScaledParts(e - 127, m, F32_SCALE);
      F32Repack(bits);
      assert F32ToBytes(F32FromBytes(b).r) == WordBytes(bits);
    }
  }

  /** The value IEEE 754 gives to a finite pattern. */
  function IeeeF32(b: seq<Byte>): real
    requires |b| >= 4
  {
    var bits := WordOf(b);
    var e: int, m: nat := bits / 0x80_0000 % 256, bits % 0x80_0000;
    var v :=
      if e == 0 then (m as real / 8388608.0) * Pow2(-126) else (1.0 + m as real / 8388608.0) * Pow2(e - 127);
    if bits < 0x8000_0000 then v else -v
  }

  /** The decoder agrees with IEEE 754 on a finite pattern exactly when the pattern is not subnormal. */
  lemma {:induction false} F32AgreesWithIeeeIff(b: seq<Byte>)
    requires |b| >= 4 && F32FromBytes(b).Finite?
    ensures var bits := WordOf(b);
      F32FromBytes(b).r == IeeeF32(b) <==> !(bits / 0x80_0000 % 256 == 0 && bits % 0x80_0000 != 0)
  {
    var bits := WordOf(b);
    var e: int, m: nat := bits / 0x80_0000 % 256, bits % 0x80_0000;
    if e == 0 && m != 0 {
      SubnormalDiffers(m);
    } else if e == 0 {
      assert (m as real / F32_SCALE) * Pow2(-126) == 0.0;
    }
  }

  lemma {:induction false} SubnormalDiffers(m: nat)
    requires m as real < F32_SCALE
    ensures (m as real / F32_SCALE) * Pow2(-126) < Scaled(-127, m, F32_SCALE)
  {
    hide Pow2;
    Between(m as real, F32_SCALE);
    var f, p := m as real / F32_SCALE, Pow2(-127);
    Pow2Step(-127);
    assert f * (2.0 * p) == (2.0 * f) * p;
    Times(2.0 * f, 1.0 + f, p);
  }

  /** Decoding is strictly increasing on the non-negative finite patterns, hence injective. */
  lemma {:induction false} F32Increasing(a: seq<Byte>, b: seq<Byte>)
    requires |a| == 4 && |b| == 4 && WordOf(a) < WordOf(b) < 0x7F80_0000
    ensures F32FromBytes(a).Finite? && F32FromBytes(b).Finite?
    ensures 0.0 <= F32FromBytes(a).r < F32FromBytes(b).r
  {
    hide Pow2, Ilog2, Fraction, Scaled, WordOf;
    var wa, wb := WordOf(a), WordOf(b);
    var ea: int, ma: nat := wa / 0x80_0000, wa % 0x80_0000;
    var eb: int, mb: nat := wb / 0x80_0000, wb % 0x80_0000;
    ScaledParts(ea - 127, ma, F32_SCALE);
    ScaledParts(eb - 127, mb, F32_SCALE);
    ScaledOrder(ea - 127, ma, eb - 127, mb, F32_SCALE);
  }

  // ----- Rounding -----

  function Abs(v: real): real {
    if v < 0.0 then -v else v
  }

  /** The significand of `av` rounds up to 2; the encoder masks that carry away. */
  predicate Carries(av: real, scale: real)
    requires 0.0 < av && 0.0 < scale
  {
    Significand(av) >= 2.0 - 0.5 / scale
  }

  lemma {:induction false} Pow2Shift(k: int, n: nat)
    ensures Pow2(k) == Pow2(k - n) * Pow2(n)
  {
    hide Pow2;
    if n > 0 {
      Pow2Shift(k, n - 1);
      Pow2Step(k - n);
      Pow2Step(n - 1);
      MoveTwo(Pow2(k - n), Pow2(n - 1));
    } else {
      Pow2Zero();
    }
  }

  lemma {:induction false} MoveTwo(p: real, q: real)
    ensures (2.0 * p) * q == p * (2.0 * q)
  {
  }

  lemma {:induction false} Pow2Zero()
    ensures Pow2(0) == 1.0
  {
  }

  lemma {:induction false} Pow2Of24()
    ensures Pow2(24) == 2.0 * F32_SCALE
  {
    assert Pow2(4) == 16.0;
    assert Pow2(8) == 256.0;
    Pow2Shift(16, 8);
    Pow2Shift(24, 8);
  }

  lemma {:induction false} SignificandBounds(av: real)
    requires 0.0 < av
    ensures 1.0 <= Significand(av) < 2.0 && Significand(av) * Pow2(Ilog2(av)) == av
  {
    hide Pow2, Ilog2, Significand;
    var k := Ilog2(av);
    Pow2Step(k);
    Quotient(av, Pow2(k));
    SignificandIs(av);
  }

  lemma {:induction false} SignificandIs(av: real)
    requires 0.0 < av
    ensures Significand(av) == av / Pow2(Ilog2(av))
  {
    hide Pow2, Ilog2;
  }

  lemma {:induction false} UnroundedBounds(av: real, scale: real)
    requires 0.0 < av && 1.0 <= scale
    ensures 0.0 <= Unrounded(av, scale) < scale
    ensures Carries(av, scale) <==> Unrounded(av, scale) + 0.5 >= scale
  {
    SignificandBounds(av);
    hide Significand, Pow2, Ilog2;
    HalfUnit(scale);
    UnitFraction(Significand(av), scale, 0.5 / scale);
  }

  /** The fraction is within half a unit, and reaches the full scale exactly on a carry. */
  lemma {:induction false} FractionBounds(av: real, scale: real)
    requires 0.0 < av && 1.0 <= scale
    ensures Fraction(av, scale) as real <= Unrounded(av, scale) + 0.5 < Fraction(av, scale) as real + 1.0
    ensures 0 <= Fraction(av, scale) && Fraction(av, scale) as real <= scale + 0.5
    ensures Carries(av, scale) <==> Unrounded(av, scale) + 0.5 >= scale
  {
    UnroundedBounds(av, scale);
    hide Carries, Unrounded;
  }

  lemma {:induction false} UnitFraction(mn: real, scale: real, h: real)
    requires 1.0 <= mn < 2.0 && 1.0 <= scale && h * scale == 0.5
    ensures 0.0 <= (mn - 1.0) * scale < scale
    ensures mn >= 2.0 - h <==> (mn - 1.0) * scale + 0.5 >= scale
  {
    var f := mn - 1.0;
    Product(f, scale);
    Times(f, 1.0, scale);
    Subtract(1.0, h, scale);
    if f >= 1.0 - h {
      Product(f - (1.0 - h), scale);
      Subtract(f, 1.0 - h, scale);
    } else {
      Times(f, 1.0 - h, scale);
    }
  }

  lemma {:induction false} Subtract(a: real, b: real, c: real)
    ensures (a - b) * c == a * c - b * c
  {
  }

  lemma {:induction false} HalfUnit(scale: real)
    requires 1.0 <= scale
    ensures 0.5 / scale * scale == 0.5
  {
  }

  lemma {:induction false} Quotient(a: real, p: real)
    requires 0.0 < p && p <= a < 2.0 * p
    ensures 1.0 <= a / p < 2.0 && a / p * p == a
  {
    var q := a / p;
    assert q * p == a;
    if q < 1.0 {
      Times(q, 1.0, p);
    } else if q >= 2.0 {
      Product(q - 2.0, p);
    }
  }

  /** Decoding packed fields whose exponent is in the normal range. */
  lemma {:induction false} F32Fields(negative: bool, k: int, mi: nat)
    requires -126 <= k <= 127
    ensures var v := Scaled(k, mi % 0x80_0000, F32_SCALE);
      F32FromBytes(WordBytes(F32Pack(negative, k + 127, mi))) == Finite(if negative then -v else v)
  {
    hide Pow2, Scaled;
    var w := F32Pack(negative, k + 127, mi);
    WordOfBytes(w);
    F32Unpack(negative, k + 127, mi);
  }

  lemma {:induction false} F32Unpack(negative: bool, e: int, mi: int)
    requires 0 <= e < 256
    ensures var w := F32Pack(negative, e, mi);
      w / 0x80_0000 % 256 == e && w % 0x80_0000 == mi % 0x80_0000 && (w < 0x8000_0000 <==> !negative)
  {
    var top := if negative then 256 else 0;
    assert F32Pack(negative, e, mi) == (top + e) * 0x80_0000 + mi % 0x80_0000;
  }

  /**
   * In the normal range, encoding and decoding keep the sign, and the error is at most
   * 2^(floor(log2 |v|) - 24), half a unit in the last place, if and only if rounding does not carry.
   */
  lemma {:induction false} F32RoundingExact(v: real)
    requires Pow2(-126) <= Abs(v) < Pow2(128)
    ensures var w := F32FromBytes(F32ToBytes(v));
      && w.Finite? && w.r != 0.0 && (w.r < 0.0 <==> v < 0.0)
      && (Abs(w.r - v) <= Pow2(Ilog2(Abs(v)) - 24) <==> !Carries(Abs(v), F32_SCALE))
  {
    hide Pow2, Ilog2;
    var av := Abs(v);
    var k := Ilog2(av);
    if k < -126 {
      Pow2Grows(k + 1, -126);
    }
    if k > 127 {
      Pow2Grows(128, k);
    }
    FractionBounds(av, F32_SCALE);
    var mi := Fraction(av, F32_SCALE);
    F32Fields(v < 0.0, k, mi);
    ScaledParts(k, mi % 0x80_0000, F32_SCALE);
    RoundingError(av, k, mi);
  }

  /** 2 - 2^-25 rounds up to 2: the carry is masked away, and the value decodes to 1. */
  lemma {:induction false} CarryAtTwo()
    ensures var v := 2.0 - 1.0 / 33554432.0;
      Carries(v, F32_SCALE) && F32FromBytes(F32ToBytes(v)) == Finite(1.0)
  {
    hide F32Pack, F32FromBytes, WordBytes, Ilog2;
    var v := 2.0 - 1.0 / 33554432.0;
    assert Pow2(0) == 1.0 && Pow2(1) == 2.0;
    Log2Unique(v, Ilog2(v), 0);
    assert Fraction(v, F32_SCALE) == 0x80_0000;
    F32Fields(false, 0, 0x80_0000);
    assert Scaled(0, 0, F32_SCALE) == 1.0;
  }

  /**
   * Values past the single-precision range are not diagnosed: from 2^128 up to 2^129 they encode as an
   * infinity of their sign or as a NaN, which decode alike, and 2^129 overflows into the sign bit.
   */
  lemma {:induction false} F32Overflow(v: real)
    ensures Pow2(128) <= Abs(v) < Pow2(129) ==> F32FromBytes(F32ToBytes(v)) == if v < 0.0 then NegInf else PosInf
    ensures v == Pow2(129) ==> F32ToBytes(v) == [0x80, 0, 0, 0] && F32FromBytes(F32ToBytes(v)) == Finite(0.0)
  {
    hide Pow2, Ilog2, WordBytes;
    if Pow2(128) <= Abs(v) < Pow2(129) {
      Log2Unique(Abs(v), Ilog2(Abs(v)), 128);
      var w := F32Pack(v < 0.0, 255, Fraction(Abs(v), F32_SCALE));
      F32Unpack(v < 0.0, 255, Fraction(Abs(v), F32_SCALE));
      WordOfBytes(w);
    }
    if v == Pow2(129) {
      Pow2Step(129);
      Log2Unique(v, Ilog2(v), 129);
      SignificandIs(v);
      Cancel(1.0, Pow2(129));
      assert Significand(v) == 1.0 && Fraction(v, F32_SCALE) == 0;
      assert F32Pack(false, 256, 0) == 0x8000_0000;
      assert F32ToBytes(v) == WordBytes(0x8000_0000);
      SignBitAlone();
    }
  }

  lemma {:induction false} SignBitAlone()
    ensures WordBytes(0x8000_0000) == [0x80, 0, 0, 0] && F32FromBytes([0x80, 0, 0, 0]) == Finite(0.0)
  {
  }

  lemma {:induction false} RoundingError(av: real, k: int, mi: nat)
    requires 0.0 < av && k == Ilog2(av) && mi == Fraction(av, F32_SCALE)
    ensures Abs(Scaled(k, mi % 0x80_0000, F32_SCALE) - av) <= Pow2(k - 24) <==> !Carries(av, F32_SCALE)
  {
    hide Ilog2, Fraction, Pow2, Carries, Scaled, Significand;
    SignificandBounds(av);
    FractionBounds(av, F32_SCALE);
    var u := Pow2(k - 24);
    Pow2Shift(k, 24);
    Pow2Of24();
    var mn := Significand(av);
    assert mn * Pow2(k) == av;
    if mi < 0x80_0000 {
      assert mi % 0x80_0000 == mi && !Carries(av, F32_SCALE);
      NoCarryError(mn, k, mi, u);
    } else {
      assert mi == 0x80_0000 && Carries(av, F32_SCALE);
      CarryError(mn, k, u);
    }
  }

  lemma {:induction false} NoCarryError(mn: real, k: int, mi: nat, u: real)
    requires 0.0 < u && Pow2(k) == u * (2.0 * F32_SCALE)
    requires -0.5 <= mi as real - (mn - 1.0) * F32_SCALE <= 0.5
    ensures Abs(Scaled(k, mi, F32_SCALE) - mn * Pow2(k)) <= u
  {
    hide Pow2;
    var f := 1.0 + mi as real / F32_SCALE;
    var d := f - mn;
    Subtract(f, mn, Pow2(k));
    assert Scaled(k, mi, F32_SCALE) - mn * Pow2(k) == d * Pow2(k);
    Regroup(d, u, Pow2(k));
    AtMost(2.0 * (d * F32_SCALE), u);
  }

  lemma {:induction false} CarryError(mn: real, k: int, u: real)
    requires 0.0 < u && Pow2(k) == u * (2.0 * F32_SCALE)
    requires F32_SCALE <= (mn - 1.0) * F32_SCALE + 0.5
    ensures Abs(Scaled(k, 0, F32_SCALE) - mn * Pow2(k)) > u
  {
    hide Pow2;
    var d := mn - 1.0;
    Subtract(mn, 1.0, Pow2(k));
    assert Scaled(k, 0, F32_SCALE) == Pow2(k);
    Regroup(d, u, Pow2(k));
    var t := 2.0 * (d * F32_SCALE);
    Times(1.0, t, u);
    assert Scaled(k, 0, F32_SCALE) - mn * Pow2(k) == 0.0 - t * u;
  }

  lemma {:induction false} Regroup(d: real, u: real, p: real)
    requires p == u * (2.0 * F32_SCALE)
    ensures d * p == (2.0 * (d * F32_SCALE)) * u
  {
  }

  lemma {:induction false} AtMost(t: real, u: real)
    requires -1.0 <= t <= 1.0 && 0.0 < u
    ensures Abs(t * u) <= u
  {
    Product(1.0 - t, u);
    Product(1.0 + t, u);
  }

  // ----- Double precision -----

  const F64_SCALE := 4503599627370496.0

  /** The low word as the signed 32-bit value the decoder builds. */
  function Signed(w: int): int {
    if w >= 0x8000_0000 then w - 0x1_0000_0000 else w
  }

  function F64FromBytes(b: seq<Byte>): Double
    requires |b| >= 8
  {
    var hi, lo := WordOf(b), WordOf(b[4..]);
    var e: int, mh: int, ml: int := hi / 0x10_0000 % 2048, hi % 0x10_0000, Signed(lo);
    if e == 0 && mh == 0 && ml == 0 then Finite(0.0)
    else if e == 2047 then if hi < 0x8000_0000 then PosInf else NegInf
    else
      var v := Scaled(e - 1023, mh * 0x1_0000_0000 + ml, F64_SCALE);
      Finite(if hi < 0x8000_0000 then v else -v)
  }

  /** `(sb << 31) | (eb << 20) | hm` in 32 bits, for any exponent. */
  function F64PackHigh(negative: bool, eb: int, hm: int): (w: nat)
    ensures w < 0x1_0000_0000
  {
    (if negative || eb / 2048 % 2 == 1 then 0x8000_0000 else 0) + eb % 2048 * 0x10_0000 + hm % 0x10_0000
  }

  function F64ToBytes(val: real): (b: seq<Byte>)
    ensures |b| == 8
  {
    if val == 0.0 then [0, 0, 0, 0, 0, 0, 0, 0]
    else
      var av := if val < 0.0 then -val else val;
      var mi := Fraction(av, F64_SCALE);
      WordBytes(F64PackHigh(val < 0.0, Ilog2(av) + 1023, mi / 0x1_0000_0000)) + WordBytes(mi % 0x1_0000_0000)
  }

  lemma {:induction false} F64Repack(hi: nat)
    requires hi < 0x1_0000_0000
    ensures F64PackHigh(hi >= 0x8000_0000, hi / 0x10_0000 % 2048, hi % 0x10_0000) == hi
  {
    var q := hi / 0x10_0000;
    assert q < 4096 && (q >= 2048 <==> hi >= 0x8000_0000);
  }

  /** What the encoder makes of a positive or negative scaled value. */
  lemma {:induction false} F64Encoded(negative: bool, k: int, m: nat)
    requires m < 0x10_0000_0000_0000
    ensures var v := Scaled(k, m, F64_SCALE);
      F64ToBytes(if negative then -v else v)
      == WordBytes(F64PackHigh(negative, k + 1023, m / 0x1_0000_0000)) + WordBytes(m % 0x1_0000_0000)
  {
    hide Pow2, Ilog2, Fraction, Scaled, WordBytes, F64PackHigh;
    ScaledParts(k, m, F64_SCALE);
  }

  /** A negative fraction is the fraction of the next lower exponent. */
  lemma {:induction false} BorrowFromExponent(k: int, m: int)
    requires -0x8000_0000 <= m < 0
    ensures Scaled(k, m, F64_SCALE) == Scaled(k - 1, 0x10_0000_0000_0000 + 2 * m, F64_SCALE)
  {
    hide Pow2;
    Pow2Step(k - 1);
    var f, p := 1.0 + m as real / F64_SCALE, Pow2(k - 1);
    assert (0x10_0000_0000_0000 + 2 * m) as real / F64_SCALE == 1.0 + 2.0 * (m as real / F64_SCALE);
    assert f * (2.0 * p) == (2.0 * f) * p;
  }

  lemma {:induction false} SameHalves(a: seq<Byte>, b: seq<Byte>, c: seq<Byte>, d: seq<Byte>)
    requires |a| == 4 && |c| == 4 && a + b == c + d
    ensures a == c && b == d
  {
    assert a == (a + b)[..4] && c == (c + d)[..4];
    assert b == (a + b)[4..] && d == (c + d)[4..];
  }

  lemma {:induction false} F64NormalRoundTrip(b: seq<Byte>)
    requires |b| == 8 && 1 <= WordOf(b) / 0x10_0000 % 2048 <= 2046
    ensures F64FromBytes(b).Finite?
    ensures F64ToBytes(F64FromBytes(b).r) == b <==> b[4] < 0x80
  {
    var hi, lo := WordOf(b), WordOf(b[4..]);
    var negative := hi >= 0x8000_0000;
    var e: int, mh: int := hi / 0x10_0000 % 2048, hi % 0x10_0000;
    var m := mh * 0x1_0000_0000 + Signed(lo);
    assert b == b[..4] + b[4..] && WordOf(b[..4]) == hi;
    BytesOfWord(b[..4]);
    BytesOfWord(b[4..]);
    assert lo < 0x8000_0000 <==> b[4] < 0x80;
    var k := e - 1023;
    assert F64FromBytes(b) == Finite(if negative then -Scaled(k, m, F64_SCALE) else Scaled(k, m, F64_SCALE));
    hide *;
    F64Repack(hi);
    if m >= 0 {
      F64NonNegative(negative, e, mh, lo);
    } else {
      F64Negative(negative, e, mh, lo);
    }
  }

  /** Neither a subnormal, an infinity nor a NaN. */
  predicate IsNormalOrZero(b: seq<Byte>)
    requires |b| == 8
  {
    var e := WordOf(b) / 0x10_0000 % 2048;
    1 <= e <= 2046 || (e == 0 && WordOf(b) % 0x10_0000 == 0 && WordOf(b[4..]) == 0)
  }

  /**
   * A normal double or a zero survives decoding and encoding exactly when its fifth byte is below 0x80
   * and it is not negative zero: the decoder reads the low word as a signed number.
   */
  lemma {:induction false} F64RoundTripExact(b: seq<Byte>)
    requires |b| == 8 && IsNormalOrZero(b)
    ensures F64FromBytes(b).Finite?
    ensures F64ToBytes(F64FromBytes(b).r) == b <==> b[4] < 0x80 && b != [0x80, 0, 0, 0, 0, 0, 0, 0]
    ensures b == [0, 0, 0, 0, 0, 0, 0, 0] ==> F64FromBytes(b) == Finite(0.0)
  {
    hide Pow2, Ilog2, Scaled, Fraction, WordBytes;
    if 1 <= WordOf(b) / 0x10_0000 % 2048 <= 2046 {
      F64NormalRoundTrip(b);
    } else {
      assert WordOf(b) == 0 || WordOf(b) == 0x8000_0000;
    }
  }

  /** The value IEEE 754 gives to a normal double. */
  function IeeeF64(b: seq<Byte>): real
    requires |b| == 8
  {
    var hi, lo := WordOf(b), WordOf(b[4..]);
    var v := Ieee64(hi / 0x10_0000 % 2048, hi % 0x10_0000, lo);
    if hi < 0x8000_0000 then v else -v
  }

  /** Exponent field `e`, 20 upper and 32 lower fraction bits. */
  function Ieee64(e: int, upper: int, lower: int): real {
    (1.0 + (upper as real * 4294967296.0 + lower as real) / 4503599627370496.0) * Pow2(e - 1023)
  }

  lemma {:induction false} ScaledIsIeee(e: int, upper: int, lower: int)
    requires Signed(lower) <= lower
    ensures Scaled(e - 1023, upper * 0x1_0000_0000 + Signed(lower), F64_SCALE) == Ieee64(e, upper, lower)
      <==> Signed(lower) == lower
  {
    hide Pow2, Signed;
    var p := Pow2(e - 1023);
    var m, n := upper * 0x1_0000_0000 + Signed(lower), upper * 0x1_0000_0000 + lower;
    assert n as real == upper as real * 4294967296.0 + lower as real;
    if m < n {
      Times(1.0 + m as real / F64_SCALE, 1.0 + n as real / F64_SCALE, p);
    }
  }

  lemma {:induction false} F64Fields(b: seq<Byte>)
    requires |b| == 8 && 1 <= WordOf(b) / 0x10_0000 % 2048 <= 2046
    ensures var hi, lo := WordOf(b), WordOf(b[4..]);
      var v := Scaled(hi / 0x10_0000 % 2048 - 1023, hi % 0x10_0000 * 0x1_0000_0000 + Signed(lo), F64_SCALE);
      F64FromBytes(b) == Finite(if hi < 0x8000_0000 then v else -v)
    ensures b[4] < 0x80 <==> Signed(WordOf(b[4..])) == WordOf(b[4..])
  {
    hide Scaled;
  }

  /** The decoder agrees with IEEE 754 on a normal double exactly when the low word is not read as negative. */
  lemma {:induction false} F64AgreesWithIeeeIff(b: seq<Byte>)
    requires |b| == 8 && 1 <= WordOf(b) / 0x10_0000 % 2048 <= 2046
    ensures F64FromBytes(b).Finite?
    ensures F64FromBytes(b).r == IeeeF64(b) <==> b[4] < 0x80
  {
    hide WordOf, F64FromBytes, Scaled, Ieee64;
    F64Fields(b);
    ScaledIsIeee(WordOf(b) / 0x10_0000 % 2048, WordOf(b) % 0x10_0000, WordOf(b[4..]));
  }

  /** Exponent field 255 or 2047 decodes to an infinity of the sign, whatever the fraction. */
  lemma {:induction false} InfinitiesBySign(b: seq<Byte>)
    requires |b| >= 8
    ensures b[0] % 128 == 127 && b[1] >= 0x80 ==> F32FromBytes(b) == if b[0] < 0x80 then PosInf else NegInf
    ensures b[0] % 128 == 127 && b[1] >= 0xF0 ==> F64FromBytes(b) == if b[0] < 0x80 then PosInf else NegInf
  {
    hide Scaled;
    var w := WordOf(b);
    assert w / 0x100_0000 == b[0] && w / 65536 == 256 * (b[0] as int) + b[1];
    assert w / 0x80_0000 == (w / 65536) / 128 && w / 0x10_0000 == (w / 65536) / 16;
  }

  /** The combined fraction is not negative: both words come back iff the low word was not negative. */
  lemma {:induction false} F64NonNegative(negative: bool, e: int, mh: int, lo: nat)
    requires 1 <= e <= 2046 && 0 <= mh < 0x10_0000 && lo < 0x1_0000_0000
    requires mh * 0x1_0000_0000 + Signed(lo) >= 0
    ensures var v := Scaled(e - 1023, mh * 0x1_0000_0000 + Signed(lo), F64_SCALE);
      F64ToBytes(if negative then -v else v) == WordBytes(F64PackHigh(negative, e, mh)) + WordBytes(lo)
      <==> lo < 0x8000_0000
  {
    hide Pow2, Ilog2, Fraction, Scaled, WordBytes, F64ToBytes, F64PackHigh;
    var m := mh * 0x1_0000_0000 + Signed(lo);
    F64HighCompare(negative, e, mh, lo);
    F64Encoded(negative, e - 1023, m);
    var a, b := F64PackHigh(negative, e, m / 0x1_0000_0000), F64PackHigh(negative, e, mh);
    if a != b {
      DifferentWords(a, WordBytes(m % 0x1_0000_0000), b, WordBytes(lo));
    }
  }

  /** The combined fraction is negative: the encoded exponent is one too small. */
  lemma {:induction false} F64Negative(negative: bool, e: int, mh: int, lo: nat)
    requires 1 <= e <= 2046 && 0 <= mh < 0x10_0000 && lo < 0x1_0000_0000
    requires mh * 0x1_0000_0000 + Signed(lo) < 0
    ensures lo >= 0x8000_0000
    ensures var v := Scaled(e - 1023, mh * 0x1_0000_0000 + Signed(lo), F64_SCALE);
      F64ToBytes(if negative then -v else v) != WordBytes(F64PackHigh(negative, e, mh)) + WordBytes(lo)
  {
    hide Pow2, Ilog2, Fraction, Scaled, WordBytes, F64ToBytes, F64PackHigh;
    var m := mh * 0x1_0000_0000 + Signed(lo);
    var m' := 0x10_0000_0000_0000 + 2 * m;
    BorrowFromExponent(e - 1023, m);
    F64Encoded(negative, e - 1 - 1023, m');
    F64LowerExponent(negative, e, mh, m' / 0x1_0000_0000);
    DifferentWords(F64PackHigh(negative, e - 1, m' / 0x1_0000_0000), WordBytes(m' % 0x1_0000_0000),
                   F64PackHigh(negative, e, mh), WordBytes(lo));
  }

  lemma {:induction false} DifferentWords(a: nat, rest: seq<Byte>, b: nat, rest': seq<Byte>)
    requires a < 0x1_0000_0000 && b < 0x1_0000_0000 && a != b
    ensures WordBytes(a) + rest != WordBytes(b) + rest'
  {
    if WordBytes(a) + rest == WordBytes(b) + rest' {
      SameHalves(WordBytes(a), rest, WordBytes(b), rest');
      WordOfBytes(a);
      WordOfBytes(b);
    }
  }

  /** Splitting the combined fraction gives back both words exactly when the low word is not negative. */
  lemma {:induction false} F64HighCompare(negative: bool, e: int, mh: int, lo: nat)
    requires 0 <= e < 2048 && 0 <= mh < 0x10_0000 && lo < 0x1_0000_0000
    requires mh * 0x1_0000_0000 + Signed(lo) >= 0
    ensures var m := mh * 0x1_0000_0000 + Signed(lo);
      && m < 0x10_0000_0000_0000 && m % 0x1_0000_0000 == lo
      && (F64PackHigh(negative, e, m / 0x1_0000_0000) == F64PackHigh(negative, e, mh) <==> lo < 0x8000_0000)
  {
    var m := mh * 0x1_0000_0000 + Signed(lo);
    if lo >= 0x8000_0000 {
      assert m == (mh - 1) * 0x1_0000_0000 + lo;
    }
  }

  lemma {:induction false} F64LowerExponent(negative: bool, e: int, mh: int, hm: int)
    requires 1 <= e < 2048 && 0 <= mh < 0x10_0000
    ensures F64PackHigh(negative, e - 1, hm) != F64PackHigh(negative, e, mh)
  {
  }
}
