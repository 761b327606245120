/** Floating point of the KS10 (pdp10_mdfp.c): unpack, normalize, pack, and the
    multiply, divide and float instructions built on them. */
module Float {
  import opened Words
  import opened MulDiv

  const U62 := 0x4000_0000_0000_0000
  const U63 := 0x8000_0000_0000_0000
  const F27 := 0x800_0000

  // ---------------------------------------------------------------- values

  /** The product of reals, named so that proofs can treat it as a symbol. */
  ghost function Times(x: real, y: real): real {
    x * y
  }

  lemma {:induction false} TimesAssoc(x: real, y: real, z: real)
    ensures Times(Times(x, y), z) == Times(x, Times(y, z)) && Times(x, y) == Times(y, x)
  {
    assert x * y * z == x * (y * z);
  }

  lemma {:induction false} TimesAdd(x: real, y: real, z: real)
    ensures Times(x + y, z) == Times(x, z) + Times(y, z) && Times(1.0, z) == z
  {
  }

  lemma {:induction false} TimesMono(x: real, y: real, z: real)
    requires x <= y && z >= 0.0
    ensures Times(x, z) <= Times(y, z)
  {
  }

  lemma {:induction false} TimesInt(x: int, y: int)
    ensures Times(x as real, y as real) == (x * y) as real
  {
  }

  /** 2^e for any integer exponent. */
  ghost function Exp2(e: int): (r: real)
    ensures r > 0.0
    decreases Magnitude(e)
  {
    if e == 0 then 1.0 else if e > 0 then 2.0 * Exp2(e - 1) else Exp2(e + 1) / 2.0
  }

  lemma {:induction false} Exp2Next(e: int)
    ensures Exp2(e + 1) == 2.0 * Exp2(e) && Exp2(e + 1) == Times(2.0, Exp2(e))
  {
  }

  lemma {:induction false} Exp2Mul(a: int, b: int)
    ensures Exp2(a + b) == Times(Exp2(a), Exp2(b))
    decreases Magnitude(b)
  {
    if b == 0 {
      assert Exp2(b) == 1.0;
      TimesAdd(0.0, 0.0, Exp2(a));
      TimesAssoc(Exp2(a), 1.0, 1.0);
    } else {
      var c := if b > 0 then b - 1 else b + 1;
      Exp2Mul(a, c);
      Exp2Next(if b > 0 then a + c else a + b);
      Exp2Next(if b > 0 then c else b);
      TimesTwice(Exp2(a), Exp2(if b > 0 then c else b));
    }
  }

  lemma {:induction false} TimesTwice(x: real, y: real)
    ensures Times(x, 2.0 * y) == 2.0 * Times(x, y) && Times(2.0 * x, y) == 2.0 * Times(x, y)
  {
  }

  lemma {:induction false} Exp2OfPow2(n: nat)
    ensures Exp2(n) == Pow2(n) as real
  {
    if n > 0 {
      Exp2OfPow2(n - 1);
    }
  }

  /** The magnitude of the 62-bit fraction, read as a two's complement number with
      the sign of the first word; the sign bit of the second word is ignored. */
  function Fraction(h: word, l: word): (f: int)
    ensures 0 <= f <= U62
  {
    var f := h % F27 * W35 + l % W35;
    if Tsts(h) then U62 - f else f
  }

  /** The exponent field, in one's complement form in a negative number. */
  function Exponent(h: word): (e: int)
    ensures 0 <= e < 256
  {
    var e := h / F27 % 256;
    if Tsts(h) then 255 - e else e
  }

  /** The number that a pair of words denotes: excess-128 exponent, fraction below one. */
  ghost function FpMagnitude(h: word, l: word): real
  {
    Times(Fraction(h, l) as real, Exp2(Exponent(h) - 190))
  }

  /** 1.0 has the exponent 129 and a fraction of a half; -1.0 is its negation. */
  lemma {:induction false} WordsOfOne()
    ensures FpMagnitude(0x4_0C00_0000, 0) == 1.0 && !Tsts(0x4_0C00_0000)
    ensures FpMagnitude(0x10_0000_0000 - 0x4_0C00_0000, 0) == 1.0 && Tsts(0x10_0000_0000 - 0x4_0C00_0000)
  {
    FieldsOfOne();
    UnitOfOne();
    hide Times, Exp2, Fraction, Exponent, Tsts;
  }

  lemma {:induction false} FieldsOfOne()
    ensures var h, n := 0x4_0C00_0000, 0x10_0000_0000 - 0x4_0C00_0000;
      && Fraction(h, 0) == Fraction(n, 0) == 0x2000_0000_0000_0000
      && Exponent(h) == Exponent(n) == 129 && !Tsts(h) && Tsts(n)
  {
  }

  lemma {:induction false} UnitOfOne()
    ensures Times(0x2000_0000_0000_0000 as real, Exp2(129 - 190)) == 1.0
  {
    assert Exp2(0) == 1.0;
    hide Times, Exp2, Pow2;
    PowerOfOne();
    Exp2Mul(-61, 61);
    Exp2OfPow2(61);
    TimesAssoc(0x2000_0000_0000_0000 as real, Exp2(-61), 1.0);
  }

  lemma {:induction false} PowerOfOne()
    ensures Pow2(61) == 0x2000_0000_0000_0000
  {
    Pow2Of64();
    assert Pow2(62) == 2 * Pow2(61);
  }

  // ---------------------------------------------------------------- normalization

  /** The lowest bit of each mask of normmask; each mask reaches up to bit 62. */
  const NORM_BIT: seq<int> := [0x2000_0000_0000_0000, 0x800_0000_0000_0000, 0x80_0000_0000_0000, 0x8000_0000_0000, 0x8000_0000, 1]
  const NORM_SHIFT: seq<int> := [1, 2, 4, 8, 16, 32, 63]

  lemma {:induction false} ShiftFactors()
    ensures Pow2(1) == 2 && Pow2(2) == 4 && Pow2(4) == 16 && Pow2(8) == 0x100
    ensures Pow2(16) == 0x1_0000 && Pow2(32) == 0x1_0000_0000
  {
    assert Pow2(1) == 2 && Pow2(2) == 4 && Pow2(4) == 16 && Pow2(8) == 0x100;
    hide Pow2;
    Pow2Add(8, 8);
    Pow2Add(16, 16);
  }

  /** A mask that no higher mask has missed leaves room for its shift. */
  method NormShift(fhi: int) returns (n: nat)
    requires 0 <= fhi < U62
    ensures 1 <= n <= 63 && fhi * Pow2(n) < U63
  {
    hide Pow2;
    var i := 0;
    while i < 6 && fhi % U63 < NORM_BIT[i]
      invariant 0 <= i <= 6
      invariant i > 0 ==> fhi < NORM_BIT[i - 1]
    {
      i := i + 1;
    }
    n := NORM_SHIFT[i];
    ShiftRoom(fhi, i);
  }

  lemma {:induction false} ShiftRoom(fhi: int, i: nat)
    requires i <= 6 && 0 <= fhi < U62 && (i > 0 ==> fhi < NORM_BIT[i - 1])
    ensures fhi * Pow2(NORM_SHIFT[i]) < U63
  {
    hide Pow2;
    ShiftFactors();
    if i == 6 {
      assert fhi == 0;
    }
  }

  /** Shifting a word of `p * q` values left: `a` moves out, `b` stays. */
  lemma {:induction false} ShiftHalf(flo: int, p: int, q: int, a: int, b: int, w: int)
    requires p > 0 && q > 0 && p * q == w && flo == a * q + b && 0 <= b < q && 0 <= flo < w
    ensures 0 <= a < p && flo * p == a * w + b * p && 0 <= b * p < w
  {
    if a >= p {
      MulLe(p, a, q);
    }
    if a < 0 {
      MulLe(a, -1, q);
    }
    ShiftProduct(a, q, b, p);
    MulLe(b + 1, q, p);
  }

  lemma {:induction false} ShiftProduct(a: int, q: int, b: int, p: int)
    ensures (a * q + b) * p == a * (p * q) + b * p
  {
  }

  /** Shifting a 128-bit fraction left by a factor `p`, as two halves of `w` values; `g`
      is the largest high half that has room for it. */
  lemma {:induction false} ShiftHalves(fhi: int, a: int, b: int, p: int, q: int, g: int, w: int)
    requires 0 <= a < p && 0 <= b < q && p * q == w && 0 <= fhi && fhi * p < g * p
    ensures (fhi * p + a) * w + b * p == (fhi * w + (a * q + b)) * p
    ensures 0 <= fhi * p && 0 <= fhi * p + a < g * p
  {
    Distribute(fhi * p, a, w);
    Distribute(fhi * w, a * q + b, p);
    Distribute(a * q, b, p);
    Reorder(fhi, p, w);
    Reorder(a, p, q);
    MulLe(0, fhi, p);
    if fhi >= g {
      MulLe(g, fhi, p);
    }
    MulLe(fhi + 1, g, p);
    Distribute(fhi, 1, p);
  }

  lemma {:induction false} Distribute(x: int, y: int, z: int)
    ensures (x + y) * z == x * z + y * z
  {
  }

  lemma {:induction false} Reorder(x: int, y: int, z: int)
    ensures x * y * z == x * z * y == x * (y * z)
  {
  }

  /** The shifts of a 64-bit unsigned word. */
  function Shl64(x: int, n: nat): int {
    x * Pow2(n) % U64
  }

  function Shr64(x: int, n: nat): int {
    x / Pow2(n)
  }

  lemma {:induction false} SplitAt(flo: int, q: nat, n: nat) returns (a: int, b: int)
    requires q == Pow2(n)
    ensures a == Shr64(flo, n) && flo == a * q + b && 0 <= b < q
  {
    a, b := flo / q, flo % q;
  }

  lemma {:induction false} ShiftWithin(x: int, p: int, n: nat, k: int, r: int)
    requires p == Pow2(n) && x * p == k * U64 + r && 0 <= r < U64
    ensures Shl64(x, n) == r
  {
    DivModUnique(x * p, U64, k, r);
  }

  lemma {:induction false} ShiftFraction(fhi: int, flo: int, n: nat)
    requires 0 <= fhi && 0 <= flo < U64 && 1 <= n <= 63 && fhi * Pow2(n) < U63
    ensures 0 <= Shl64(flo, n) < U64
    ensures (Shl64(fhi, n) + Shr64(flo, 64 - n)) * U64 + Shl64(flo, n) == (fhi * U64 + flo) * Pow2(n)
    ensures 0 <= Shl64(fhi, n) + Shr64(flo, 64 - n) < U63
    ensures 0 <= Shr64(flo, 64 - n) < Pow2(n)
  {
    Pow2Add(n, 64 - n);
    Pow2Add(63 - n, n);
    Pow2Of64();
    var p, q := Pow2(n), Pow2(64 - n);
    hide Pow2, Shl64, Shr64;
    var a, b := SplitAt(flo, q, 64 - n);
    ShiftHalf(flo, p, q, a, b, U64);
    ShiftHalves(fhi, a, b, p, q, Pow2(63 - n), U64);
    ShiftWithin(flo, p, n, a, b * p);
    ShiftWithin(fhi, p, n, 0, fhi * p);
  }

  lemma {:induction false} Pow2Of64()
    ensures Pow2(62) == U62 && Pow2(63) == U63 && Pow2(64) == U64
  {
    assert Pow2(64) == 2 * Pow2(63) && Pow2(63) == 2 * Pow2(62);
    hide Pow2;
    ShiftFactors();
    Pow2Add(32, 32);
  }

  /** One shift of a fraction that is not zero makes it grow. */
  lemma {:induction false} ScaledFraction(f: int, k: nat, n: nat)
    requires f > 0 && n >= 1
    ensures f * Pow2(k) * Pow2(n) == f * Pow2(k + n)
    ensures f * Pow2(k) * Pow2(n) > f * Pow2(k) > 0
  {
    Pow2Add(k, n);
    var g, p := f * Pow2(k), Pow2(n);
    assert p >= 2;
    hide Pow2;
    MulLe(2, p, g);
  }

  lemma {:induction false} NoPlaces(f: int)
    ensures f * Pow2(0) == f
  {
  }

  /** How a normalized fraction `g`, worth `s` a unit, is rounded: the fraction and the
      exponent that fpack then cuts to a multiple of `w`. */
  function RoundedFraction(g: int, rnd: int): int {
    if g + rnd < U63 then g + rnd else (g + rnd) / 2
  }

  /** An unpacked number: sign, exponent and a fraction of two 64-bit words. */
  class Ufp {
    var sign: bool
    var exp: int
    var fhi: int
    var flo: int

    constructor ()
    {
      sign, exp, fhi, flo := false, 0, 0, 0;
    }

    ghost predicate Valid()
      reads this
    {
      0 <= fhi < U63 && 0 <= flo < U64
    }

    ghost function Frac(): int
      reads this
    {
      fhi * U64 + flo
    }

    /** The loop of fnorm: shift the fraction left until bit 62 is set. */
    method Normalize()
      requires Valid() && Frac() > 0
      modifies this`exp, this`fhi, this`flo
      ensures Valid() && fhi >= U62
      ensures exp <= old(exp) && Frac() == old(Frac()) * Pow2(old(exp) - exp)
    {
      hide Pow2, Shl64, Shr64;
      ghost var f, e := Frac(), exp;
      NoPlaces(f);
      while fhi / U62 % 2 == 0
        invariant Valid()
        invariant exp <= e && Frac() == f * Pow2(e - exp)
        decreases U63 * U64 - Frac()
      {
        assert Frac() > 0 by { MulLe(1, Pow2(e - exp), f); }
        var n := NormShift(fhi);
        ShiftFraction(fhi, flo, n);
        ScaledFraction(f, e - exp, n);
        ghost var g := Frac();
        fhi := Shl64(fhi, n) + Shr64(flo, 64 - n);
        flo := Shl64(flo, n);
        exp := exp - n;
        assert Frac() == g * Pow2(n);
      }
    }

    /** fnorm: normalize, then optionally add the rounding constant and renormalize a carry.
        `k` is the number of places shifted. */
    method Fnorm(rnd: int) returns (ghost k: nat)
      requires Valid() && 0 <= rnd <= 0x8_0000_0000
      modifies this
      ensures old(Frac()) == 0 ==> !sign && exp == 0 && Frac() == 0
      ensures old(Frac()) > 0 ==>
        var hi := old(Frac()) * Pow2(k) / U64;
        && sign == old(sign) && U62 <= hi < U63
        && exp == old(exp) - k + (if hi + rnd < U63 then 0 else 1)
        && fhi == RoundedFraction(hi, rnd)
        && flo == old(Frac()) * Pow2(k) % U64
      ensures Valid()
    {
      k := 0;
      if fhi == 0 && flo == 0 {
        sign, exp := false, 0;
        return;
      }
      ghost var e, f := exp, Frac();
      Normalize();
      k := e - exp;
      DivModUnique(f * Pow2(k), U64, fhi, flo);
      hide Pow2, Valid, Frac;
      if rnd != 0 {
        fhi := fhi + rnd;
        if fhi >= U63 {
          fhi := fhi / 2;
          exp := exp + 1;
        }
      }
    }
  }

  /** The bit fields of a pair of words, and the number they stand for. */
  lemma {:induction false} Fields(h: word, l: word)
    ensures h == (if Tsts(h) then W35 else 0) + h / F27 % 256 * F27 + h % F27
    ensures 0 <= h / F27 % 256 < 256 && 0 <= h % F27 < F27
    ensures Exponent(h) == if Tsts(h) then 255 - h / F27 % 256 else h / F27 % 256
    ensures Fraction(h, l) == if Tsts(h) then U62 - (h % F27 * W35 + l % W35) else h % F27 * W35 + l % W35
  {
  }

  /** funpack: split a pair of words; `sgn` selects a two's complement fraction,
      otherwise the fraction is a magnitude.  A negative number without fraction bits
      is -1.0, which becomes a half with the next exponent. */
  method Funpack(h: word, l: word, r: Ufp, sgn: bool)
    modifies r
    ensures r.sign == Tsts(h) && r.flo == 0
    ensures !sgn && Fraction(h, l) < U62 ==> r.fhi == 2 * Fraction(h, l) && r.exp == Exponent(h)
    ensures !sgn && Fraction(h, l) == U62 ==> r.fhi == Fraction(h, l) && r.exp == Exponent(h) + 1
    ensures sgn ==> r.exp == Exponent(h) && 2 * Fraction(h, l) == if Tsts(h) then U64 - r.fhi else r.fhi
  {
    r.sign := Tsts(h);
    r.exp := h / F27 % 256;
    r.fhi := h % F27 * 0x10_0000_0000 + l % W35 * 2;
    r.flo := 0;
    Fields(h, l);
    hide Fraction, Exponent, Tsts;
    if r.sign {
      r.exp := 255 - r.exp;
      if sgn {
        r.fhi := r.fhi + U63;
      } else if r.fhi != 0 {
        r.fhi := (U64 - r.fhi) % U63 / 2 * 2;
      } else {
        r.exp := r.exp + 1;
        r.fhi := U62;
      }
    }
  }

  /** What funpack makes of the fraction: -1.0 becomes a half. */
  function Unpacked(h: word, l: word): (f: int)
    ensures 0 <= f < U63
  {
    if Fraction(h, l) < U62 then 2 * Fraction(h, l) else U62
  }

  function UnpackedExp(h: word, l: word): int {
    if Fraction(h, l) < U62 then Exponent(h) else Exponent(h) + 1
  }

  /** funpack of a magnitude. */
  method Unpack(h: word, l: word, r: Ufp)
    modifies r
    ensures r.sign == Tsts(h) && r.fhi == Unpacked(h, l) && r.flo == 0 && r.exp == UnpackedExp(h, l)
    ensures r.fhi != 1 && (r.fhi == 0 <==> Fraction(h, l) == 0)
  {
    hide Fraction, Exponent, Tsts;
    Funpack(h, l, r, false);
  }

  /** The fraction that fpack keeps: 62 bits, or 27 for a single-precision result. */
  function Kept(fhi: int, lo: bool): int {
    if lo then fhi % U63 / 2 else fhi % U63 / 0x10_0000_0000 * W35
  }

  lemma {:induction false} KeptParts(fhi: int, lo: bool)
    requires 0 <= fhi < U64
    ensures var hi, low := fhi % U63 / 0x10_0000_0000, if lo then fhi / 2 % W35 else 0;
      0 <= hi < F27 && 0 <= low < W35 && Kept(fhi, lo) == hi * W35 + low
  {
    var f, j := fhi % U63, fhi / U63;
    var q, r := f / 0x10_0000_0000, f % 0x10_0000_0000;
    DivModUnique(f / 2, W35, q, r / 2);
    DivModUnique(fhi / 2, W35, F27 * j + q, r / 2);
  }

  /** A packed number and its negation, read back. */
  lemma {:induction false} PackedPositive(e: int, hi: int, lo: int)
    requires 0 <= e < 256 && 0 <= hi < F27 && 0 <= lo < W35
    ensures var h := e * F27 + hi;
      0 <= h < W35 && Fraction(h, lo) == hi * W35 + lo && Exponent(h) == e && !Tsts(h)
  {
  }

  lemma {:induction false} PackedNegative(e: int, hi: int, lo: int)
    requires 0 <= e < 256 && 0 <= hi < F27 && 0 <= lo < W35 && (hi > 0 || lo > 0)
    ensures var rs := Dmovn(e * F27 + hi, lo);
      Fraction(rs.0, rs.1) == hi * W35 + lo && Exponent(rs.0) == e && Tsts(rs.0)
  {
    var rs := Dmovn(e * F27 + hi, lo);
    var m, l := if lo == 0 then F27 - hi else F27 - 1 - hi, if lo == 0 then 0 else W35 - lo;
    assert rs.0 == (511 - e) * F27 + m && rs.1 == l;
    hide Dmovn;
    NegativeFields(rs.0, 255 - e, m);
  }

  lemma {:induction false} PackedZero(e: int)
    requires 0 <= e < 256
    ensures Dmovn(e * F27, 0) == (-(e * F27) % W36, 0)
  {
  }

  lemma {:induction false} NegativeFields(h: int, c: int, m: int)
    requires 0 <= c < 256 && 0 <= m < F27 && h == (256 + c) * F27 + m
    ensures 0 <= h < W36 && Tsts(h) && h / F27 % 256 == c && h % F27 == m
  {
    DivModUnique(h, F27, 256 + c, m);
    DivModUnique(h, W35, 1, c * F27 + m);
    DivModUnique(256 + c, 256, 1, c);
  }

  lemma {:induction false} Complements(hi: int, lo: int)
    requires 0 <= hi < W36 && 0 <= lo < W35
    ensures (-lo - 1) % W35 == W35 - 1 - lo && (-hi - 1) % W36 == W36 - 1 - hi
  {
  }

  /** The words of a number, negated or, for a quotient with a remainder, complemented. */
  method PackSigned(e: int, hi: int, lo: int, sign: bool, fdvneg: bool) returns (h: word, l: word)
    requires 0 <= e < 256 && 0 <= hi < F27 && 0 <= lo < W35
    ensures !sign || (hi * W35 + lo > 0 && !fdvneg) ==>
        Fraction(h, l) == hi * W35 + lo && Exponent(h) == e && Tsts(h) == sign
    ensures sign && fdvneg ==> h * W35 + l == 2 * W70 - 1 - (e * F27 * W35 + hi * W35 + lo)
    ensures sign && !fdvneg && hi == lo == 0 ==> h == -(e * F27) % W36 && l == 0
    ensures 0 <= l < W35 && (lo == 0 && !(sign && fdvneg) ==> l == 0)
  {
    hide Fraction, Exponent, Tsts, Dmovn;
    var val0, val1 := e * F27 + hi, lo;
    PackedPositive(e, hi, lo);
    if sign {
      if fdvneg {
        Complements(val0, val1);
        val1 := (-val1 - 1) % W35;
        val0 := (-val0 - 1) % W36;
      } else {
        if hi > 0 || lo > 0 {
          PackedNegative(e, hi, lo);
        } else {
          PackedZero(e);
        }
        var rs := Dmovn(val0, val1);
        val0, val1 := rs.0, rs.1;
      }
    }
    return val0, val1;
  }

  function RangeFlags(exp: int): set<Flag> {
    if exp < 0 then {AOV, FOV, FXU, T1} else if exp > 255 then {AOV, FOV, T1} else {}
  }

  lemma {:induction false} InRange(exp: int)
    requires 0 <= exp < 256
    ensures RangeFlags(exp) == {}
  {
  }

  /** fpack: flags for an exponent out of range, then the packed word or words. */
  method Fpack(cpu: Cpu, r: Ufp, lo: bool, fdvneg: bool) returns (h: word, l: word)
    requires 0 <= r.fhi < U64
    modifies cpu`flags
    ensures cpu.flags == old(cpu.flags) + RangeFlags(r.exp)
    ensures r.exp < 0 ==> cpu.flags == old(cpu.flags) + {AOV, FOV, FXU, T1}
    ensures r.exp > 255 ==> cpu.flags == old(cpu.flags) + {AOV, FOV, T1}
    ensures 0 <= r.exp <= 255 ==> cpu.flags == old(cpu.flags)
    ensures var m := Kept(r.fhi, lo);
      && (!r.sign || (m > 0 && !fdvneg) ==>
        Fraction(h, l) == m && Exponent(h) == r.exp % 256 && Tsts(h) == r.sign)
      && (r.sign && fdvneg ==> h * W35 + l == 2 * W70 - 1 - (r.exp % 256 * F27 * W35 + m))
      && (r.sign && !fdvneg && m == 0 ==> h == -(r.exp % 256 * F27) % W36 && l == 0)
    ensures 0 <= l < W35 && (!lo && !(r.sign && fdvneg) ==> l == 0)
  {
    if r.exp < 0 {
      cpu.flags := cpu.flags + {AOV, FOV, FXU, T1};
    } else if r.exp > 255 {
      cpu.flags := cpu.flags + {AOV, FOV, T1};
    }
    hide Fraction, Exponent, Tsts, Kept;
    var hi, low := r.fhi % U63 / 0x10_0000_0000, if lo then r.fhi / 2 % W35 else 0;
    KeptParts(r.fhi, lo);
    h, l := PackSigned(r.exp % 256, hi, low, r.sign, fdvneg);
  }

  /** Sign, exponent and fraction determine the words, apart from the sign of the low word. */
  lemma {:induction false} WordsDetermined(h: word, l: word, h': word, l': word)
    requires Fraction(h, l) == Fraction(h', l') && Exponent(h) == Exponent(h') && Tsts(h) == Tsts(h')
    requires l < W35 && l' < W35
    ensures h == h' && l == l'
  {
    hide Fraction, Exponent, Tsts;
    Fields(h, l);
    Fields(h', l');
  }

  lemma {:induction false} NegativeFraction(h: word, l: word)
    ensures Tsts(h) ==> Fraction(h, l) > 0
  {
  }

  lemma {:induction false} KeptFraction(f: int)
    requires 0 <= f <= U62
    ensures f < U62 ==> Kept(2 * f, true) == f
    ensures Kept(U62, true) == U62 / 2
  {
  }

  /** fpack undoes funpack exactly for the words with a clear low sign, except -1.0. */
  method Repack(cpu: Cpu, h: word, l: word, r: Ufp) returns (h': word, l': word)
    modifies cpu`flags, r
    ensures h' == h && l' == l <==> l < W35 && Fraction(h, l) < U62
    ensures Fraction(h, l) < U62 ==> cpu.flags == old(cpu.flags)
  {
    hide Fraction, Exponent, Tsts, Kept;
    Funpack(h, l, r, false);
    KeptFraction(Fraction(h, l));
    NegativeFraction(h, l);
    h', l' := Fpack(cpu, r, true, false);
    if l < W35 && Fraction(h, l) < U62 {
      WordsDetermined(h, l, h', l');
    }
  }

  // ---------------------------------------------------------------- rounding

  /** `p` is the exact magnitude; `v` is the result, whose last place is worth `u`: the
      nearest multiple of `u`, halves away from zero, or the next one below. */
  ghost predicate Rounds(p: real, v: real, u: real, rnd: bool) {
    if rnd then v - u / 2.0 <= p < v + u / 2.0 else v <= p < v + u
  }

  /** Cutting `g` units of `s`, plus half of `w` of them or none, to a multiple `x` of `w` units. */
  lemma {:induction false} CutUnits(g: real, c: real, x: real, w: real, s: real, p: real, up: bool)
    requires s > 0.0 && c == if up then w / 2.0 else 0.0
    requires x <= g + c && g + 1.0 + c <= x + w
    requires Times(g, s) <= p < Times(g + 1.0, s)
    ensures Rounds(p, Times(x, s), Times(w, s), up)
  {
    hide Times;
    TimesMono(x, g + c, s);
    TimesMono(g + 1.0 + c, x + w, s);
    TimesAdd(g, c, s);
    TimesAdd(g + 1.0, c, s);
    TimesAdd(x, w, s);
    TimesTwice(c, s);
    TimesAdd(0.0, 0.0, s);
  }

  lemma {:induction false} RoundFraction(g: int, w: int, c: int, s: real, p: real, t: real, up: bool)
    requires U62 <= g < U63 && s > 0.0 && (w == 2 || w == 0x10_0000_0000) && 2 * c == if up then w else 0
    requires t == if g + c < U63 then s else 2.0 * s
    requires Times(g as real, s) <= p < Times((g + 1) as real, s)
    ensures var f := RoundedFraction(g, c);
      && U62 <= f < U63
      && Rounds(p, Times((f / w) as real, Times(w as real, t)), Times(w as real, t), up)
  {
    hide *;
    var m, k := CutPoint(g, w, c);
    TimesInt(m, w);
    RoundCut(g as real, c as real, m, k, w as real, s, p, t, g + c >= U63, up);
  }

  lemma {:induction false} RoundCut(g: real, c: real, m: int, k: int, w: real, s: real, p: real, t: real, carry: bool, up: bool)
    requires s > 0.0 && w > 0.0 && c == if up then w / 2.0 else 0.0
    requires Times(m as real, w) <= g + c && g + 1.0 + c <= Times(m as real, w) + w
    requires Times(g, s) <= p < Times(g + 1.0, s)
    requires if carry then up && m == 2 * k && t == 2.0 * s else m == k && t == s
    ensures Rounds(p, Times(k as real, Times(w, t)), Times(w, t), up)
  {
    hide *;
    CutUnits(g, c, Times(m as real, w), w, s, p, up);
    TimesAssoc(m as real, w, s);
    if carry {
      CarriedUnits(m, k, w, s);
      WiderUnit(p, Times(m as real, Times(w, s)), Times(w, s));
    }
  }

  /** After a carry there are half as many units, twice as large. */
  lemma {:induction false} CarriedUnits(m: int, k: int, w: real, s: real)
    requires m == 2 * k && w > 0.0 && s > 0.0
    ensures Times(m as real, Times(w, s)) == Times(k as real, Times(w, 2.0 * s))
    ensures Times(w, 2.0 * s) == 2.0 * Times(w, s) > 0.0
  {
    hide Times;
    assert m as real == 2.0 * k as real;
    TimesPositive(w, s);
    TimesTwice(k as real, Times(w, s));
    TimesTwice(w, s);
  }

  lemma {:induction false} WiderUnit(p: real, v: real, u: real)
    requires u > 0.0 && Rounds(p, v, u, true)
    ensures Rounds(p, v, 2.0 * u, true)
  {
  }

  lemma {:induction false} CutPoint(g: int, w: int, rnd: int) returns (m: int, k: int)
    requires U62 <= g < U63 && (w == 2 || w == 0x10_0000_0000) && (rnd == 0 || 2 * rnd == w)
    ensures m * w <= g + rnd < m * w + w && U62 <= RoundedFraction(g, rnd) < U63
    ensures k == RoundedFraction(g, rnd) / w && if g + rnd < U63 then m == k else rnd > 0 && m == 2 * k
  {
    m, k := (g + rnd) / w, RoundedFraction(g, rnd) / w;
    if g + rnd >= U63 {
      assert m == if w == 2 then 0x4000_0000_0000_0000 else 0x800_0000;
    }
  }

  // ---------------------------------------------------------------- instructions

  /** A normalized result for the exact magnitude `p`, in single or, with `lo`, double
      precision.  Its exponent is `exp`, of which the word holds the low eight bits. */
  ghost predicate IsRounded(p: real, h: word, l: word, exp: int, lo: bool, rnd: bool) {
    && Rounds(p, Times(Fraction(h, l) as real, Exp2(exp - 190)), Exp2(exp - (if lo then 190 else 155)), rnd)
    && Exponent(h) == exp % 256
    && U62 / 2 <= Fraction(h, l) < U62
    && (!lo ==> l == 0)
  }

  /** Without range flags the words themselves denote the rounded value. */
  lemma {:induction false} RoundedValue(p: real, h: word, l: word, exp: int, lo: bool, rnd: bool)
    requires IsRounded(p, h, l, exp, lo, rnd) && RangeFlags(exp) == {}
    ensures Rounds(p, FpMagnitude(h, l), Exp2(Exponent(h) - (if lo then 190 else 155)), rnd)
  {
    hide Rounds, Exp2;
    assert exp < 0 || exp > 255 ==> AOV in RangeFlags(exp);
    assert Exponent(h) == exp;
    assert FpMagnitude(h, l) == Times(Fraction(h, l) as real, Exp2(exp - 190));
  }

  /** A normalized fraction is not shifted. */
  lemma {:induction false} NoShift(fhi: int, k: nat)
    requires fhi >= U62 && fhi * U64 * Pow2(k) / U64 < U63
    ensures k == 0
  {
    assert k > 0 ==> Pow2(k) >= 2;
    var p := Pow2(k);
    hide Pow2;
    assert fhi * U64 * p / U64 == fhi * p by {
      assert fhi * U64 * p == fhi * p * U64;
      DivModUnique(fhi * U64 * p, U64, fhi * p, 0);
    }
    assert p >= 2 ==> fhi * p >= fhi * 2;
  }

  /** The exact value of a fraction after `k` places of normalization. */
  lemma {:induction false} ShiftedValue(fhi: int, exp: int, k: nat, g: int)
    requires fhi > 0 && g == fhi * U64 * Pow2(k) / U64
    ensures g == fhi * Pow2(k)
    ensures Times(g as real, Exp2(exp - k - 191)) == Times(fhi as real, Exp2(exp - 191))
  {
    var p := Pow2(k);
    hide Pow2;
    assert fhi * U64 * p == fhi * p * U64;
    DivModUnique(fhi * U64 * p, U64, fhi * p, 0);
    hide Times, Exp2;
    TimesInt(fhi, p);
    Exp2Mul(exp - k - 191, k);
    Exp2OfPow2(k);
    TimesAssoc(fhi as real, p as real, Exp2(exp - k - 191));
    TimesAssoc(p as real, Exp2(exp - k - 191), 1.0);
  }

  /** How many places a fraction is shifted to be normalized. */
  function Places(n: int): (k: nat)
    requires 0 < n < U63
    decreases U63 - n
  {
    if n >= U62 then 0 else 1 + Places(2 * n)
  }

  lemma {:induction false} PlacesAre(n: int, k: nat)
    requires 0 < n < U63 && U62 <= n * Pow2(k) < U63
    ensures Places(n) == k
    decreases k
  {
    if k > 0 {
      assert n * Pow2(k) == 2 * n * Pow2(k - 1);
      var p := Pow2(k - 1);
      hide Pow2;
      MulLe(1, p, 2 * n);
      PlacesAre(2 * n, k - 1);
    } else {
      assert Pow2(0) == 1;
    }
  }

  lemma {:induction false} PlacesUnique(fhi: int, k: nat, g: int)
    requires 0 < fhi < U63 && g == fhi * U64 * Pow2(k) / U64 && U62 <= g < U63
    ensures Places(fhi) == k && g == fhi * Pow2(k)
  {
    ShiftedValue(fhi, 0, k, g);
    hide Pow2, Places;
    PlacesAre(fhi, k);
  }

  /** The exact magnitude `p` lies in the unit above the fraction `g` with exponent `exp`. */
  ghost predicate InUnit(g: int, exp: int, p: real) {
    Times(g as real, Exp2(exp - 191)) <= p < Times((g + 1) as real, Exp2(exp - 191))
  }

  ghost predicate IsExact(g: int, exp: int, p: real) {
    p == Times(g as real, Exp2(exp - 191))
  }

  lemma {:induction false} ShiftedUnit(fhi: int, exp: int, k: nat, g: int, p: real)
    requires fhi > 0 && g == fhi * U64 * Pow2(k) / U64 && U62 <= g < U63
    requires IsExact(fhi, exp, p) || (fhi >= U62 && InUnit(fhi, exp, p))
    ensures InUnit(g, exp - k, p)
  {
    if IsExact(fhi, exp, p) {
      ShiftedValue(fhi, exp, k, g);
      TimesAdd(g as real, 1.0, Exp2(exp - k - 191));
    } else {
      NoShift(fhi, k);
      assert k == 0 && g == fhi;
    }
  }

  /** A normalized fraction `g` rounded by fnorm and cut by fpack. */
  lemma {:induction false} RoundedUnits(g: int, exp: int, p: real, lo: bool, rnd: bool, e: int)
    requires U62 <= g < U63 && InUnit(g, exp, p)
    requires e == if g + RoundConst(lo, rnd) < U63 then exp else exp + 1
    ensures var f := RoundedFraction(g, RoundConst(lo, rnd));
      && U62 <= f < U63
      && Rounds(p, Times(Kept(f, lo) as real, Exp2(e - 190)), Exp2(e - (if lo then 190 else 155)), rnd)
  {
    var c, w := RoundConst(lo, rnd), if lo then 2 else 0x10_0000_0000;
    Exp2Next(exp - 191);
    hide Rounds, Exp2, Kept, RoundedFraction, Times;
    RoundFraction(g, w, c, Exp2(exp - 191), p, Exp2(e - 191), rnd);
    if lo {
      KeptDouble(RoundedFraction(g, c), e);
    } else {
      KeptSingle(RoundedFraction(g, c), e);
    }
  }

  lemma {:induction false} KeptRange(f: int, lo: bool)
    requires U62 <= f < U63
    ensures U62 / 2 <= Kept(f, lo) < U62
  {
  }

  /** The kept part of a fraction counts units of the last place. */
  lemma {:induction false} KeptDouble(f: int, e: int)
    requires U62 <= f < U63
    ensures Exp2(e - 190) == Times(2 as real, Exp2(e - 191))
    ensures Kept(f, true) == f / 2
  {
    Exp2Next(e - 191);
  }

  lemma {:induction false} KeptSingle(f: int, e: int)
    requires U62 <= f < U63
    ensures Exp2(e - 155) == Times(0x10_0000_0000 as real, Exp2(e - 191))
    ensures Times(Kept(f, false) as real, Exp2(e - 190)) == Times((f / 0x10_0000_0000) as real, Exp2(e - 155))
  {
    var m := f / 0x10_0000_0000;
    assert Kept(f, false) == m * W35;
    Pow2Values();
    hide Times, Exp2, Pow2, Kept;
    TimesInt(m, W35);
    Exp2Mul(e - 191, 36);
    Exp2Mul(e - 190, 35);
    Exp2OfPow2(35);
    Exp2OfPow2(36);
    TimesAssoc(m as real, W35 as real, Exp2(e - 190));
    TimesAssoc(W35 as real, Exp2(e - 190), 1.0);
    TimesAssoc(0x10_0000_0000 as real, Exp2(e - 191), 1.0);
  }

  function RoundConst(lo: bool, rnd: bool): int {
    if !rnd then 0 else if lo then 1 else W35
  }

  /** fnorm and fpack of a positive fraction: `p` is its exact value or, for a quotient
      already normalized, less than one unit above it. */
  method NormPack(cpu: Cpu, r: Ufp, rnd: bool, lo: bool, ghost p: real) returns (h: word, l: word, ghost exp: int)
    requires r.Valid() && r.fhi > 0 && r.flo == 0
    requires IsExact(r.fhi, r.exp, p) || (r.fhi >= U62 && InUnit(r.fhi, r.exp, p))
    modifies cpu`flags, r
    ensures cpu.flags == old(cpu.flags) + RangeFlags(exp)
    ensures IsRounded(p, h, l, exp, lo, rnd) && Tsts(h) == old(r.sign)
    ensures
      var k, c := Places(old(r.fhi)), RoundConst(lo, rnd);
      var g := old(r.fhi) * Pow2(k);
      && U62 <= g < U63 && Fraction(h, l) == Kept(RoundedFraction(g, c), lo)
      && exp == old(r.exp) - k + (if g + c < U63 then 0 else 1)
  {
    hide IsExact, InUnit, Fraction, Exponent, Pow2, Tsts, Exp2, Rounds, Kept, RoundedFraction, Times;
    ghost var fhi, e := r.fhi, r.exp;
    ghost var k := r.Fnorm(RoundConst(lo, rnd));
    ghost var g := fhi * U64 * Pow2(k) / U64;
    ShiftedUnit(fhi, e, k, g, p);
    PlacesUnique(fhi, k, g);
    exp := r.exp;
    assert r.fhi == RoundedFraction(g, RoundConst(lo, rnd));
    h, l := Fpack(cpu, r, lo, false);
    RoundedUnits(g, e - k, p, lo, rnd, exp);
    KeptRange(r.fhi, lo);
  }

  /** funpack keeps the value, in either case. */
  lemma {:induction false} UnpackedExact(h: word, l: word)
    ensures IsExact(Unpacked(h, l), UnpackedExp(h, l), FpMagnitude(h, l))
  {
    Exp2Next(Exponent(h) - 191);
    TimesTwice(Fraction(h, l) as real, Exp2(Exponent(h) - 191));
  }

  /** Taking 32 zero bits off a fraction. */
  lemma {:induction false} DropBits(x: int, e: int)
    ensures Times((x * 0x1_0000_0000) as real, Exp2(e)) == Times(x as real, Exp2(e + 32))
  {
    Pow2Values();
    hide Times, Exp2, Pow2;
    TimesInt(x, 0x1_0000_0000);
    Exp2Mul(e, 32);
    Exp2OfPow2(32);
    TimesAssoc(x as real, 0x1_0000_0000 as real, Exp2(e));
    TimesAssoc(0x1_0000_0000 as real, Exp2(e), 1.0);
  }

  lemma {:induction false} SingleUnits(h: word) returns (j: int)
    ensures 0 <= j <= F27 && Unpacked(h, 0) == (if j < F27 then 16 * j else 0x4000_0000) * 0x1_0000_0000
  {
    j := if Tsts(h) then F27 - h % F27 else h % F27;
    assert Fraction(h, 0) == j * W35;
  }

  lemma {:induction false} SingleFraction(h: word)
    ensures var f := Unpacked(h, 0);
      f == f / 0x1_0000_0000 * 0x1_0000_0000 && f / 0x1_0000_0000 < 0x8000_0000 && (f > 0 ==> f / 0x1_0000_0000 > 0)
  {
    hide Unpacked;
    var j := SingleUnits(h);
    var m := if j < F27 then 16 * j else 0x4000_0000;
    DivModUnique(Unpacked(h, 0), 0x1_0000_0000, m, 0);
  }

  lemma {:induction false} SmallProduct(a: int, b: int, m: int)
    requires 0 < a < m && 0 < b < m
    ensures 0 < Product(a, b) < m * m
  {
    MulLe(a, m, b);
    MulLe(b + 1, m, m);
  }

  /** The 54-bit product of two single-precision fractions is exact. */
  lemma {:induction false} ExactProduct(x: int, ex: int, p: real, y: int, ey: int, q: real)
    requires IsExact(x * 0x1_0000_0000, ex, p) && IsExact(y * 0x1_0000_0000, ey, q)
    requires 0 < x < 0x8000_0000 && 0 < y < 0x8000_0000
    ensures 0 < Product(y, x) < U62 && IsExact(Product(y, x), ex + ey - 127, Times(p, q))
  {
    hide Times, Exp2, Product;
    SmallProduct(y, x, 0x8000_0000);
    DropBits(x, ex - 191);
    DropBits(y, ey - 191);
    UnitsOf(x, Exp2(ex - 159), y, Exp2(ey - 159), Exp2(ex + ey - 318), ex - 159, ey - 159);
  }

  /** FMP and FMPR: the exact product, cut or rounded to 27 fraction bits. */
  method Fmp(cpu: Cpu, op1: word, op2: word, rnd: bool) returns (h: word, ghost exp: int)
    modifies cpu`flags
    ensures Fraction(op1, 0) == 0 || Fraction(op2, 0) == 0 ==> h == 0 && cpu.flags == old(cpu.flags)
    ensures Fraction(op1, 0) != 0 && Fraction(op2, 0) != 0 ==>
      && cpu.flags == old(cpu.flags) + RangeFlags(exp)
      && IsRounded(Times(FpMagnitude(op1, 0), FpMagnitude(op2, 0)), h, 0, exp, false, rnd)
      && (Tsts(h) <==> Tsts(op1) != Tsts(op2))
  {
    var a := new Ufp();
    var b := new Ufp();
    hide Fraction, Exponent, Unpacked, UnpackedExp, FpMagnitude, IsExact, IsRounded, Times, Tsts, InUnit, Product, RangeFlags;
    Unpack(op1, 0, a);
    Unpack(op2, 0, b);
    exp := 0;
    if a.fhi == 0 || b.fhi == 0 {
      return 0, 0;
    }
    UnpackedExact(op1, 0);
    UnpackedExact(op2, 0);
    SingleFraction(op1);
    SingleFraction(op2);
    ExactProduct(a.fhi / 0x1_0000_0000, a.exp, FpMagnitude(op1, 0), b.fhi / 0x1_0000_0000, b.exp, FpMagnitude(op2, 0));
    a.sign := a.sign != b.sign;
    a.exp := a.exp + b.exp - 128 + 1;
    a.fhi := Product(b.fhi / 0x1_0000_0000, a.fhi / 0x1_0000_0000);
    var l;
    h, l, exp := NormPack(cpu, a, rnd, false, Times(FpMagnitude(op1, 0), FpMagnitude(op2, 0)));
    assert l == 0 by { LowZero(Times(FpMagnitude(op1, 0), FpMagnitude(op2, 0)), h, l, exp, rnd); }
  }

  lemma {:induction false} LowZero(p: real, h: word, l: word, exp: int, rnd: bool)
    requires IsRounded(p, h, l, exp, false, rnd)
    ensures l == 0
  {
  }

  /** FLTR: an integer, rounded to 27 fraction bits. */
  method Fltr(cpu: Cpu, mb: word) returns (h: word, ghost exp: int)
    modifies cpu`flags
    ensures mb == 0 ==> h == 0 && cpu.flags == old(cpu.flags)
    ensures mb != 0 ==>
      && cpu.flags == old(cpu.flags) + RangeFlags(exp)
      && IsRounded(Magnitude(Signed(mb)) as real, h, 0, exp, false, true)
      && (Tsts(h) <==> Tsts(mb))
  {
    hide IsRounded, IsExact, InUnit, Pow2, Times, RangeFlags, Signed, Tsts, Abs, Fraction, Exponent;
    var a := new Ufp();
    var val := Abs(mb);
    FloatFraction(mb);
    a.sign := Tsts(mb);
    a.exp := 128 + 36;
    a.fhi := val * F27 % U64;
    a.flo := 0;
    if mb == 0 {
      ghost var k := a.Fnorm(W35);
      exp := 0;
      var l;
      h, l := Fpack(cpu, a, false, false);
      ZeroWords(h, l);
      InRange(0);
    } else {
      FloatExact(val);
      var l;
      h, l, exp := NormPack(cpu, a, true, false, val as real);
      LowZero(val as real, h, l, exp, true);
    }
  }

  lemma {:induction false} FloatFraction(mb: word)
    ensures var f := Abs(mb) * F27; f % U64 == f && 0 <= f < U63 && (f == 0 <==> mb == 0)
  {
  }

  lemma {:induction false} ZeroWords(h: word, l: word)
    requires Fraction(h, l) == 0 && Exponent(h) == 0 && !Tsts(h) && l < W35
    ensures h == 0 && l == 0
  {
  }

  lemma {:induction false} FloatExact(val: int)
    ensures IsExact(val * F27, 164, val as real)
  {
    assert Exp2(0) == 1.0;
    Pow2Values();
    hide Times, Exp2, Pow2;
    TimesInt(val, F27);
    Exp2Mul(-27, 27);
    Exp2OfPow2(27);
    TimesAssoc(val as real, F27 as real, Exp2(-27));
    TimesAssoc(F27 as real, Exp2(-27), 1.0);
    assert Times(F27 as real, Exp2(-27)) == Exp2(0);
    TimesAdd(0.0, 0.0, val as real);
    TimesAssoc(val as real, 1.0, 1.0);
  }

  // ---------------------------------------------------------------- double-precision divide

  /** After `i` of 63 steps the dividend, scaled, is twice the quotient so far times the
      divisor, plus the partial remainder. */
  ghost predicate Dividing63(a: int, b: int, qu: int, rem: int, i: nat) {
    0 <= rem < 2 * b && (i > 0 ==> rem % 2 == 0) && 0 <= qu < Pow2(i) && Product(a, Pow2(i)) == 2 * Product(b, qu) + rem
  }

  lemma {:induction false} Pow2AtMost(i: nat)
    requires i < 63
    ensures Pow2(i + 1) == Pow2(i) + Pow2(i) && Pow2(i) <= U62
  {
    assert Pow2(i + 1) == 2 * Pow2(i);
    hide Pow2;
    Pow2Of64();
    Pow2Add(i, 62 - i);
    MulLe(1, Pow2(62 - i), Pow2(i));
  }

  lemma {:induction false} DivideNext(a: int, b: int, qu: int, rem: int, i: nat)
    requires i < 63 && Dividing63(a, b, qu, rem, i)
    ensures var bit := if rem >= b then 1 else 0;
      Dividing63(a, b, 2 * qu + bit, 2 * (rem - bit * b), i + 1)
      && 0 <= 2 * qu + bit < U63 && 0 <= 2 * (rem - bit * b) < 2 * b
  {
    var bit := if rem >= b then 1 else 0;
    var p := Pow2(i);
    Pow2AtMost(i);
    hide Pow2, Product;
    ProductAdd(a, p, p);
    ProductAdd(b, qu, qu);
    ProductAdd(b, 2 * qu, bit);
  }

  /** `q` is the integer part of `n / d`. */
  ghost predicate IsFloor(q: int, n: int, d: int) {
    Product(d, q) <= n < Product(d, q + 1)
  }

  /** The 63-step loop of dfdv: 63 bits of quotient, the first of them a one when the
      dividend is not below the divisor.  No shift loses a bit, because the partial remainder stays below twice the divisor. */
  method DivideFraction(a: int, b: int) returns (qu: int)
    requires 0 < b < U63 && 0 <= a < 2 * b
    ensures 0 <= qu < U63 && (b <= a ==> U62 <= qu)
    ensures IsFloor(qu, a * U62, b)
  {
    var rem, i := a, 0;
    qu := 0;
    DivideStart(a, b);
    hide Dividing63, Pow2, IsFloor;
    while i < 63
      invariant 0 <= i <= 63 && Dividing63(a, b, qu, rem, i) && 0 <= qu < U63 && 0 <= rem < 2 * b
    {
      DivideNext(a, b, qu, rem, i);
      ShiftLeft(qu);
      ShiftLeft(if rem >= b then rem - b else rem);
      qu := qu * 2 % U64;
      if rem >= b {
        rem := rem - b;
        qu := qu + 1;
      }
      rem := rem * 2 % U64;
      i := i + 1;
    }
    LastRemainder(a, b, qu, rem);
  }

  lemma {:induction false} ShiftLeft(x: int)
    requires 0 <= x
    ensures x < U63 ==> x * 2 % U64 == 2 * x
  {
  }

  lemma {:induction false} DivideStart(a: int, b: int)
    requires 0 <= a < 2 * b
    ensures Dividing63(a, b, 0, a, 0)
  {
    ProductAdd(a, 0, 1);
    ProductAdd(b, 0, 0);
  }

  lemma {:induction false} LastRemainder(a: int, b: int, qu: int, rem: int)
    requires 0 < b && 0 <= a && Dividing63(a, b, qu, rem, 63)
    ensures IsFloor(qu, a * U62, b) && (b <= a ==> U62 <= qu)
  {
    Pow2Of64();
    ProductByConst(a);
    ProductByConst(b);
    hide Pow2, Product;
    ProductAdd(b, qu, 1);
    assert U62 > qu ==> Product(b, qu + 1) <= Product(b, U62) by { if U62 > qu { ProductMono(qu + 1, U62, b); } }
  }

  lemma {:induction false} ProductByConst(b: int)
    ensures Product(b, U62) == b * U62 && Product(b, U63) == b * U63
  {
  }

  ghost function Ratio(x: real, y: real): real {
    if y > 0.0 then x / y else 0.0
  }

  /** The quotient of two exact magnitudes lies in the unit above the integer quotient. */
  lemma {:induction false} QuotientUnit(a: int, ea: int, x: real, b: int, eb: int, y: real, qu: int)
    requires IsExact(a, ea, x) && IsExact(b, eb, y) && b > 0 && IsFloor(qu, a * U62, b)
    ensures y > 0.0 && InUnit(qu, ea - eb + 129, Ratio(x, y))
  {
    var u, v := Exp2(ea - 191 - 62), Exp2(ea - eb - 62);
    Pow2Of64();
    assert Times(b as real, Exp2(eb - 191)) > 0.0 by { TimesPositive(b as real, Exp2(eb - 191)); }
    var p := Ratio(x, y);
    assert Times(p, y) == x;
    hide Times, Exp2, Pow2, Ratio, Product;
    // x is a * 2^62 units of u, and y times n units of v is b * n units of u
    Exp2Mul(ea - 191 - 62, 62);
    Exp2OfPow2(62);
    TimesAssoc(a as real, U62 as real, u);
    TimesAssoc(u, U62 as real, 1.0);
    TimesInt(a, U62);
    assert x == Times((a * U62) as real, u);
    UnitsOf(qu, v, b, Exp2(eb - 191), u, ea - eb - 62, eb - 191);
    UnitsOf(qu + 1, v, b, Exp2(eb - 191), u, ea - eb - 62, eb - 191);
    TimesMono(Product(b, qu) as real, (a * U62) as real, u);
    TimesStrict((a * U62) as real, Product(b, qu + 1) as real, u);
    TimesStrictLeft(p, Times(qu as real, v), y);
    TimesStrictLeft(Times((qu + 1) as real, v), p, y);
  }

  /** The divisor's fraction times the quotient is the dividend's fraction, in its units. */
  lemma {:induction false} ScaledQuotient(a: int, ea: int, x: real, b: int, eb: int, y: real)
    requires IsExact(a, ea, x) && IsExact(b, eb, y) && b > 0
    ensures y > 0.0 && Times(Ratio(x, y), b as real) == Times((a * U62) as real, Exp2(ea - eb - 62))
  {
    var w, v := Exp2(eb - 191), Exp2(ea - eb - 62);
    TimesPositive(b as real, w);
    var p := Ratio(x, y);
    assert Times(p, y) == x;
    Pow2Of64();
    hide Times, Exp2, Pow2, Ratio;
    Exp2Mul(ea - 191 - 62, 62);
    Exp2OfPow2(62);
    Exp2Mul(ea - eb - 62, eb - 191);
    TimesAssoc(a as real, U62 as real, Exp2(ea - 191 - 62));
    TimesAssoc(Exp2(ea - 191 - 62), U62 as real, 1.0);
    TimesInt(a, U62);
    var n := (a * U62) as real;
    TimesAssoc(n, v, w);
    TimesAssoc(p, b as real, w);
    SameFactor(Times(p, b as real), Times(n, v), w);
  }

  lemma {:induction false} SameFactor(x: real, y: real, z: real)
    requires z > 0.0 && Times(x, z) == Times(y, z)
    ensures x == y
  {
    TimesStrictLeft(x, y, z);
    TimesStrictLeft(y, x, z);
  }

  lemma {:induction false} QuotientRange(a: int, b: int)
    requires 1 < a && 2 * a < b < U63
    ensures 0 < 2 * a * U62 / b < U62
  {
    var n, q := 2 * a * U62, 2 * a * U62 / b;
    assert n == Product(q, b) + n % b;
    if q <= 0 {
      MulLe(q, 0, b);
    }
    if q >= U62 {
      MulLe(U62, q, b);
    }
  }

  /** Whether the quotient of two unpacked fractions is rounded as it should: always if the
      divisor is at most twice the dividend; else the loop gives fewer than 62 bits of it, and
      what it leaves, moved up by as many places as are missing, has to stay below the divisor. */
  ghost predicate RoundsRight(a: int, b: int)
    requires 1 < a < 2 * b && b < U63
  {
    if 2 * a >= b then true else
      QuotientRange(a, b);
      2 * a * U62 % b * Pow2(Places(2 * a * U62 / b)) < b
  }

  /** A quotient `qu` with remainder `r` that was shifted to be normalized. */
  lemma {:induction false} ShortQuotient(qu: int, e: int, b: int, r: int, p: real, h: word, l: word, exp: int)
    requires 0 < qu < U62 && 0 <= r < b
    requires Times(p, b as real) == Times((Product(b, qu) + r) as real, Exp2(e - 191))
    requires
      var k := Places(qu);
      var g := qu * Pow2(k);
      && U62 <= g < U63 && Fraction(h, l) == Kept(RoundedFraction(g, 1), true)
      && exp == e - k + (if g + 1 < U63 then 0 else 1)
    ensures Rounds(p, Times(Fraction(h, l) as real, Exp2(exp - 190)), Exp2(exp - 190), true) <==>
      r * Pow2(Places(qu)) < b
  {
    hide *;
    var k := Places(qu);
    var g, s := qu * Pow2(k), Exp2(exp - 191);
    ShiftedEven(qu, k, g);
    Exp2Next(exp - 191);
    // the result is g units of s
    TimesInt(g / 2, 2);
    TimesAssoc((g / 2) as real, 2.0, s);
    Exp2Mul(e - 191 - k, k);
    Exp2OfPow2(k);
    TimesAssoc(s, Pow2(k) as real, 1.0);
    ShortUnits(qu, b, r, Pow2(k), s, p);
    RoundsTwice(p, Times((g / 2) as real, Times(2.0, s)), s);
  }

  lemma {:induction false} RoundsTwice(p: real, v: real, s: real)
    ensures Rounds(p, v, 2.0 * s, true) <==> v - s <= p < v + s
  {
  }

  /** A fraction that was shifted is even, so rounding neither changes nor carries. */
  lemma {:induction false} ShiftedEven(qu: int, k: nat, g: int)
    requires 0 < qu < U62 && k == Places(qu) && g == qu * Pow2(k) && U62 <= g < U63
    ensures g % 2 == 0 && g / 2 * 2 == g && k >= 0 && g + 1 < U63 && Kept(RoundedFraction(g, 1), true) == g / 2
  {
    assert k > 0 && Pow2(k) == 2 * Pow2(k - 1);
    EvenProduct(qu, Pow2(k - 1));
    hide Pow2, Places;
    assert g % 2 == 0;
    EvenBelow(g);
  }

  lemma {:induction false} EvenBelow(g: int)
    requires g % 2 == 0 && 0 <= g < U63
    ensures g + 1 < U63 && (g + 1) / 2 == g / 2 && (g + 1) % U63 == g + 1
  {
  }

  lemma {:induction false} EvenProduct(x: int, y: int)
    ensures x * (2 * y) % 2 == 0
  {
    assert x * (2 * y) == 2 * (x * y);
  }

  lemma {:induction false} ShortUnits(qu: int, b: int, r: int, n: int, s: real, p: real)
    requires 0 <= r < b && 1 <= n && s > 0.0
    requires Times(p, b as real) == Times((Product(b, qu) + r) as real, Times(n as real, s))
    ensures
      var v := Times((qu * n) as real, s);
      v - s <= p < v + s <==> r * n < b
  {
    hide Times, Product;
    var v, w := Times((qu * n) as real, s), b as real;
    UnitsApart(qu, b, r, n, s);
    NotNegative(r, n);
    TimesMono(0.0, (r * n) as real, s);
    TimesNone(s);
    TimesStrictLeft(p, v, w);
    TimesAdd(v, s, w);
    TimesStrictLeft(p, v + s, w);
    TimesAdd(v - s, s, w);
    TimesStrictLeft(p, v - s, w);
    TimesAssoc(s, w, 1.0);
    TimesPositive(w, s);
    TimesStrictLeft((r * n) as real, w, s);
  }

  /** The dividend is `r * n` units of `s` more than the divisor times `qu * n` of them. */
  lemma {:induction false} UnitsApart(qu: int, b: int, r: int, n: int, s: real)
    ensures Times((Product(b, qu) + r) as real, Times(n as real, s)) ==
      Times(Times((qu * n) as real, s), b as real) + Times((r * n) as real, s)
  {
    hide Times, Product;
    var w := b as real;
    TimesInt(Product(b, qu) + r, n);
    TimesInt(qu * n, b);
    ExpandProduct(qu, b, r, n);
    TimesAssoc((Product(b, qu) + r) as real, n as real, s);
    TimesAdd((qu * n * b) as real, (r * n) as real, s);
    TimesAssoc((qu * n) as real, s, w);
    TimesAssoc(s, w, 1.0);
    TimesAssoc((qu * n) as real, w, s);
  }

  lemma {:induction false} ExpandProduct(qu: int, b: int, r: int, n: int)
    ensures (Product(b, qu) + r) * n == qu * n * b + r * n
  {
    assert qu * n * b == b * qu * n;
  }

  lemma {:induction false} NotNegative(x: int, y: int)
    requires x >= 0 && y >= 0
    ensures x * y >= 0
  {
  }

  lemma {:induction false} TimesNone(x: real)
    ensures Times(0.0, x) == 0.0
  {
  }

  lemma {:induction false} UnitsOf(n: int, v: real, b: int, w: real, u: real, e: int, f: int)
    requires v == Exp2(e) && w == Exp2(f) && u == Exp2(e + f)
    ensures Times(Times(n as real, v), Times(b as real, w)) == Times(Product(b, n) as real, u)
  {
    TimesInt(n, b);
    assert Product(b, n) == n * b;
    hide Times, Exp2, Product;
    Exp2Mul(e, f);
    TimesAssoc(n as real, v, Times(b as real, w));
    TimesAssoc(v, b as real, w);
    TimesAssoc(b as real, v, w);
    TimesAssoc(n as real, b as real, Times(v, w));
  }

  lemma {:induction false} TimesPositive(x: real, y: real)
    requires x > 0.0 && y > 0.0
    ensures Times(x, y) > 0.0
  {
  }

  lemma {:induction false} TimesStrict(x: real, y: real, z: real)
    requires x < y && z > 0.0
    ensures Times(x, z) < Times(y, z)
  {
  }

  /** Products by a positive number keep the order of the factors, so also reflect it. */
  lemma {:induction false} TimesStrictLeft(x: real, y: real, z: real)
    requires z > 0.0
    ensures x < y <==> Times(x, z) < Times(y, z)
  {
    if x < y { TimesStrict(x, y, z); } else { TimesMono(y, x, z); }
  }

  /** The division of a fraction by another that passed the divide check.  `q` is the
      magnitude that is rounded: the quotient itself, unless the dividend is so far from
      normalized that doubling it once leaves it below the divisor. */
  method DivideBy(cpu: Cpu, a: Ufp, b: Ufp, ghost x: real, ghost y: real)
    returns (h: word, l: word, ghost exp: int, ghost q: real)
    requires a != b && a.flo == 0 && 1 < a.fhi < 2 * b.fhi && a.fhi < U63 && b.fhi < U63
    requires IsExact(a.fhi, a.exp, x) && IsExact(b.fhi, b.exp, y)
    modifies cpu`flags, a
    ensures cpu.flags == old(cpu.flags) + RangeFlags(exp)
    ensures y > 0.0 && IsRounded(q, h, l, exp, true, true)
    ensures if 2 * old(a.fhi) >= b.fhi then q == Ratio(x, y)
            else q <= Ratio(x, y) < q + Exp2(old(a.exp) - b.exp - 63)
    ensures IsRounded(Ratio(x, y), h, l, exp, true, true) <==> RoundsRight(old(a.fhi), b.fhi)
    ensures Tsts(h) <==> old(a.sign != b.sign)
  {
    hide IsExact, IsRounded, Tsts, InUnit, RangeFlags, Ratio, Exp2, Times, RoundsRight, Places, Pow2, Kept, RoundedFraction, Fraction, Exponent, IsFloor;
    ghost var a0, e0 := a.fhi, a.exp;
    a.sign := a.sign != b.sign;
    ghost var e := a.exp;
    a.exp := a.exp - b.exp + 128 + 1;
    if a.fhi < b.fhi {
      DoubleFraction(a.fhi, e, x);
      ShiftLeft(a.fhi);
      e := e - 1;
      a.fhi := a.fhi * 2 % U64;
      a.exp := a.exp - 1;
    }
    var qu := DivideFraction(a.fhi, b.fhi);
    QuotientUnit(a.fhi, e, x, b.fhi, b.exp, y, qu);
    QuotientPositive(a.fhi, b.fhi, qu);
    a.fhi := qu;
    q := if 2 * old(a.fhi) >= b.fhi then Ratio(x, y) else Times(qu as real, Exp2(a.exp - 191));
    UnitBelow(qu, a.exp, Ratio(x, y));
    h, l, exp := NormPack(cpu, a, true, true, q);
    WhenRight(a0, e0, x, b.fhi, b.exp, y, qu, q, h, l, exp);
  }

  /** When the rounded number is the rounded quotient. */
  lemma {:induction false} WhenRight(a: int, ea: int, x: real, b: int, eb: int, y: real, qu: int, q: real, h: word, l: word, exp: int)
    requires IsExact(a, ea, x) && IsExact(b, eb, y) && 1 < a < 2 * b && b < U63 && 0 < qu < U63
    requires IsRounded(q, h, l, exp, true, true) && (2 * a >= b ==> q == Ratio(x, y))
    requires 2 * a < b ==> IsFloor(qu, 2 * a * U62, b)
    requires
      var k := Places(qu);
      var g := qu * Pow2(k);
      && U62 <= g < U63 && Fraction(h, l) == Kept(RoundedFraction(g, 1), true)
      && exp == (ea - eb + 128) - k + (if g + 1 < U63 then 0 else 1) + if a < b then 0 else 1
    ensures IsRounded(Ratio(x, y), h, l, exp, true, true) <==> RoundsRight(a, b)
  {
    hide IsExact, Ratio, Times, Exp2, Fraction, Kept, RoundedFraction, Places, Pow2, Product, IsFloor, Rounds;
    if 2 * a < b {
      var r := 2 * a * U62 - Product(b, qu);
      QuotientRange(a, b);
      FloorQuotient(qu, 2 * a * U62, b);
      DoubleFraction(a, ea, x);
      ScaledQuotient(2 * a, ea - 1, x, b, eb, y);
      ShortQuotient(qu, ea - eb + 128, b, r, Ratio(x, y), h, l, exp);
    }
  }

  lemma {:induction false} FloorQuotient(qu: int, n: int, b: int)
    requires b > 0 && IsFloor(qu, n, b)
    ensures qu == n / b && n % b == n - Product(b, qu) && 0 <= n % b < b
  {
    DivModUnique(n, b, qu, n - Product(b, qu));
  }

  lemma {:induction false} QuotientPositive(a: int, b: int, qu: int)
    requires 0 < b < U63 && 2 <= a && IsFloor(qu, a * U62, b)
    ensures qu > 0
  {
    assert qu <= 0 ==> Product(b, qu + 1) <= b;
  }

  lemma {:induction false} UnitBelow(qu: int, exp: int, p: real)
    requires InUnit(qu, exp, p)
    ensures var q := Times(qu as real, Exp2(exp - 191));
      IsExact(qu, exp, q) && q <= p < q + Exp2(exp - 191)
  {
    TimesAdd(qu as real, 1.0, Exp2(exp - 191));
  }

  /** The result of a division that passed the divide check: the quotient of the numbers,
      rounded; or, if that is not right, a number below it by less than a unit of the 63-bit
      integer quotient, rounded. */
  ghost predicate IsRoundedQuotient(h: word, l: word, rs0: word, rs1: word, r0: word, r1: word, exp: int, q: real) {
    var p := Ratio(FpMagnitude(h, l), FpMagnitude(rs0, rs1));
    && FpMagnitude(rs0, rs1) > 0.0
    && IsRounded(q, r0, r1, exp, true, true)
    && (if 2 * Unpacked(h, l) >= Unpacked(rs0, rs1) then q == p
        else q <= p < q + Exp2(UnpackedExp(h, l) - UnpackedExp(rs0, rs1) - 63))
    && 1 < Unpacked(h, l) < 2 * Unpacked(rs0, rs1)
    && (IsRounded(p, r0, r1, exp, true, true) <==> RoundsRight(Unpacked(h, l), Unpacked(rs0, rs1)))
    && (Tsts(r0) <==> Tsts(h) != Tsts(rs0))
  }

  /** The arithmetic of dfdv on its four words.  The divide check compares the unpacked fractions. */
  method DivideUnpacked(cpu: Cpu, h: word, l: word, rs0: word, rs1: word)
    returns (ok: bool, r0: word, r1: word, ghost exp: int, ghost q: real)
    modifies cpu`flags
    ensures ok <==> Unpacked(h, l) < 2 * Unpacked(rs0, rs1)
    ensures if !ok then cpu.flags == old(cpu.flags) + {AOV, DCK, FOV, T1}
            else if Unpacked(h, l) == 0 then cpu.flags == old(cpu.flags) && r0 == r1 == 0
            else cpu.flags == old(cpu.flags) + RangeFlags(exp) && IsRoundedQuotient(h, l, rs0, rs1, r0, r1, exp, q)
  {
    hide Fraction, Exponent, Unpacked, UnpackedExp, FpMagnitude, IsExact, IsRounded, Times, Tsts, InUnit, RangeFlags, Ratio;
    var a := new Ufp();
    var b := new Ufp();
    Unpack(h, l, a);
    Unpack(rs0, rs1, b);
    exp, q := 0, 0.0;
    UnpackedExact(h, l);
    UnpackedExact(rs0, rs1);
    if a.fhi >= 2 * b.fhi {
      cpu.flags := cpu.flags + {AOV, DCK, FOV, T1};
      return false, 0, 0, 0, 0.0;
    }
    ok := true;
    if a.fhi != 0 {
      r0, r1, exp, q := DivideBy(cpu, a, b, FpMagnitude(h, l), FpMagnitude(rs0, rs1));
    } else {
      r0, r1 := PackZero(cpu, a);
    }
  }

  /** An input for which dfdv is wrong: the smallest dividend fraction by three quarters. The loop
      gives 2 for a quotient of 8/3 units. */
  lemma {:induction false} NotAlwaysRight()
    ensures
      var h, l, rs0, rs1 := 128 * F27, 1, 128 * F27 + 0x600_0000, 0;
      && Unpacked(h, l) == 2 && Unpacked(rs0, rs1) == 0x6000_0000_0000_0000
      && !RoundsRight(Unpacked(h, l), Unpacked(rs0, rs1))
  {
    hide Unpacked, Places, Pow2;
    SmallFractions();
    var k := Places(2);
    PlacesOfTwo();
    var n, b := 2 * 2 * U62, 0x6000_0000_0000_0000;
    DivModUnique(n, b, 2, 0x4000_0000_0000_0000);
    assert RoundsRight(2, b) <==> 0x4000_0000_0000_0000 * Pow2(k) < b;
  }

  lemma {:induction false} PlacesOfTwo()
    ensures var k := Places(2); k > 0 && Pow2(k) == 2 * Pow2(k - 1)
  {
  }

  lemma {:induction false} SmallFractions()
    ensures Unpacked(128 * F27, 1) == 2 && Unpacked(128 * F27 + 0x600_0000, 0) == 0x6000_0000_0000_0000
  {
  }

  /** By a half, the same dividend is divided exactly. */
  lemma {:induction false} RightThoughSmall()
    ensures RoundsRight(2, U62)
  {
    assert 2 * 2 * U62 % U62 == 0;
  }

  /** A zero fraction packs to zero words, whatever its sign and exponent were. */
  method PackZero(cpu: Cpu, a: Ufp) returns (h: word, l: word)
    requires a.fhi == a.flo == 0
    modifies cpu`flags, a
    ensures h == l == 0 && cpu.flags == old(cpu.flags)
  {
    ghost var k := a.Fnorm(1);
    h, l := Fpack(cpu, a, true, false);
    ZeroWords(h, l);
  }

  /** DFDV: the quotient of two double-precision numbers, rounded to 62 fraction bits. */
  method Dfdv(cpu: Cpu, ac: nat, rs0: word, rs1: word) returns (ghost exp: int, ghost q: real)
    requires cpu.Valid() && ac < 16
    modifies cpu`flags, cpu.acs
    ensures
      var h, l := old(cpu.acs[ac]), old(cpu.acs[Addac(ac, 1)]);
      if Unpacked(h, l) >= 2 * Unpacked(rs0, rs1) then
        cpu.flags == old(cpu.flags) + {AOV, DCK, FOV, T1} && cpu.acs[..] == old(cpu.acs[..])
      else
        && (forall k :: 2 <= k < 16 ==> cpu.acs[Addac(ac, k)] == old(cpu.acs[Addac(ac, k)]))
        && if Unpacked(h, l) == 0 then
             cpu.flags == old(cpu.flags) && cpu.acs[ac] == cpu.acs[Addac(ac, 1)] == 0
           else
             && cpu.flags == old(cpu.flags) + RangeFlags(exp)
             && IsRoundedQuotient(h, l, rs0, rs1, cpu.acs[ac], cpu.acs[Addac(ac, 1)], exp, q)
  {
    hide IsRoundedQuotient, Unpacked, RangeFlags;
    var p1 := Addac(ac, 1);
    var ok, r0, r1;
    ok, r0, r1, exp, q := DivideUnpacked(cpu, cpu.acs[ac], cpu.acs[p1], rs0, rs1);
    if ok {
      cpu.acs[ac] := r0;
      cpu.acs[p1] := r1;
    }
  }

  lemma {:induction false} DoubleFraction(f: int, e: int, x: real)
    requires IsExact(f, e, x)
    ensures IsExact(2 * f, e - 1, x)
  {
    Exp2Next(e - 192);
    TimesTwice(f as real, Exp2(e - 192));
  }
}
