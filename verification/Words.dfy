/** The 36-bit words of the KS10 and the operations of pdp10_defs.h on them.

    The simulator keeps a word in a 64-bit integer and masks it after each step.
    Here a word is an integer in [0, 2^36); `& DMASK` is `% 2^36`, `& MMASK` is
    `% 2^35` and `& SIGN` tests bit 35.  On negative operands these agree with
    two's complement, because `/` and `%` by a positive constant round down.
    An `|` of values without common bits is written as a sum. */
module Words {
  const W18 := 0x4_0000
  const W35 := 0x8_0000_0000
  const W36 := 0x10_0000_0000
  const W70 := 0x40_0000_0000_0000_0000
  /** What an unsigned integer of 64 bits holds. */
  const U64 := 0x1_0000_0000_0000_0000

  type word = x: int | 0 <= x < W36

  datatype Flag = AOV | C0 | C1 | FOV | FPD | USR | UIO | FXU | DCK | T1 | T2

  function Addac(ac: nat, i: nat): (r: nat)
    ensures r < 16
    ensures ac < 16 && i < 16 ==> r == if ac + i < 16 then ac + i else ac + i - 16
  {
    (ac + i) % 16
  }

  predicate Tsts(x: int) {
    x / W35 % 2 == 1
  }

  function Sets(x: int): int {
    if Tsts(x) then x else x + W35
  }

  function Clrs(x: int): (r: int)
    ensures 0 <= x < W36 ==> r == x % W35
  {
    if Tsts(x) then x - W35 else x
  }

  function Neg(x: int): int {
    -x % W36
  }

  function Abs(x: word): (a: int)
    ensures 0 <= a <= W35 && a == Magnitude(Signed(x))
    ensures Tsts(x) <==> Signed(x) < 0
  {
    if Tsts(x) then Neg(x) else x
  }

  /** The two's complement reading of a word. */
  function Signed(x: word): int {
    if x < W35 then x else x - W36
  }

  /** A double-precision integer: the sign of the low word is ignored. */
  function Signed2(hi: word, lo: word): int {
    Signed(hi) * W35 + lo % W35
  }

  /** A quadruple-precision integer, in four successive words. */
  function Signed4(w0: word, w1: word, w2: word, w3: word): int {
    Signed2(w0, w1) * W70 + w2 % W35 * W35 + w3 % W35
  }

  function Magnitude(n: int): nat {
    if n < 0 then -n else n
  }

  lemma {:induction false} NegateWord(x: int, m: int)
    requires 0 <= x < m
    ensures -x % m == if x == 0 then 0 else m - x
  {
    if x != 0 {
      DivModUnique(-x, m, -1, m - x);
    }
  }

  lemma {:induction false} NegateLow(lo: int)
    requires 0 <= lo < W36
    ensures -lo % W35 == if lo % W35 == 0 then 0 else W35 - lo % W35
  {
  }

  lemma {:induction false} NegateHigh(hi: int, carry: int)
    requires 0 <= hi < W36 && 0 <= carry <= 1
    ensures (-hi - 1 + carry) % W36 == if carry == 1 && hi == 0 then 0 else W36 - hi - 1 + carry
  {
    NegateWord(if carry == 1 then hi else hi + 1 - (if hi == W36 - 1 then W36 else 0), W36);
  }

  /** DMOVN: negate a double word, clearing the sign of the low word. */
  function Dmovn(hi: int, lo: int): (rs: (int, int))
    requires 0 <= hi < W36 && 0 <= lo < W36
    ensures 0 <= rs.0 < W36 && 0 <= rs.1 < W35 && (lo % W35 == 0 ==> rs.1 == 0)
    ensures rs.0 * W35 + rs.1 == if hi == 0 && lo % W35 == 0 then 0 else 2 * W70 - (hi * W35 + lo % W35)
  {
    NegateLow(lo);
    var lo' := -lo % W35;
    var carry := if lo' == 0 then 1 else 0;
    NegateHigh(hi, carry);
    ((-hi - 1 + carry) % W36, lo')
  }

  /** MKDNEG: negate a double word and give both words the sign. */
  function Mkdneg(hi: int, lo: int): (rs: (int, int))
    requires 0 <= hi < W36 && 0 <= lo < W35
    ensures 0 <= rs.0 < W36 && W35 <= rs.1 < W36
    ensures rs.0 * W35 + (rs.1 - W35) == if hi == 0 && lo == 0 then 0 else 2 * W70 - (hi * W35 + lo)
  {
    var lo' := Sets(-lo) % W36;
    ((-hi - 1 + (if lo' == W35 then 1 else 0)) % W36, lo')
  }

  /** DCMPGE: unsigned comparison of double words. */
  predicate Dcmpge(a0: int, a1: int, b0: int, b1: int) {
    a0 > b0 || (a0 == b0 && a1 >= b1)
  }

  /** The number in two words, of 36 and 35 bits. */
  function Double(hi: int, lo: int): (v: int)
    ensures hi >= 0 && lo >= 0 ==> v >= 0
  {
    hi * W35 + lo
  }

  lemma {:induction false} SubtractDouble(a0: int, a1: int, b0: int, b1: int)
    requires 0 <= a1 < W35 && 0 <= b1 < W35
    ensures Dcmpge(a0, a1, b0, b1) <==> Double(a0, a1) >= Double(b0, b1)
    ensures var c0, c1 := a0 - b0 - if a1 < b1 then 1 else 0, (a1 - b1) % W35;
      Double(c0, c1) == Double(a0, a1) - Double(b0, b1) && (Double(a0, a1) >= Double(b0, b1) ==> c0 >= 0)
  {
  }

  function Pow2(n: nat): (p: nat)
    ensures p > 0
  {
    if n == 0 then 1 else 2 * Pow2(n - 1)
  }

  lemma {:induction false} Pow2Add(m: nat, n: nat)
    ensures Pow2(m + n) == Pow2(m) * Pow2(n)
  {
    if m > 0 {
      Pow2Add(m - 1, n);
    }
  }

  lemma {:induction false} Pow2Values()
    ensures Pow2(18) == W18 && Pow2(27) == 0x800_0000 && Pow2(32) == 0x1_0000_0000
    ensures Pow2(35) == W35 && Pow2(36) == W36 && Pow2(70) == W70
  {
    assert Pow2(9) == 0x200 && Pow2(5) == 0x20 && Pow2(36) == 2 * Pow2(35);
    hide Pow2;
    Pow2Add(9, 9);
    Pow2Add(9, 18);
    Pow2Add(18, 18);
    Pow2Add(35, 35);
    Pow2Add(5, 27);
  }

  /** Quotient and remainder by a positive number are determined by their defining equation. */
  lemma {:induction false} DivModUnique(x: int, m: int, k: int, r: int)
    requires m > 0 && x == k * m + r && 0 <= r < m
    ensures x / m == k && x % m == r
  {
    var d := x / m - k;
    assert d * m == r - x % m;
    assert d >= 1 ==> d * m >= m;
    assert d <= -1 ==> d * m <= -m;
  }

  lemma {:induction false} SumModulo(x: int, y: int)
    ensures (x % W18 + y) % W18 == (x + y) % W18
  {
  }

  lemma {:induction false} MulLe(a: int, b: int, c: int)
    requires a <= b && c >= 0
    ensures a * c <= b * c
  {
  }

  /** The product of integers, named so that proofs can treat it as a symbol. */
  function Product(x: int, y: int): int {
    x * y
  }

  lemma {:induction false} ProductAdd(x: int, y: int, z: int)
    ensures Product(x, y + z) == Product(x, y) + Product(x, z)
    ensures Product(x, y) == Product(y, x) && Product(x, 0) == 0 && Product(x, 1) == x
  {
  }

  lemma {:induction false} ProductMono(x: int, y: int, z: int)
    requires x <= y && z >= 0
    ensures Product(z, x) <= Product(z, y)
  {
  }
}
