/** Fixed-point multiply and divide of the KS10 (pdp10_mdfp.c).

    The scratch arrays `rs`, `dvd` and `qu` of the source are local variables or
    results here; the accumulators and the flags are the state of the processor. */
module MulDiv {
  import opened Words

  /** Division that truncates toward zero: the remainder has the sign of the dividend. */
  predicate TruncDiv(n: int, d: int, q: int, r: int) {
    && n == q * d + r
    && Magnitude(r) < Magnitude(d)
    && (r != 0 ==> (r < 0 <==> n < 0))
  }

  /** A dividend and a divisor determine quotient and remainder. */
  lemma {:induction false} TruncDivUnique(n: int, d: int, q: int, r: int, q': int, r': int)
    requires TruncDiv(n, d, q, r) && TruncDiv(n, d, q', r')
    ensures q == q' && r == r'
  {
    assert (q - q') * d == r' - r && (q' - q) * d == r - r';
    if q > q' {
      MagnitudeGrows(q - q', d);
      assert false;
    } else if q < q' {
      MagnitudeGrows(q' - q, d);
      assert false;
    }
  }

  lemma {:induction false} MagnitudeGrows(k: int, d: int)
    requires k >= 1
    ensures Magnitude(k * d) >= Magnitude(d)
  {
    if d >= 0 {
      assert k * d >= d;
    } else {
      assert k * -d >= -d;
    }
  }

  function NegIf(minus: bool, x: int): int {
    if minus then Neg(x) else x
  }

  lemma {:induction false} NegIfValue(minus: bool, x: int)
    requires 0 <= x < W35
    ensures 0 <= NegIf(minus, x) < W36
    ensures Signed(NegIf(minus, x)) == if minus then -x else x
  {
  }

  /** Signs put back on an unsigned division. */
  lemma {:induction false} SignTrunc(n: int, d: int, q: int, r: int)
    requires 0 <= q && 0 <= r < Magnitude(d) && Magnitude(n) == q * Magnitude(d) + r
    ensures TruncDiv(n, d, if (n < 0) != (d < 0) then -q else q, if n < 0 then -r else r)
  {
    assert (-q) * d == q * -d && (-q) * d == -(q * d);
  }

  /** The same with the results as words. */
  lemma {:induction false} SignedDivision(n: int, d: int, q: int, r: int)
    requires 0 <= q < W35 && 0 <= r < Magnitude(d) <= W35 && Magnitude(n) == q * Magnitude(d) + r
    ensures 0 <= NegIf((n < 0) != (d < 0), q) < W36 && 0 <= NegIf(n < 0, r) < W36
    ensures TruncDiv(n, d, Signed(NegIf((n < 0) != (d < 0), q)), Signed(NegIf(n < 0, r)))
  {
    NegIfValue((n < 0) != (d < 0), q);
    NegIfValue(n < 0, r);
    SignTrunc(n, d, q, r);
  }

  // ---------------------------------------------------------------- shift and subtract

  /** One step of shift-and-subtract division.  `x` is the quotient so far times the
      divisor plus the remainder; `l`, scaled by `p`, is what is left of the low part
      of the dividend, whose top bit `b` moves up. */
  lemma {:induction false} ShiftStep(x: int, l: int, s: int, h: int, p: int, w: int, b: int)
    requires s == 2 * h && h > 0 && p > 0 && s * p == 2 * w && 0 <= l < s
    requires b == if l * p >= w then 1 else 0
    ensures 0 <= l - b * h < h
    ensures h * (2 * p) == 2 * w
    ensures (l - b * h) * (2 * p) == 2 * (l * p) - b * (2 * w)
    ensures (2 * x + b) * h + (l - b * h) == x * s + l
  {
    assert h * p == w;
    if l >= h {
      assert l * p >= h * p;
    } else {
      assert l * p < h * p;
    }
  }

  lemma {:induction false} NextQuotient(q: int, d: int, r: int, bit: int)
    ensures (2 * q) * d + (2 * r + bit) == 2 * (q * d + r) + bit
    ensures (2 * q + 1) * d + (2 * r + bit - d) == 2 * (q * d + r) + bit
  {
  }

  /** Shifting one 35-bit word left: the top bit leaves, `carry` enters. */
  lemma {:induction false} WordShift(b: int, carry: int) returns (top: int)
    requires 0 <= b < W35 && 0 <= carry <= 1
    ensures top == b / 0x4_0000_0000 % 2 && 0 <= top <= 1
    ensures (b * 2 + carry) % W35 == b * 2 + carry - top * W35
    ensures top == if b >= 0x4_0000_0000 then 1 else 0
  {
    top := b / 0x4_0000_0000;
  }

  /** After `i` steps, with `k` to go: `q` and `r` are quotient and remainder of the part
      of the dividend `n` already moved up; `l` is the part still to come, kept in the
      low part of the dividend as `low`, which is less than `w`. */
  ghost predicate Dividing(q: int, r: int, low: int, d: int, n: int, l: int, w: int, i: nat, k: nat) {
    && 0 <= r < d
    && Pow2(k) * Pow2(i) == w
    && 0 <= l < Pow2(k) && l * Pow2(i) == low
    && (q * d + r) * Pow2(k) + l == n
  }

  lemma {:induction false} DividingStep(q: int, r: int, low: int, d: int, n: int, l: int, h: int, i: nat, k: nat,
                     q': int, r': int, low': int) returns (l': int)
    requires k > 0 && Dividing(q, r, low, d, n, l, 2 * h, i, k)
    requires var bit := if low >= h then 1 else 0;
      && low' == 2 * low - bit * (2 * h)
      && if 2 * r + bit >= d then r' == 2 * r + bit - d && q' == 2 * q + 1 else r' == 2 * r + bit && q' == 2 * q
    ensures Dividing(q', r', low', d, n, l', 2 * h, i + 1, k - 1)
  {
    var bit := if low >= h then 1 else 0;
    l' := l - bit * Pow2(k - 1);
    ShiftStep(q * d + r, l, Pow2(k), Pow2(k - 1), Pow2(i), h, bit);
    NextQuotient(q, d, r, bit);
  }

  /** The four words a quadruple dividend is shifted in, and the two of its quotient. */
  datatype Quotient = Quotient(d0: int, d1: int, d2: int, d3: int, q0: int, q1: int) {
    predicate Wf() {
      0 <= d0 < W36 && 0 <= d1 < W35 && 0 <= d2 < W35 && 0 <= d3 < W35 && 0 <= q0 && 0 <= q1 < W35
    }

    function High(): int { d0 * W35 + d1 }

    function Low(): int { d2 * W35 + d3 }

    function Quo(): int { q0 * W35 + q1 }

    /** Both double words of the dividend and the quotient, shifted left by one. */
    function Shift(): Quotient {
      Quotient((d0 * 2 + d1 / 0x4_0000_0000 % 2) % W36,
               (d1 * 2 + d2 / 0x4_0000_0000 % 2) % W35,
               (d2 * 2 + d3 / 0x4_0000_0000 % 2) % W35,
               d3 * 2 % W35,
               q0 * 2 + q1 / 0x4_0000_0000 % 2,
               q1 * 2 % W35)
    }

    /** The divisor subtracted from the high double word. */
    function Subtract(b0: int, b1: int): Quotient {
      this.(d0 := d0 - b0 - (if d1 < b1 then 1 else 0), d1 := (d1 - b1) % W35, q1 := q1 + 1)
    }

    lemma {:induction false} ShiftValue()
      requires Wf() && High() < W70
      ensures Shift().Wf()
      ensures var bit := if Low() >= W70 / 2 then 1 else 0;
        && Shift().High() == 2 * High() + bit
        && Shift().Low() == 2 * Low() - bit * W70
      ensures Shift().Quo() == 2 * Quo() && Shift().q1 + 1 < W35
    {
      hide Shift;
      var t1, t2, t3, t := ShiftWords();
      TopHalf(d2, d3);
    }

    /** The words after a shift, with the bits that moved up between them. */
    lemma {:induction false} ShiftWords() returns (t1: int, t2: int, t3: int, t: int)
      requires Wf() && High() < W70
      ensures Shift() == Quotient(2 * d0 + t1, 2 * d1 + t2 - t1 * W35, 2 * d2 + t3 - t2 * W35, 2 * d3 - t3 * W35, 2 * q0 + t, 2 * q1 - t * W35)
      ensures Shift().Wf() && (t2 == if d2 >= 0x4_0000_0000 then 1 else 0)
    {
      t3 := WordShift(d3, 0);
      t2 := WordShift(d2, t3);
      t1 := WordShift(d1, t2);
      t := WordShift(q1, 0);
      assert 0 <= d0 * 2 + t1 < W36;
    }

    lemma {:induction false} StepValue(b0: int, b1: int)
      requires Wf() && 0 <= b1 < W35 && 0 <= High() < b0 * W35 + b1 <= W70
      ensures Shift().Wf()
      ensures
        var d := b0 * W35 + b1;
        var bit := if Low() >= W70 / 2 then 1 else 0;
        var r := 2 * High() + bit;
        var s := Shift();
        && (Dcmpge(s.d0, s.d1, b0, b1) <==> r >= d)
        && s.Low() == 2 * Low() - bit * W70
        && s.High() == r && s.Quo() == 2 * Quo()
        && (r >= d ==> var t := s.Subtract(b0, b1);
            t.Wf() && t.High() == r - d && t.Quo() == 2 * Quo() + 1 && t.Low() == s.Low())
    {
      ShiftValue();
      SubtractDouble(Shift().d0, Shift().d1, b0, b1);
    }
  }

  lemma {:induction false} TopHalf(hi: int, lo: int)
    requires 0 <= lo < W35
    ensures hi * W35 + lo >= W70 / 2 <==> hi >= 0x4_0000_0000
  {
  }

  lemma {:induction false} DividingStart(high: int, low: int, d: int, w: int, k: nat)
    requires 0 <= high < d && 0 <= low < w && Pow2(k) == w
    ensures Dividing(0, high, low, d, high * w + low, low, w, 0, k)
  {
  }

  lemma {:induction false} DividingEnd(q: int, r: int, low: int, d: int, n: int, l: int, w: int, i: nat, k: nat)
    requires Dividing(q, r, low, d, n, l, w, i, k)
    ensures 0 <= r < d && (k == 0 ==> n == q * d + r)
  {
    if k == 0 {
      assert Pow2(k) == 1;
    }
  }

  /** The 70-step loop of ddiv: the quotient of the quad word `w` by the double word
      `b0,b1`, and the remainder in the high double word. */
  method DivideQuad(w: Quotient, b0: int, b1: int) returns (s: Quotient)
    requires w.Wf() && w.Quo() == 0 && 0 <= b1 < W35
    requires 0 <= w.High() < b0 * W35 + b1 <= W70
    ensures s.Wf() && 0 <= s.High() < b0 * W35 + b1
    ensures w.High() * W70 + w.Low() == s.Quo() * (b0 * W35 + b1) + s.High()
  {
    hide Dividing, Pow2;
    s := w;
    ghost var d, n, l := b0 * W35 + b1, w.High() * W70 + w.Low(), w.Low();
    Pow2Values();
    WordRange(w.d2, w.d3);
    DividingStart(w.High(), w.Low(), d, W70, 70);
    var i := 0;
    while i < 70
      invariant 0 <= i <= 70 && s.Wf()
      invariant Dividing(s.Quo(), s.High(), s.Low(), d, n, l, W70, i, 70 - i)
    {
      DividingEnd(s.Quo(), s.High(), s.Low(), d, n, l, W70, i, 70 - i);
      ghost var s0 := s;
      s := DivideStep(s, b0, b1);
      l := DividingStep(s0.Quo(), s0.High(), s0.Low(), d, n, l, W70 / 2, i, 70 - i, s.Quo(), s.High(), s.Low());
      i := i + 1;
    }
    DividingEnd(s.Quo(), s.High(), s.Low(), d, n, l, W70, i, 0);
  }

  lemma {:induction false} WordRange(hi: int, lo: int)
    requires 0 <= hi < W35 && 0 <= lo < W35
    ensures 0 <= hi * W35 + lo < W70
  {
  }

  /** A step of the loop. */
  method DivideStep(w: Quotient, b0: int, b1: int) returns (s: Quotient)
    requires w.Wf() && 0 <= b1 < W35 && 0 <= w.High() < b0 * W35 + b1 <= W70
    ensures s.Wf()
    ensures
      var d := b0 * W35 + b1;
      var bit := if w.Low() >= W70 / 2 then 1 else 0;
      var r := 2 * w.High() + bit;
      && s.Low() == 2 * w.Low() - bit * W70
      && if r >= d then s.High() == r - d && s.Quo() == 2 * w.Quo() + 1 else s.High() == r && s.Quo() == 2 * w.Quo()
  {
    w.StepValue(b0, b1);
    s := w.Shift();
    if Dcmpge(s.d0, s.d1, b0, b1) {
      s := s.Subtract(b0, b1);
    }
  }

  /** The 35-step loop of divi: the quotient of the double word `n0,n1` by `d`. */
  method DivideDouble(n0: int, n1: int, d: int) returns (q: int, r: int)
    requires 0 <= n0 < d <= W35 && 0 <= n1 < W35
    ensures 0 <= q < W35 && 0 <= r < d && n0 * W35 + n1 == q * d + r
  {
    hide Dividing, Pow2;
    var low := n1;
    q, r := 0, n0;
    ghost var n, l := n0 * W35 + n1, n1;
    Pow2Values();
    DividingStart(n0, n1, d, W35, 35);
    var i := 0;
    while i < 35
      invariant 0 <= i <= 35 && 0 <= low < W35 && 0 <= q
      invariant Dividing(q, r, low, d, n, l, W35, i, 35 - i)
    {
      DividingEnd(q, r, low, d, n, l, W35, i, 35 - i);
      ghost var q0, r0, low0 := q, r, low;
      ghost var bit := WordShift(low, 0);
      r := r * 2 + low / 0x4_0000_0000 % 2;
      low := low * 2 % W35;
      q := q * 2;
      if r >= d {
        r := r - d;
        q := q + 1;
      }
      l := DividingStep(q0, r0, low0, d, n, l, W35 / 2, i, 35 - i, q, r, low);
      i := i + 1;
    }
    DividingEnd(q, r, low, d, n, l, W35, i, 0);
    QuotientBound(q, d, r, n0, n1, W35);
  }

  lemma {:induction false} QuotientBound(q: int, d: int, r: int, n0: int, n1: int, w: int)
    requires 0 <= n0 < d && 0 <= n1 < w && 0 <= r && n0 * w + n1 == q * d + r
    ensures q < w
  {
    assert (n0 + 1) * w <= d * w;
    assert q >= w ==> q * d >= w * d;
  }

  /** What the carry loop of ddiv leaves in one of the three low words. */
  function Complement(x: int, carry: bool): int {
    (-x - 1 + (if carry then 1 else 0)) % W35
  }

  lemma {:induction false} ComplementValue(x: int, carry: bool)
    requires 0 <= x < W35
    ensures Complement(x, carry) == if carry && x == 0 then 0 else if carry then W35 - x else W35 - 1 - x
  {
  }

  lemma {:induction false} QuadSign(a: word, b: int, c: int, d: int)
    requires 0 <= b < W35 && 0 <= c < W35 && 0 <= d < W35
    ensures Tsts(a) <==> Signed4(a, b, c, d) < 0
    ensures Signed4(a, b, c, d) == Signed(a) * W35 * W70 + b * W70 + c * W35 + d
  {
  }

  /** The negation loop of ddiv: from the low end, complement the three low words and
      carry into the high word. */
  method NegateQuad(a: int, b: int, c: int, d: int) returns (s: Quotient)
    requires W35 <= a < W36 && 0 <= b < W35 && 0 <= c < W35 && 0 <= d < W35
    ensures s.Wf() && s.Quo() == 0 && s.d0 <= W35
    ensures s.High() * W70 + s.Low() == -Signed4(a, b, c, d)
  {
    var dvd := [a, b, c, d];
    var i, cryin := 3, 1;
    while i > 0
      invariant 0 <= i <= 3 && |dvd| == 4 && dvd[0] == a
      invariant cryin == if (i >= 3 || d == 0) && (i >= 2 || c == 0) && (i >= 1 || b == 0) then 1 else 0
      invariant dvd[3] == if i >= 3 then d else Complement(d, true)
      invariant dvd[2] == if i >= 2 then c else Complement(c, d == 0)
      invariant dvd[1] == if i >= 1 then b else Complement(b, c == d == 0)
    {
      ComplementValue(dvd[i], cryin == 1);
      dvd := dvd[i := (-dvd[i] - 1 + cryin) % W35];
      if dvd[i] != 0 {
        cryin := 0;
      }
      i := i - 1;
    }
    ghost var t := QuadNegation(a, b, c, d, cryin);
    dvd := dvd[0 := (-dvd[0] - 1 + cryin) % W36];
    assert t == Quotient(dvd[0], dvd[1], dvd[2], dvd[3], 0, 0);
    return Quotient(dvd[0], dvd[1], dvd[2], dvd[3], 0, 0);
  }

  /** The four words after the carry loop, as one negation. */
  lemma {:induction false} QuadNegation(a: int, b: int, c: int, d: int, cryin: int) returns (s: Quotient)
    requires W35 <= a < W36 && 0 <= b < W35 && 0 <= c < W35 && 0 <= d < W35
    requires cryin == if b == c == d == 0 then 1 else 0
    ensures s == Quotient((-a - 1 + cryin) % W36, Complement(b, c == d == 0), Complement(c, d == 0), Complement(d, true), 0, 0)
    ensures s.Wf() && s.Quo() == 0 && s.d0 <= W35
    ensures s.High() * W70 + s.Low() == -Signed4(a, b, c, d)
  {
    s := Quotient((-a - 1 + cryin) % W36, Complement(b, c == d == 0), Complement(c, d == 0), Complement(d, true), 0, 0);
    hide Complement, Signed4;
    QuadSign(a, b, c, d);
    ComplementValue(d, true);
    ComplementValue(c, d == 0);
    ComplementValue(b, c == d == 0);
    assert s.d0 == W36 - 1 - a + cryin;
  }

  /** The magnitude of a quad word, without the signs of the three low words. */
  method AbsQuad(w0: word, w1: word, w2: word, w3: word) returns (s: Quotient)
    ensures s.Wf() && s.Quo() == 0 && s.d0 <= W35
    ensures s.High() * W70 + s.Low() == Magnitude(Signed4(w0, w1, w2, w3))
    ensures Tsts(w0) <==> Signed4(w0, w1, w2, w3) < 0
  {
    var b, c, d := Clrs(w1), Clrs(w2), Clrs(w3);
    QuadSign(w0, b, c, d);
    if Tsts(w0) {
      s := NegateQuad(w0, b, c, d);
    } else {
      s := Quotient(w0, b, c, d, 0, 0);
    }
  }

  // ---------------------------------------------------------------- multiplication

  /** The product of two operands split in halves of 18 bits. */
  lemma {:induction false} SplitProduct(a0: int, a1: int, b0: int, b1: int)
    ensures (a1 * W18 + a0) * (b1 * W18 + b0) == a1 * b1 * 2 * W35 + (a0 * b0 + (a0 * b1 + b0 * a1) * W18)
  {
    calc {
      (a1 * W18 + a0) * (b1 * W18 + b0);
      (a1 * W18) * (b1 * W18 + b0) + a0 * (b1 * W18 + b0);
      (a1 * W18) * (b1 * W18) + (a1 * W18) * b0 + a0 * (b1 * W18) + a0 * b0;
    }
    assert (a1 * W18) * (b1 * W18) == a1 * b1 * (W18 * W18);
    assert (a1 * W18) * b0 == b0 * a1 * W18 && a0 * (b1 * W18) == a0 * b1 * W18;
  }

  /** Neither way of multiplying exceeds 64 bits. */
  lemma {:induction false} SplitFits(a0: int, a1: int, b0: int, b1: int)
    requires 0 <= a0 < W18 && 0 <= b0 < W18 && 0 <= a1 <= 0x2_0000 && 0 <= b1 <= 0x2_0000
    ensures 0 <= (a0 * b1 + b0 * a1) * W18 < U64 && 0 <= a0 * b0 + (a0 * b1 + b0 * a1) * W18 < U64
    ensures 0 <= a1 * b1 * 2 + (a0 * b0 + (a0 * b1 + b0 * a1) * W18) / W35 < U64
  {
    ProductBound(a0, b0, W18, W18);
    ProductBound(a0, b1, W18, 0x2_0000);
    ProductBound(b0, a1, W18, 0x2_0000);
    ProductBound(a1, b1, 0x2_0000, 0x2_0000);
  }

  lemma {:induction false} NativeFits(a: int, b: int)
    requires 0 <= a < 0x1_0000_0000 && 0 <= b < 0x1_0000_0000
    ensures 0 <= a * b < U64
  {
    ProductBound(a, b, 0xFFFF_FFFF, 0xFFFF_FFFF);
  }

  lemma {:induction false} ProductBound(x: int, y: int, m: int, n: int)
    requires 0 <= x <= m && 0 <= y <= n
    ensures 0 <= x * y <= m * n
  {
    ProductPositive(x, y);
    MulLe(x, m, y);
    MulLe(y, n, m);
  }

  /** The product of magnitudes as two words, through halves of 18 bits. */
  method MultiplySplit(a: int, b: int) returns (hi: int, lo: int)
    requires 0 < a <= W35 && 0 < b <= W35
    ensures 0 <= lo < W35 && hi * W35 + lo == a * b
  {
    var t, u, a0, b0 := a / W18, b / W18, a % W18, b % W18;
    SplitFits(a0, t, b0, u);
    Fits64((a0 * u + b0 * t) * W18);
    Fits64(a0 * b0 + (a0 * u + b0 * t) * W18);
    ghost var low, high := a0 * b0 + (a0 * u + b0 * t) * W18, t * u;
    assert a * b == high * 2 * W35 + low by {
      SplitProduct(a0, t, b0, u);
      assert a == t * W18 + a0 && b == u * W18 + b0;
    }
    var r := (a0 * b0 + (a0 * u + b0 * t) * W18 % U64) % U64;
    assert r == low;
    Fits64(high * 2 + r / W35);
    hi, lo := (t * u * 2 + r / W35) % U64, r % W35;
    assert hi == high * 2 + r / W35;
  }

  lemma {:induction false} Fits64(x: int)
    requires 0 <= x < U64
    ensures x % U64 == x
  {
  }

  /** The product of magnitudes as two words, by the multiplication of the machine. */
  method MultiplyNative(a: int, b: int) returns (hi: int, lo: int)
    requires 0 < a < 0x1_0000_0000 && 0 < b < 0x1_0000_0000
    ensures 0 <= lo < W35 && hi * W35 + lo == a * b
  {
    NativeFits(a, b);
    var r := a * b % U64;
    assert r == a * b;
    hi, lo := r / W35, r % W35;
  }

  lemma {:induction false} ProductPositive(x: int, y: int)
    requires x >= 0 && y >= 0
    ensures x * y >= 0 && (x * y > 0 <==> x > 0 && y > 0)
  {
    if x > 0 {
      MulLe(1, x, y);
    }
  }

  lemma {:induction false} ProductRange(a: int, b: int, m: int)
    requires 0 < a <= m && 0 < b <= m
    ensures 0 < a * b <= m * m && (a * b == m * m <==> a == b == m)
  {
    ProductPositive(a, b);
    ProductPositive(m, m - b);
    ProductPositive(b, m - a);
    assert a * b == m * m - m * (m - b) - b * (m - a);
  }

  lemma {:induction false} ProductSign(a: int, b: int)
    ensures Magnitude(a * b) == Magnitude(a) * Magnitude(b)
    ensures a * b == 0 <==> a == 0 || b == 0
    ensures a * b != 0 ==> (a * b < 0 <==> (a < 0) != (b < 0))
  {
    assert a * b == -a * -b && -a * b == -(a * b) && a * -b == -(a * b);
  }

  /** The double word of a non-zero product, from the words of its magnitude. */
  lemma {:induction false} ProductWords(n: int, hi: int, lo: int)
    requires 0 <= lo < W35 && 0 < hi * W35 + lo == Magnitude(n) <= W70
    ensures 0 <= hi <= W35
    ensures n < 0 ==> var rs := Mkdneg(hi, lo); Signed2(rs.0, rs.1) == n && Tsts(rs.0) && Tsts(rs.1)
    ensures n > 0 ==> (Tsts(hi) <==> n == W70) && !Tsts(lo)
    ensures 0 < n < W70 ==> Signed2(hi, lo) == n
    ensures n == W70 ==> Signed2(hi, Sets(lo)) == -W70 && Tsts(Sets(lo))
  {
    assert 0 <= hi <= W35;
    if n < 0 {
      var rs := Mkdneg(hi, lo);
      assert rs.0 >= W35;
    }
  }

  /** The host's unsigned division. */
  lemma {:induction false} NativeDivision(n: int, d: int, w: int)
    requires 0 <= n && d > 0
    ensures n == n / d * d + n % d && 0 <= n % d < d && 0 <= n / d
    ensures n < d * w ==> n / d < w
  {
    var q := n / d;
    assert q >= w ==> q * d >= d * w;
  }

  /** When a double-word product fits one word, and its low bits. */
  lemma {:induction false} OneWord(n: int, hi: word, lo: word)
    requires Signed2(hi, lo) == n && Tsts(hi) == Tsts(lo)
    ensures hi == 0 || hi == W36 - 1 <==> -W35 <= n < W35
    ensures hi == 0 || hi == W36 - 1 ==> Signed(lo) == n
    ensures lo % W35 == n % W35 && (Tsts(lo) <==> n < 0)
  {
  }

  /** The same for the low word, with the sign of the product where it does not fit. */
  lemma {:induction false} LowWord(n: int, hi: word, lo: word, minus: bool)
    requires Signed2(hi, lo) == n && Tsts(hi) == Tsts(lo) && (n != 0 ==> (minus <==> n < 0))
    ensures hi == 0 || hi == W36 - 1 <==> -W35 <= n < W35
    ensures lo % W35 == n % W35
    ensures if hi == 0 || hi == W36 - 1 then Signed(lo) == n else
      var r := if minus then Sets(lo) else Clrs(lo);
      0 <= r < W36 && r % W35 == n % W35 && Signed(r) != n && (Signed(r) < 0 <==> n < 0)
  {
    OneWord(n, hi, lo);
    hide Signed2;
    if minus { WithSign(lo); } else { WithoutSign(lo); }
  }

  lemma {:induction false} WithSign(lo: word)
    ensures 0 <= Sets(lo) < W36 && Sets(lo) % W35 == lo % W35 && -W35 <= Signed(Sets(lo)) < 0
  {
  }

  lemma {:induction false} WithoutSign(lo: word)
    ensures 0 <= Clrs(lo) < W36 && Clrs(lo) % W35 == lo % W35 && 0 <= Signed(Clrs(lo)) < W35
  {
  }

  /** The one product that does not fit two words. */
  lemma {:induction false} Largest(a: word, b: word)
    ensures Signed(a) * Signed(b) == W70 <==> a == W35 && b == W35
    ensures W35 % W35 == W70 % W35 && Signed(W35) == -W35
  {
    ProductSign(Signed(a), Signed(b));
    if Signed(a) != 0 && Signed(b) != 0 {
      ProductRange(Magnitude(Signed(a)), Magnitude(Signed(b)), W35);
    }
  }

  lemma {:induction false} SignOfProduct(a: word, b: word)
    ensures var n := Signed(a) * Signed(b); n != 0 ==> (Tsts(a) != Tsts(b) <==> n < 0)
  {
    ProductSign(Signed(a), Signed(b));
    assert Tsts(a) <==> Signed(a) < 0;
    assert Tsts(b) <==> Signed(b) < 0;
  }

  /** The magnitude of a double word, as two words. */
  method AbsDouble(hi: word, lo: word) returns (n0: int, n1: int)
    ensures 0 <= n0 <= W35 && 0 <= n1 < W35 && n0 * W35 + n1 == Magnitude(Signed2(hi, lo)) <= W70
    ensures Tsts(hi) <==> Signed2(hi, lo) < 0
  {
    n0, n1 := hi, Clrs(lo);
    if Tsts(hi) {
      var rs := Dmovn(n0, n1);
      n0, n1 := rs.0, rs.1;
    }
  }

  lemma {:induction false} ProductDivides(a: int, b: int, w: int)
    requires Magnitude(a) <= w && Magnitude(b) <= w
    ensures Magnitude(a * b) < Magnitude(b) * w <==> b != 0 && Magnitude(a) != w
    ensures b != 0 ==> TruncDiv(a * b, b, a, 0)
    ensures Magnitude(a * b) == w * w ==> b == 0 || Magnitude(a) == w
  {
    ProductSign(a, b);
    ProductBelow(Magnitude(a), Magnitude(b), w);
  }

  lemma {:induction false} ProductBelow(x: int, y: int, w: int)
    requires 0 <= x <= w && 0 <= y <= w
    ensures x * y < y * w <==> y != 0 && x != w
    ensures x * y == w * w ==> y == 0 || x == w
  {
    ProductPositive(y, w - x);
    ProductPositive(w, w - y);
    assert y * w - x * y == y * (w - x);
    assert w * w - x * y == w * (w - y) + y * (w - x);
  }

  /** The words of a double-precision result of ddiv with its sign: a zero stays positive. */
  function SignDouble(minus: bool, hi: int, lo: int): (rs: (int, int))
    requires 0 <= hi < W35 && 0 <= lo < W35
    ensures 0 <= rs.0 < W36 && 0 <= rs.1 < W36 && (Tsts(rs.0) <==> Tsts(rs.1))
    ensures Signed2(rs.0, rs.1) == (if minus then -1 else 1) * (hi * W35 + lo)
  {
    if minus && (hi != 0 || lo != 0) then Mkdneg(hi, lo) else (hi, lo)
  }

  /** Two double words with consistent signs hold the quotient and remainder of `n` by `d`. */
  predicate IsQuotient(n: int, d: int, q0: word, q1: word, r0: word, r1: word) {
    && TruncDiv(n, d, Signed2(q0, q1), Signed2(r0, r1))
    && Tsts(q0) == Tsts(q1)
    && Tsts(r0) == Tsts(r1)
  }

  /** The arithmetic of ddiv on its six words: magnitudes, divide check, loop, signs. */
  method DivideSigned(w0: word, w1: word, w2: word, w3: word, dvr0: word, dvr1: word)
    returns (ok: bool, qu: (word, word), rem: (word, word))
    ensures ok <==> Magnitude(Signed4(w0, w1, w2, w3)) < Magnitude(Signed2(dvr0, dvr1)) * W70
    ensures ok ==> IsQuotient(Signed4(w0, w1, w2, w3), Signed2(dvr0, dvr1), qu.0, qu.1, rem.0, rem.1)
  {
    hide Signed4, Signed, Tsts;
    var dvd := AbsQuad(w0, w1, w2, w3);
    var b0, b1 := AbsDouble(dvr0, dvr1);
    SubtractDouble(dvd.d0, dvd.d1, b0, b1);
    if Dcmpge(dvd.d0, dvd.d1, b0, b1) {
      return false, (0, 0), (0, 0);
    }
    var s := DivideQuad(dvd, b0, b1);
    QuotientBound(s.Quo(), b0 * W35 + b1, s.High(), dvd.High(), dvd.Low(), W70);
    SignTrunc(Signed4(w0, w1, w2, w3), Signed2(dvr0, dvr1), s.Quo(), s.High());
    var q := SignDouble(Tsts(w0) != Tsts(dvr0), s.q0, s.q1);
    var r := SignDouble(Tsts(w0), s.d0, s.d1);
    return true, (q.0, q.1), (r.0, r.1);
  }

  // ---------------------------------------------------------------- instructions

  lemma {:induction false} DistinctAcs(ac: nat)
    requires ac < 16
    ensures var p1, p2, p3 := Addac(ac, 1), Addac(ac, 2), Addac(ac, 3);
      && ac != p1 && ac != p2 && ac != p3 && p1 != p2 && p1 != p3 && p2 != p3
      && forall k :: 4 <= k < 16 ==> Addac(ac, k) !in {ac, p1, p2, p3}
  {
  }

  class Cpu {
    const acs: array<word>
    var flags: set<Flag>

    constructor ()
      ensures Valid() && fresh(acs) && flags == {}
    {
      acs := new word[16](_ => 0);
      flags := {};
    }

    ghost predicate Valid()
      reads this
    {
      acs.Length == 16
    }

    /** MUL: the 70-bit product, through halves of 18 bits when an operand has more than
        32 bits.  The product 2^70 does not fit; it reads back as -2^70 with overflow. */
    method Mul(s1: word, s2: word) returns (rs0: word, rs1: word)
      modifies this`flags
      ensures var n := Signed(s1) * Signed(s2);
        if n == W70 then flags == old(flags) + {AOV, T1} && Signed2(rs0, rs1) == -W70
        else flags == old(flags) && Signed2(rs0, rs1) == n
      ensures Tsts(rs0) == Tsts(rs1)
    {
      var a, b := Abs(s1), Abs(s2);
      ProductSign(Signed(s1), Signed(s2));
      if a == 0 || b == 0 {
        return 0, 0;
      }
      var hi, lo;
      if a >= 0x1_0000_0000 || b >= 0x1_0000_0000 {
        hi, lo := MultiplySplit(a, b);
      } else {
        hi, lo := MultiplyNative(a, b);
      }
      assert hi * W35 + lo == Abs(s1) * Abs(s2);
      ProductRange(Abs(s1), Abs(s2), W35);
      ProductWords(Signed(s1) * Signed(s2), hi, lo);
      if Tsts(s1) != Tsts(s2) {
        var rs := Mkdneg(hi, lo);
        return rs.0, rs.1;
      } else if Tsts(hi) {
        flags := flags + {AOV, T1};
        lo := Sets(lo);
      }
      return hi, lo;
    }

    /** IMUL: the product as one word, with overflow exactly when it does not fit. */
    method Imul(a: word, b: word) returns (r: word)
      modifies this`flags
      ensures var n := Signed(a) * Signed(b);
        && r % W35 == n % W35
        && (Signed(r) == n <==> -W35 <= n < W35)
        && flags == if -W35 <= n < W35 then old(flags) else old(flags) + {AOV, T1}
      ensures a != W35 || b != W35 ==> (Signed(r) < 0 <==> Signed(a) * Signed(b) < 0)
      ensures a == W35 && b == W35 ==> r == W35
    {
      hide Abs, Signed, Signed2, Tsts, Sets, Clrs;
      Largest(a, b);
      if a == W35 && b == W35 {
        flags := flags + {AOV, T1};
        return W35;
      }
      ghost var n := Signed(a) * Signed(b);
      SignOfProduct(a, b);
      var rs0, rs1 := Mul(a, b);
      LowWord(n, rs0, rs1, Tsts(a) != Tsts(b));
      if rs0 != 0 && rs0 != W36 - 1 {
        rs1 := if Tsts(a) != Tsts(b) then Sets(rs1) else Clrs(rs1);
        flags := flags + {AOV, T1};
      }
      return rs1;
    }

    /** IDIV: one-word dividend.  -2^35 / -1 is not recognized as an error. */
    method Idiv(a: word, b: word) returns (ok: bool, q: word, r: word)
      modifies this`flags
      ensures ok <==> b != 0
      ensures flags == if ok then old(flags) else old(flags) + {DCK, AOV, T1}
      ensures ok && !(a == W35 && b == W36 - 1) ==> TruncDiv(Signed(a), Signed(b), Signed(q), Signed(r))
      ensures a == W35 && b == W36 - 1 ==> q == W35 && r == 0
    {
      var dvd, dvr := Abs(a), Abs(b);
      if dvr == 0 {
        flags := flags + {DCK, AOV, T1};
        return false, 0, 0;
      }
      var quo, rem := dvd / dvr, dvd % dvr;
      NativeDivision(dvd, dvr, W35);
      if quo < W35 { SignedDivision(Signed(a), Signed(b), quo, rem); }
      return true, NegIf(Tsts(a) != Tsts(b), quo), NegIf(Tsts(a), rem);
    }

    /** DIV: two-word dividend, by the 35-step loop or, when it fits 63 bits, natively. */
    method Divi(ac: nat, b: word) returns (ok: bool, q: word, r: word)
      requires Valid() && ac < 16
      modifies this`flags
      ensures var n := Signed2(acs[ac], acs[Addac(ac, 1)]);
        && (ok <==> Magnitude(n) < Magnitude(Signed(b)) * W35)
        && (ok ==> TruncDiv(n, Signed(b), Signed(q), Signed(r)))
      ensures flags == if ok then old(flags) else old(flags) + {AOV, DCK, T1}
    {
      var dvr := Abs(b);
      var n0, n1 := AbsDouble(acs[ac], acs[Addac(ac, 1)]);
      if n0 >= dvr {
        flags := flags + {AOV, DCK, T1};
        return false, 0, 0;
      }
      var quo, rem;
      if n0 >= 0x800_0000 {
        quo, rem := DivideDouble(n0, n1, dvr);
      } else {
        var t := n0 * W35 + n1;
        assert t < 0x8000_0000_0000_0000;
        NativeDivision(t, dvr, W35);
        quo, rem := t / dvr, t % dvr;
        QuotientBound(t / dvr, dvr, t % dvr, n0, n1, W35);
      }
      SignedDivision(Signed2(acs[ac], acs[Addac(ac, 1)]), Signed(b), quo, rem);
      return true, NegIf(Tsts(acs[ac]) != Tsts(b), quo), NegIf(Tsts(acs[ac]), rem);
    }

    /** Dividing a product by one factor gives back the other, unless that is -2^35. */
    method DivideProduct(a: word, b: word, ac: nat) returns (ok: bool, q: word, r: word)
      requires Valid() && ac < 16
      modifies this`flags, acs
      ensures ok <==> b != 0 && a != W35
      ensures ok ==> q == a && r == 0 && flags == old(flags)
    {
      var hi, lo := Mul(a, b);
      acs[ac] := hi;
      acs[Addac(ac, 1)] := lo;
      ProductDivides(Signed(a), Signed(b), W35);
      ok, q, r := Divi(ac, b);
      if ok {
        TruncDivUnique(Signed(a) * Signed(b), Signed(b), Signed(a), 0, Signed(q), Signed(r));
      }
    }

    lemma {:induction false} Sixteen()
      requires Valid()
      ensures acs.Length == 16
    {
    }

    /** DDIV: 140-bit dividend in four accumulators, 70-bit divisor. */
    method Ddiv(ac: nat, dvr0: word, dvr1: word)
      requires Valid() && ac < 16
      modifies this`flags, acs
      ensures
        var n := old(Signed4(acs[ac], acs[Addac(ac, 1)], acs[Addac(ac, 2)], acs[Addac(ac, 3)]));
        var d := Signed2(dvr0, dvr1);
        if Magnitude(n) >= Magnitude(d) * W70 then
          flags == old(flags) + {AOV, DCK, T1} && acs[..] == old(acs[..])
        else
          && flags == old(flags)
          && (forall k :: 4 <= k < 16 ==> acs[Addac(ac, k)] == old(acs[Addac(ac, k)]))
          && IsQuotient(n, d, acs[ac], acs[Addac(ac, 1)], acs[Addac(ac, 2)], acs[Addac(ac, 3)])
    {
      hide *;
      assert acs.Length == 16 by { Sixteen(); }
      var p1, p2, p3 := Addac(ac, 1), Addac(ac, 2), Addac(ac, 3);
      DistinctAcs(ac);
      var ok, qu, rem := DivideSigned(acs[ac], acs[p1], acs[p2], acs[p3], dvr0, dvr1);
      if !ok {
        flags := flags + {AOV, DCK, T1};
        return;
      }
      acs[ac], acs[p1] := qu.0, qu.1;
      acs[p2], acs[p3] := rem.0, rem.1;
    }
  }
}
