/** What CVTBDO printed, read by CVTDBO (pdp10_xtnd.c). */
module DecimalBack {
  import opened Words
  import opened Decimal

  /** The offset that takes `e1` back, as the address of another instruction. */
  function Opposite(e1: nat): (e2: nat)
    requires e1 < W18
    ensures e2 < W18
  {
    (W18 - e1) % W18
  }

  /** A digit is read back exactly when its code fits into the byte. The one offset that is
      its own opposite works for bytes of 18 bits only. */
  ghost predicate Legible(d: int, e1: nat, size: nat)
    requires e1 < W18
  {
    if e1 == 0x2_0000 then size == 18 else (d + Offset(e1)) % W36 < Pow2(size)
  }

  lemma {:induction false} DigitBack(d: int, e1: nat, size: nat)
    requires e1 < W18 && 0 <= d <= 9 && size <= 36
    ensures Decode(Code(d, e1, size), Opposite(e1)) == d <==> Legible(d, e1, size)
  {
    if e1 != 0x2_0000 {
      var w := (d + Offset(e1)) % W36;
      OppositeOffset(e1);
      SmallRemainder(w, Pow2(size));
      hide Offset, Opposite, Pow2;
      var b := Code(d, e1, size);
      hide Code;
      Back(d, Offset(e1), b);
    } else {
      HalfBack(d, size);
      assert Opposite(e1) == 0x2_0000;
      hide Code, Decode, Pow2;
    }
  }

  lemma {:induction false} SmallRemainder(w: nat, p: nat)
    requires p > 0
    ensures 0 <= w % p <= w && (w % p == w <==> w < p)
  {
  }

  lemma {:induction false} OppositeOffset(e1: nat)
    requires e1 < W18 && e1 != 0x2_0000
    ensures Offset(Opposite(e1)) == (W36 - Offset(e1)) % W36
    ensures forall b {:trigger Decode(b, Opposite(e1))} :: Decode(b, Opposite(e1)) == (b - Offset(e1)) % W36
  {
  }

  lemma {:induction false} Back(d: int, x: int, b: int)
    requires 0 <= d <= 9 && 0 <= x < W36 && 0 <= b < W36
    ensures (b - x) % W36 == d <==> b == (d + x) % W36
  {
  }

  /** The offset of half the range. */
  lemma {:induction false} HalfBack(d: int, size: nat)
    requires 0 <= d <= 9 && size <= 36
    ensures Decode(Code(d, 0x2_0000, size), 0x2_0000) == d <==> size == 18
  {
    var w, b, p := W36 - 0x2_0000 + d, Code(d, 0x2_0000, size), Pow2(size);
    assert b == w % p;
    assert Decode(b, 0x2_0000) == (b + (W36 - 0x2_0000)) % W36;
    hide Code, Decode;
    HalfCode(d, size, w, p);
    hide Pow2;
    SmallRemainder(w, p);
    Back(d, W36 - 0x2_0000, b);
    assert (b + (W36 - 0x2_0000)) % W36 == d <==> b == 0x2_0000 + d by {
      HalfDecode(b, d);
    }
  }

  lemma {:induction false} HalfDecode(b: int, d: int)
    requires 0 <= b < W36 && 0 <= d <= 9
    ensures (b + (W36 - 0x2_0000)) % W36 == d <==> b == 0x2_0000 + d
  {
  }

  lemma {:induction false} HalfCode(d: int, size: nat, w: nat, p: nat)
    requires 0 <= d <= 9 && size <= 36 && w == W36 - 0x2_0000 + d && p == Pow2(size)
    ensures w % p == 0x2_0000 + d <==> size == 18
  {
    Pow2Values();
    Pow2Seventeen();
    if size <= 17 {
      Pow2Mono(size, 17);
      hide Pow2;
      SmallRemainder(w, p);
      assert w % p < p;
    } else {
      Pow2Add(size, 36 - size);
      Pow2Mono(18, size);
      if size > 18 {
        Pow2Mono(19, size);
      }
      var q := Pow2(36 - size);
      hide Pow2;
      TopPart(w, p, q, p - 0x2_0000 + d);
    }
  }

  lemma {:induction false} TopPart(w: int, p: int, q: int, r: int)
    requires p > 0 && p * q == W36 && w == W36 - p + r && 0 <= r < p
    ensures w % p == r
  {
    assert (q - 1) * p == q * p - p;
    DivModUnique(w, p, q - 1, r);
  }

  lemma {:induction false} Pow2Seventeen()
    ensures Pow2(17) == 0x2_0000 && Pow2(19) == 2 * W18
  {
    Pow2Values();
    assert Pow2(18) == 2 * Pow2(17) && Pow2(19) == 2 * Pow2(18);
  }

  lemma {:induction false} Pow2Mono(m: nat, n: nat)
    requires m <= n
    ensures Pow2(m) <= Pow2(n)
    decreases n
  {
    if m < n {
      Pow2Mono(m, n - 1);
    }
  }

  ghost predicate AllLegible(ds: seq<int>, e1: nat, size: nat)
    requires e1 < W18
  {
    forall i :: 0 <= i < |ds| ==> Legible(ds[i], e1, size)
  }

  lemma {:induction false} CodesBack(ds: seq<int>, e1: nat, size: nat)
    requires e1 < W18 && size <= 36 && forall i :: 0 <= i < |ds| ==> 0 <= ds[i] <= 9
    ensures Decodes(Codes(ds, e1, size), Opposite(e1)) == ds <==> AllLegible(ds, e1, size)
  {
    if ds != [] {
      CodesBack(ds[1..], e1, size);
      DigitBack(ds[0], e1, size);
      var bs := Codes(ds, e1, size);
      assert bs[1..] == Codes(ds[1..], e1, size) && bs[0] == Code(ds[0], e1, size);
      assert Decodes(bs, Opposite(e1)) == [Decode(bs[0], Opposite(e1))] + Decodes(bs[1..], Opposite(e1));
      hide Legible, Decode, Code, Codes, Decodes, Opposite;
      assert ds == [ds[0]] + ds[1..];
      assert AllLegible(ds, e1, size) <==> Legible(ds[0], e1, size) && AllLegible(ds[1..], e1, size);
    }
  }

  lemma {:induction false} DecodedAt(ds: seq<int>, e1: nat, size: nat, i: nat)
    requires e1 < W18 && i < |ds|
    ensures Decodes(Codes(ds, e1, size), Opposite(e1))[i] == Decode(Code(ds[i], e1, size), Opposite(e1))
  {
    var bs := Codes(ds, e1, size);
    assert bs[0] == Code(ds[0], e1, size) && bs[1..] == Codes(ds[1..], e1, size);
    hide Opposite, Decode, Code;
    if i > 0 {
      DecodedAt(ds[1..], e1, size, i - 1);
    }
  }

  // ---------------------------------------------------------------- what is read from any digits

  ghost predicate AllDigits(ds: seq<int>) {
    forall i :: 0 <= i < |ds| ==> 0 <= ds[i] <= 9
  }

  lemma {:induction false} ValueJoin(a: seq<int>, b: seq<int>)
    ensures Value(a + b) == Product(Value(a), Pow10(|b|)) + Value(b)
  {
    if b == [] {
      assert a + b == a;
    } else {
      var n := |b| - 1;
      ValueJoin(a, b[..n]);
      assert (a + b)[..|a + b| - 1] == a + b[..n];
      TenTimes(Value(a), Pow10(n));
    }
  }

  lemma {:induction false} TenTimes(x: int, p: int)
    ensures Product(x, p) * 10 == Product(x, 10 * p)
  {
  }

  lemma {:induction false} ValueBounds(ds: seq<int>)
    requires AllDigits(ds)
    ensures 0 <= Value(ds) < Pow10(|ds|)
  {
    if ds != [] {
      ValueBounds(ds[..|ds| - 1]);
    }
  }

  lemma {:induction false} SameParts(x: int, y: int, a: int, b: int)
    requires x * 10 + a == y * 10 + b && 0 <= a <= 9 && 0 <= b <= 9
    ensures x == y && a == b
  {
  }

  lemma {:induction false} ValueInjective(a: seq<int>, b: seq<int>)
    requires AllDigits(a) && AllDigits(b) && |a| == |b| && Value(a) == Value(b)
    ensures a == b
  {
    if a != [] {
      var n := |a| - 1;
      var x, y := Value(a[..n]), Value(b[..n]);
      assert 0 <= a[n] <= 9 && 0 <= b[n] <= 9 && AllDigits(a[..n]) && AllDigits(b[..n]);
      assert x * 10 + a[n] == y * 10 + b[n];
      hide Value, AllDigits;
      SameParts(x, y, a[n], b[n]);
      ValueInjective(a[..n], b[..n]);
      assert a == a[..n] + [a[n]] && b == b[..n] + [b[n]];
    }
  }

  /** Digits in range are read as their number modulo 2^71. */
  lemma {:induction false} ScanValue(v: nat, ds: seq<int>)
    requires AllDigits(ds) && v < W71
    ensures Scan(v, ds) == Scanned((Product(v, Pow10(|ds|)) + Value(ds)) % W71, [], true)
    decreases |ds|
  {
    if ds != [] {
      var d, rest, p := ds[0], ds[1..], Pow10(|ds| - 1);
      ScanValue((v * 10 + d) % W71, rest);
      ValueJoin([d], rest);
      assert ds == [d] + rest && Value([d]) == d;
      NextDigit(v, d, p);
      hide Product, Value, Pow10, Scan;
      ModProduct(v * 10 + d, p, Value(rest), W71);
    } else {
      assert Product(v, 1) == v;
    }
  }

  lemma {:induction false} NextDigit(v: int, d: int, p: int)
    ensures Product(v * 10 + d, p) == Product(v, 10 * p) + Product(d, p)
  {
  }

  lemma {:induction false} ModProduct(x: int, p: int, y: int, m: int)
    requires m > 0
    ensures (Product(x % m, p) + y) % m == (Product(x, p) + y) % m
  {
    var z := Product(x % m, p) + y;
    assert Product(x, p) + y == Product(x / m * p, m) + z by {
      assert x == x / m * m + x % m;
    }
    DivModUnique(Product(x, p) + y, m, x / m * p + z / m, z % m);
  }

  lemma {:induction false} ScanRange(v: int, ds: seq<int>)
    requires 0 <= v < W71
    ensures 0 <= Scan(v, ds).v < W71 && (Scan(v, ds).ok ==> Scan(v, ds).rest == [])
    decreases |ds|
  {
    if ds != [] && ds[0] <= 9 {
      ScanRange((v * 10 + ds[0]) % W71, ds[1..]);
    }
  }

  lemma {:induction false} ScanBad(v: int, ds: seq<int>, i: nat)
    requires i < |ds| && ds[i] > 9
    ensures !Scan(v, ds).ok
    decreases |ds|
  {
    if ds[0] <= 9 {
      ScanBad((v * 10 + ds[0]) % W71, ds[1..], i - 1);
    }
  }

  // ---------------------------------------------------------------- what is read from other digits

  /** In a byte of `p` values, what is in range is congruent to the digit, and within a window of `p`. */
  ghost predicate Near(ds: seq<int>, bs: seq<int>, p: int) {
    && |ds| == |bs| && p in {1, 2, 4, 8}
    && (forall i :: 0 <= i < |ds| ==> (bs[i] - ds[i]) % p == 0)
    && (forall i, k :: 0 <= i < |bs| && 0 <= k < |bs| ==> bs[i] - bs[k] < p)
  }

  /** A digit read back is the same, out of range, or from a byte of less than four bits. */
  lemma {:induction false} ReadBack(d: int, e1: nat, size: nat)
    requires e1 < W18 && 0 <= d <= 9 && size <= 36
    ensures
      var b := Decode(Code(d, e1, size), Opposite(e1));
      b > 9 || b == d || (size < 4 && e1 != 0x2_0000 && (b - d) % Pow2(size) == 0)
  {
    var p := Pow2(size);
    if e1 == 0x2_0000 {
      HalfRead(d, size);
    } else {
      OppositeOffset(e1);
      var x, b := Offset(e1), Code(d, e1, size);
      assert b == (d + x) % W36 % p;
      Pow2Divides(size);
      hide Offset, Opposite, Code, Decode;
      if size < 4 {
        SmallBytes(size);
        hide Pow2;
        SmallRead(d, x, p);
      } else {
        Pow2Add(size - 4, 4);
        Pow2Add(4, 0);
        var q := Pow2(size - 4);
        assert Pow2(4) == 16;
        hide Pow2;
        WideRead(d, x, p, q);
      }
    }
  }

  lemma {:induction false} Pow2Divides(size: nat)
    requires size <= 36
    ensures Pow2(size) * Pow2(36 - size) == W36
  {
    Pow2Values();
    Pow2Add(size, 36 - size);
  }

  lemma {:induction false} SmallBytes(size: nat)
    requires size < 4
    ensures Pow2(size) in {1, 2, 4, 8}
  {
    assert Pow2(0) == 1 && Pow2(1) == 2 && Pow2(2) == 4 && Pow2(3) == 8;
  }

  lemma {:induction false} SmallRead(d: int, x: int, p: int)
    requires 0 <= d <= 9 && 0 <= x < W36 && p in {1, 2, 4, 8}
    ensures (((d + x) % W36 % p - x) % W36 - d) % p == 0
  {
    var w := (d + x) % W36;
    var k1, k2, k3 := (d + x) / W36, w / p, (w % p - x) / W36;
    var b := (w % p - x) % W36;
    assert w == d + x - W36 * k1 && b == w % p - x - W36 * k3;
    if p == 1 {
    } else if p == 2 {
      Multiple(b - d, 2, -(W36 / 2 * (k1 + k3) + k2));
    } else if p == 4 {
      Multiple(b - d, 4, -(W36 / 4 * (k1 + k3) + k2));
    } else {
      Multiple(b - d, 8, -(W36 / 8 * (k1 + k3) + k2));
    }
  }

  lemma {:induction false} Multiple(n: int, p: int, k: int)
    requires p > 0 && n == p * k
    ensures n % p == 0
  {
    DivModUnique(n, p, k, 0);
  }

  lemma {:induction false} WideRead(d: int, x: int, p: int, q: int)
    requires 0 <= d <= 9 && 0 <= x < W36 && p == q * 16 && q > 0
    ensures var b := ((d + x) % W36 % p - x) % W36; b > 9 || b == d
  {
    var w := (d + x) % W36;
    var m, k1, k3 := w / p * q, (d + x) / W36, (w % p - x) / W36;
    assert w % p == w - 16 * m by {
      assert w == w / p * p + w % p && w / p * p == w / p * q * 16;
    }
    assert w == d + x - W36 * k1;
    SixteenApart((w % p - x) % W36, d, m + W36 / 16 * (k1 + k3));
  }

  lemma {:induction false} SixteenApart(b: int, d: int, t: int)
    requires 0 <= d <= 9 && 0 <= b && b == d - 16 * t
    ensures b > 9 || b == d
  {
  }

  lemma {:induction false} HalfForms(d: int, size: nat, b: int)
    requires 0 <= d <= 9 && 0 <= b < W36
    ensures Code(d, 0x2_0000, size) == (W36 - 0x2_0000 + d) % Pow2(size)
    ensures Opposite(0x2_0000) == 0x2_0000 && Decode(b, 0x2_0000) == (b + (W36 - 0x2_0000)) % W36
  {
    hide Pow2;
    assert Offset(0x2_0000) == W36 - 0x2_0000;
    hide Offset;
    assert (d + (W36 - 0x2_0000)) % W36 == W36 - 0x2_0000 + d;
  }

  lemma {:induction false} CodeFits(d: int, e1: nat, size: nat)
    requires e1 < W18
    ensures 0 <= Code(d, e1, size) < W36
  {
    SmallRemainder((d + Offset(e1)) % W36, Pow2(size));
  }

  lemma {:induction false} HalfRead(d: int, size: nat)
    requires 0 <= d <= 9 && size <= 36
    ensures var b := Decode(Code(d, 0x2_0000, size), Opposite(0x2_0000)); b > 9 || b == d
  {
    var w, b, p := W36 - 0x2_0000 + d, Code(d, 0x2_0000, size), Pow2(size);
    CodeFits(d, 0x2_0000, size);
    HalfForms(d, size, b);
    hide Code, Decode, Opposite, Offset, Pow2;
    if size == 18 {
      HalfBack(d, size);
      return;
    }
    HalfOut(d, size, w, p);
    HalfDecodeOut(b);
  }

  lemma {:induction false} HalfDecodeOut(b: int)
    requires 0 <= b < W36 && (b < 0x2_0000 || b > 0x2_0009)
    ensures (b + (W36 - 0x2_0000)) % W36 > 9
  {
  }

  lemma {:induction false} HalfOut(d: int, size: nat, w: int, p: int)
    requires 0 <= d <= 9 && size <= 36 && size != 18 && w == W36 - 0x2_0000 + d && p == Pow2(size)
    ensures w % p < 0x2_0000 || w % p > 0x2_0009
  {
    Pow2Values();
    Pow2Seventeen();
    if size <= 17 {
      Pow2Mono(size, 17);
      hide Pow2;
      SmallRemainder(w, p);
      assert w % p < p;
    } else {
      Pow2Divides(size);
      Pow2Mono(19, size);
      var q := Pow2(36 - size);
      hide Pow2;
      TopPart(w, p, q, p - 0x2_0000 + d);
    }
  }

  lemma {:induction false} Window(d: int, d': int, e1: nat, size: nat)
    requires e1 < W18 && e1 != 0x2_0000 && 0 <= d <= 9 && 0 <= d' <= 9 && size < 4
    ensures
      var b, b' := Decode(Code(d, e1, size), Opposite(e1)), Decode(Code(d', e1, size), Opposite(e1));
      b <= 9 && b' <= 9 ==> b - b' < Pow2(size)
  {
    SmallBytes(size);
    OppositeOffset(e1);
    var c, c' := Code(d, e1, size), Code(d', e1, size);
    hide Code, Decode, Opposite, Offset, Pow2;
    WindowAt(c, c', Offset(e1), Pow2(size));
  }

  lemma {:induction false} WindowAt(c: int, c': int, x: int, p: int)
    requires 0 <= x < W36 && 0 <= c < p <= 8 && 0 <= c' < p
    ensures (c - x) % W36 <= 9 && (c' - x) % W36 <= 9 ==> (c - x) % W36 - (c' - x) % W36 < p
  {
  }

  const TEN19 := 10000000000000000000

  /** The leading digits of a number that is 2^71 or a multiple more than one of at most 2^70. */
  lemma {:induction false} Leading(n: int, j: int, v: int, b0: int, b1: int, b2: int, rest: int)
    requires 100 * TEN19 <= v <= W70 && n == v + j * W71 && j >= 0
    requires n == b0 * (100 * TEN19) + b1 * (10 * TEN19) + b2 * TEN19 + rest && 0 <= rest < TEN19
    requires 0 <= b0 <= 9 && 0 <= b1 <= 9 && 0 <= b2 <= 9
    ensures j == 0 ==> b0 == 1 && b1 <= 1
    ensures j == 1 ==> b0 == 3 && 3 <= b1 <= 5 && (b1 == 3 ==> b2 >= 6)
    ensures j == 2 ==> b0 == 5 && b1 >= 7
    ensures j == 3 ==> b0 == 8 && b1 <= 2
    ensures j <= 3
  {
  }

  /** The last digits exclude the two cases that the leading digits leave. */
  lemma {:induction false} LastTwo(n: int, v: int, x: int, y: int, b1: int, b0: int, d1: int, d0: int)
    requires n == 100 * x + 10 * b1 + b0 && v == 100 * y + 10 * d1 + d0 && n == v + W71
    requires 3 <= b1 <= 4 && 3 <= b0 <= 4 && 0 <= d1 <= 9 && 0 <= d0 <= 9
    ensures (b1 - d1) % 2 != 0 || (b0 - d0) % 2 != 0
  {
    Half(b1, d1);
    Half(b0, d0);
    NoSuchTwo((b1 - d1) / 2, (b0 - d0) / 2, y - x + W71 / 100);
  }

  lemma {:induction false} NoSuchTwo(f1: int, f0: int, k: int)
    requires -3 <= f1 <= 2 && -3 <= f0 <= 2
    ensures 10 * f1 + f0 != 24 + 50 * k
  {
  }

  lemma {:induction false} Quarter(b: int, d: int)
    requires 5 <= b <= 8 && 0 <= d <= 9
    ensures -1 <= (b - d) / 4 <= 2 && ((b - d) % 4 == 0 ==> b - d == 4 * ((b - d) / 4))
  {
  }

  lemma {:induction false} Half(b: int, d: int)
    requires 3 <= b <= 4 && 0 <= d <= 9
    ensures -3 <= (b - d) / 2 <= 2 && ((b - d) % 2 == 0 ==> b - d == 2 * ((b - d) / 2))
  {
  }

  lemma {:induction false} LastThree(n: int, v: int, x: int, y: int, b2: int, b1: int, b0: int, d2: int, d1: int, d0: int)
    requires n == 1000 * x + 100 * b2 + 10 * b1 + b0 && v == 1000 * y + 100 * d2 + 10 * d1 + d0 && n == v + 2 * W71
    requires 5 <= b2 <= 8 && 5 <= b1 <= 8 && 5 <= b0 <= 8
    requires 0 <= d2 <= 9 && 0 <= d1 <= 9 && 0 <= d0 <= 9
    ensures (b2 - d2) % 4 != 0 || (b1 - d1) % 4 != 0 || (b0 - d0) % 4 != 0
  {
    Quarter(b2, d2);
    Quarter(b1, d1);
    Quarter(b0, d0);
    NoSuchThree((b2 - d2) / 4, (b1 - d1) / 4, (b0 - d0) / 4, y - x + 2 * W71 / 1000);
  }

  lemma {:induction false} NoSuchThree(f2: int, f1: int, f0: int, k: int)
    requires -1 <= f2 <= 2 && -1 <= f1 <= 2 && -1 <= f0 <= 2
    ensures 100 * f2 + 10 * f1 + f0 != 174 + 250 * k
  {
  }

  /** The first three digits of 22. */
  lemma {:induction false} FirstThree(ds: seq<int>) returns (rest: int)
    requires AllDigits(ds) && |ds| == 22
    ensures Value(ds) == ds[0] * (100 * TEN19) + ds[1] * (10 * TEN19) + ds[2] * TEN19 + rest && 0 <= rest < TEN19
  {
    var a, b := ds[..3], ds[3..];
    assert ds == a + b;
    hide Value, Pow10, Product;
    ValueJoin(a, b);
    ValueBounds(b);
    TenToThe19(Value(a));
    ThreeDigits(a);
    rest := Value(b);
  }

  lemma {:induction false} TenToThe19(x: int)
    ensures Pow10(19) == TEN19 && Pow10(21) == 100 * TEN19 && Product(x, Pow10(19)) == x * TEN19
  {
    PowersExact(20);
    PowersExact(22);
    hide Pow10;
  }

  /** The last three digits. */
  lemma {:induction false} LastDigits(ds: seq<int>) returns (x: int)
    requires |ds| == 22
    ensures Value(ds) == 1000 * x + 100 * ds[19] + 10 * ds[20] + ds[21]
  {
    var c, t := ds[..19], ds[19..];
    assert ds == c + t;
    hide Value, Pow10, Product;
    ValueJoin(c, t);
    ThreeDigits(t);
    x := Value(c);
    ThousandTimes(x);
  }

  lemma {:induction false} ThousandTimes(x: int)
    ensures Product(x, Pow10(3)) == 1000 * x
  {
    assert Pow10(1) == 10 && Pow10(3) == 100 * Pow10(1);
  }

  lemma {:induction false} ThreeDigits(t: seq<int>)
    requires |t| == 3
    ensures Value(t) == 100 * t[0] + 10 * t[1] + t[2]
  {
    assert t[..2][..1] == [t[0]] && Value([t[0]]) == t[0];
    assert Value(t[..2]) == Value(t[..2][..1]) * 10 + t[1];
  }

  /** Other digits are not read as the same number, even though that is kept modulo 2^71. */
  lemma {:induction false} NoCoincidence(v: nat, ds: seq<int>, bs: seq<int>, p: int)
    requires v <= W70 && ds == Digits(v, Width(v)) && AllDigits(bs) && Near(ds, bs, p) && Value(bs) % W71 == v
    ensures bs == ds
  {
    var w := Width(v);
    WidthFits(v);
    DigitsValue(v, w);
    PowMono(w, 22);
    hide Digits, Near, Value, Pow10;
    if w < 22 {
      NoCoincidenceShort(v, ds, bs);
    } else {
      TenToThe19(0);
      hide Width;
      NoCoincidence22(v, ds, bs, p);
    }
  }

  lemma {:induction false} NoCoincidenceShort(v: nat, ds: seq<int>, bs: seq<int>)
    requires |bs| == |ds| < 22 && AllDigits(ds) && AllDigits(bs) && Value(ds) == v && Value(bs) % W71 == v
    ensures bs == ds
  {
    hide Value, Pow10, AllDigits;
    ValueBounds(bs);
    PowMono(|bs|, 21);
    TenToThe19(0);
    Below(Value(bs));
    ValueInjective(bs, ds);
  }

  lemma {:induction false} Below(n: nat)
    requires n < 100 * TEN19
    ensures n % W71 == n
  {
  }

  lemma {:induction false} Multiples(n: nat, v: nat) returns (j: nat)
    requires n % W71 == v
    ensures n == v + j * W71
  {
    j := n / W71;
  }

  lemma {:induction false} NoCoincidence22(v: nat, ds: seq<int>, bs: seq<int>, p: int)
    requires 100 * TEN19 <= v <= W70 && |bs| == |ds| == 22 && AllDigits(ds) && AllDigits(bs) && Near(ds, bs, p)
    requires Value(ds) == v && Value(bs) % W71 == v
    ensures bs == ds
  {
    hide Near, Value, Pow10;
    var n := Value(bs);
    ValueBounds(bs);
    var j := Multiples(n, v);
    var rest := FirstThree(bs);
    var rest' := FirstThree(ds);
    var x := LastDigits(bs);
    var y := LastDigits(ds);
    Leading(n, j, v, bs[0], bs[1], bs[2], rest);
    Leading(v, 0, v, ds[0], ds[1], ds[2], rest');
    if j == 0 {
      ValueInjective(bs, ds);
    } else {
      FarApart(n, v, j, ds, bs, p, x, y);
    }
  }

  lemma {:induction false} FarApart(n: int, v: int, j: int, ds: seq<int>, bs: seq<int>, p: int, x: int, y: int)
    requires |bs| == |ds| == 22 && AllDigits(ds) && AllDigits(bs) && n == v + j * W71 && ds[0] == 1 && ds[1] <= 1
    requires n == 1000 * x + 100 * bs[19] + 10 * bs[20] + bs[21] && v == 1000 * y + 100 * ds[19] + 10 * ds[20] + ds[21]
    requires
      || (j == 1 && bs[0] == 3 && 3 <= bs[1] <= 5 && (bs[1] == 3 ==> bs[2] >= 6))
      || (j == 2 && bs[0] == 5 && bs[1] >= 7)
      || (j == 3 && bs[0] == 8 && bs[1] <= 2)
    ensures !Near(ds, bs, p)
  {
    hide Near;
    if Near(ds, bs, p) {
      NearAt(ds, bs, p, 0, 1);
      NearAt(ds, bs, p, 1, 0);
      NearAt(ds, bs, p, 2, 0);
      forall i | 19 <= i < 22
        ensures (bs[i] - ds[i]) % p == 0 && bs[i] - bs[0] < p && bs[1] - bs[i] < p
      {
        NearAt(ds, bs, p, i, 0);
        NearAt(ds, bs, p, 1, i);
      }
      SmallWindow(j, p, ds[0], ds[1], bs[0], bs[1], bs[2]);
      if j == 1 {
        LastTwo(n, v, 10 * x + bs[19], 10 * y + ds[19], bs[20], bs[21], ds[20], ds[21]);
      } else {
        LastThree(n, v, x, y, bs[19], bs[20], bs[21], ds[19], ds[20], ds[21]);
      }
    }
  }

  lemma {:induction false} NearAt(ds: seq<int>, bs: seq<int>, p: int, i: nat, k: nat)
    requires Near(ds, bs, p) && i < |bs| && k < |bs|
    ensures p in {1, 2, 4, 8} && (bs[i] - ds[i]) % p == 0 && bs[i] - bs[k] < p && bs[k] - bs[i] < p
  {
  }

  /** What the first three digits leave for the size of the byte. */
  lemma {:induction false} SmallWindow(j: int, p: int, d0: int, d1: int, b0: int, b1: int, b2: int)
    requires p in {1, 2, 4, 8} && d0 == 1 && 0 <= d1 <= 1 && 0 <= b1 <= 9
    requires (b0 - d0) % p == 0 && (b1 - d1) % p == 0 && -p < b1 - b0 < p && -p < b2 - b0 < p
    requires
      || (j == 1 && b0 == 3 && 3 <= b1 <= 5 && (b1 == 3 ==> b2 >= 6))
      || (j == 2 && b0 == 5 && b1 >= 7)
      || (j == 3 && b0 == 8 && b1 <= 2)
    ensures (j == 1 && p == 2 && b1 == 4) || (j == 2 && p == 4 && b1 == 8)
  {
  }

  /** Digits of which one is not legible are not read as their number. */
  lemma {:induction false} Misread(v: nat, e1: nat, size: nat)
    requires e1 < W18 && size <= 36 && v <= W70
    ensures
      var ds := Digits(v, Width(v));
      !AllLegible(ds, e1, size) ==> Scan(0, Decodes(Codes(ds, e1, size), Opposite(e1))) != Scanned(v, [], true)
  {
    var ds := Digits(v, Width(v));
    var bs := Decodes(Codes(ds, e1, size), Opposite(e1));
    CodesBack(ds, e1, size);
    DecodedRange(ds, e1, size);
    hide Codes, Decodes, Opposite, Digits, Width, AllLegible;
    if bs != ds {
      if i :| 0 <= i < |bs| && bs[i] > 9 {
        ScanBad(0, bs, i);
      } else {
        ReadInRange(v, ds, bs, e1, size);
      }
    }
  }

  /** Other digits in range are not read as the number either. */
  lemma {:induction false} ReadInRange(v: nat, ds: seq<int>, bs: seq<int>, e1: nat, size: nat)
    requires e1 < W18 && size <= 36 && v <= W70 && ds == Digits(v, Width(v)) && AllDigits(bs) && |bs| == |ds| && bs != ds
    requires forall i :: 0 <= i < |ds| ==> bs[i] == Decode(Code(ds[i], e1, size), Opposite(e1))
    ensures Scan(0, bs) != Scanned(v, [], true)
  {
    hide Scan, Code, Decode, Opposite, Width, Pow10, Pow2, Near, Value, Product;
    ScanValue(0, bs);
    ProductAdd(Pow10(|bs|), 0, 0);
    AllRead(ds, bs, e1, size);
    if Value(bs) % W71 == v {
      NoCoincidence(v, ds, bs, Pow2(size));
    }
  }

  lemma {:induction false} DecodedRange(ds: seq<int>, e1: nat, size: nat)
    requires e1 < W18
    ensures
      var bs := Decodes(Codes(ds, e1, size), Opposite(e1));
      |bs| == |ds| && forall i :: 0 <= i < |ds| ==> 0 <= bs[i] == Decode(Code(ds[i], e1, size), Opposite(e1))
  {
    forall i | 0 <= i < |ds| ensures
      Decodes(Codes(ds, e1, size), Opposite(e1))[i] == Decode(Code(ds[i], e1, size), Opposite(e1))
    {
      DecodedAt(ds, e1, size, i);
    }
  }

  /** Digits that are all read in range are the same, or near in a small byte. */
  lemma {:induction false} AllRead(ds: seq<int>, bs: seq<int>, e1: nat, size: nat)
    requires e1 < W18 && size <= 36 && AllDigits(ds) && AllDigits(bs) && |ds| == |bs|
    requires forall i :: 0 <= i < |ds| ==> bs[i] == Decode(Code(ds[i], e1, size), Opposite(e1))
    ensures bs == ds || (size < 4 && Near(ds, bs, Pow2(size)))
  {
    hide Code, Decode, Opposite, Offset, Pow2;
    if size < 4 && e1 != 0x2_0000 {
      SmallBytes(size);
      forall i | 0 <= i < |ds| ensures (bs[i] - ds[i]) % Pow2(size) == 0 {
        ReadBack(ds[i], e1, size);
        assert bs[i] == ds[i] ==> (bs[i] - ds[i]) % Pow2(size) == 0;
      }
      forall i, k | 0 <= i < |bs| && 0 <= k < |bs| ensures bs[i] - bs[k] < Pow2(size) {
        Window(ds[i], ds[k], e1, size);
      }
    } else {
      forall i | 0 <= i < |ds| ensures bs[i] == ds[i] {
        ReadBack(ds[i], e1, size);
      }
    }
  }

  /** CVTBDO and then CVTDBO with the opposite offset give the digits, and the number, back exactly
      when all its digits fit into the bytes. */
  lemma {:induction false} RoundTrip(v: nat, e1: nat, size: nat)
    requires e1 < W18 && size <= 36 && v <= W70
    ensures
      var ds := Digits(v, Width(v));
      var bs := Decodes(Codes(ds, e1, size), Opposite(e1));
      && (bs == ds <==> AllLegible(ds, e1, size))
      && (Scan(0, bs) == Scanned(v, [], true) <==> AllLegible(ds, e1, size))
  {
    var ds := Digits(v, Width(v));
    hide Scan, Codes, Decodes, Digits, Product, Width, AllLegible, Opposite, Value, Pow10;
    CodesBack(ds, e1, size);
    Misread(v, e1, size);
    DigitsValue(v, |ds|);
    ScanValue(0, ds);
    ProductAdd(Pow10(|ds|), 0, 0);
  }

  lemma {:induction false} DoubleBound(hi: word, lo: word)
    ensures Magnitude(Signed2(hi, lo)) <= W70
  {
  }

  /** CVTBDO to its end, without fill. */
  method Print(hi: word, lo: word, len: nat, size: nat, e1: nat, fill: word, p: seq<nat>) returns (r: Ret, out: seq<int>, minus: bool)
    requires e1 < W18
    ensures
      var v := Magnitude(Signed2(hi, lo));
      && (r == Skip <==> Width(v) <= len)
      && (r == Skip ==> out == Codes(Digits(v, Width(v)), e1, size) && minus == Tsts(hi))
  {
    hide Width, Digits, Codes, Magnitude, Signed2, Pow2, Tsts;
    var printer := new Printer(hi, lo, len, false, size);
    ghost var bs := printer.Pending(e1, fill);
    assert [] + bs == bs;
    r := printer.Complete(e1, fill, p);
    return r, printer.out, printer.minus;
  }

  /** CVTDBO to its end, of all that was printed. */
  method Parse(src: seq<int>, minus: bool, e1: nat, q: seq<nat>) returns (r: Ret, hi: word, lo: word)
    requires e1 < W18
    ensures
      var o := Scan(0, Decodes(src, e1));
      && (r == Skip <==> o.ok) && (Tsts(lo) <==> Tsts(hi))
      && (r == Skip ==> Signed2(hi, lo) == Wrapped(if minus then -o.v else o.v))
  {
    hide Scan, Decodes, Signed2, Wrapped, Tsts;
    var parser := new Parser(src, |src|, minus, 0, 0);
    assert src[0..|src|] == src;
    r := parser.Complete(e1, q);
    return r, parser.hi, parser.lo;
  }

  /** The two instructions, one after the other, however they are interrupted: the second succeeds
      and gives the number back exactly when there is room for its digits and they fit into the bytes. */
  method ThereAndBack(hi: word, lo: word, len: nat, size: nat, e1: nat, fill: word, p: seq<nat>, q: seq<nat>)
      returns (r: Ret, hi': word, lo': word)
    requires e1 < W18 && size <= 36
    ensures
      var v := Magnitude(Signed2(hi, lo));
      && (r == Skip && Signed2(hi', lo') == Signed2(hi, lo) <==>
          Width(v) <= len && AllLegible(Digits(v, Width(v)), e1, size))
      && (r == Skip ==> (Tsts(lo') <==> Tsts(hi')))
  {
    hide Width, Digits, Codes, Decodes, Signed2, Tsts, AllLegible, Opposite, Scan, Wrapped;
    ghost var v := Magnitude(Signed2(hi, lo));
    DoubleBound(hi, lo);
    RoundTrip(v, e1, size);
    SignOf(hi, lo);
    var out, minus;
    r, out, minus := Print(hi, lo, len, size, e1, fill, p);
    if r != Skip {
      return r, 0, 0;
    }
    ghost var ds := Decodes(out, Opposite(e1));
    ScanRange(0, ds);
    SameNumber(v, Scan(0, ds).v, minus);
    r, hi', lo' := Parse(out, minus, Opposite(e1), q);
  }

  lemma {:induction false} SignOf(hi: word, lo: word)
    ensures
      var v: int, minus := Magnitude(Signed2(hi, lo)), Tsts(hi);
      && (v < W70 || (minus && v == W70)) && (minus ==> v > 0)
      && Signed2(hi, lo) == Wrapped(if minus then -v else v)
  {
  }

  /** Two numbers of 71 bits that read the same with the same sign are the same. */
  lemma {:induction false} SameNumber(v: int, u: int, minus: bool)
    requires 0 <= v < W71 && 0 <= u < W71
    ensures Wrapped(if minus then -v else v) == Wrapped(if minus then -u else u) <==> v == u
  {
  }
}
