/** The conversions between double-precision integers and decimal strings (pdp10_xtnd.c):
    CVTBDO, which stores digits, and CVTDBO, which reads them. Both can be interrupted after
    any digit and are then executed again from the state in the ACs. */
module Decimal {
  import opened Common
  import opened Words

  const W71 := 2 * W70

  /** Powers of ten, in two words of 36 and 35 bits. */
  const POWERS: seq<(int, int)> := [
    (0, 0),
    (0, 1),
    (0, 10),
    (0, 100),
    (0, 1000),
    (0, 10000),
    (0, 100000),
    (0, 1000000),
    (0, 10000000),
    (0, 100000000),
    (0, 1000000000),
    (0, 10000000000),
    (2, 31280523264),
    (29, 3567587328),
    (291, 1316134912),
    (2910, 13161349120),
    (29103, 28534276096),
    (291038, 10464854016),
    (2910383, 1569325056),
    (29103830, 15693250560),
    (291038304, 19493552128),
    (2910383045, 23136829440),
    (29103830456, 25209864192)]

  function Pow10(n: nat): (p: nat)
    ensures p >= 1
  {
    if n == 0 then 1 else 10 * Pow10(n - 1)
  }

  function Power(i: nat): (int, int)
    requires i < 23
  {
    POWERS[i]
  }

  lemma {:induction false} PowerStep(i: nat)
    requires 1 <= i < 22
    ensures Double(Power(i + 1).0, Power(i + 1).1) == 10 * Double(Power(i).0, Power(i).1)
    ensures 0 <= Power(i).0 && 0 <= Power(i).1 < W35 && 0 <= Power(i + 1).0 && 0 <= Power(i + 1).1 < W35
  {
  }

  /** Entry i of the table is the (i-1)-th power of ten. */
  lemma {:induction false} PowersExact(i: nat)
    requires 1 <= i <= 22
    ensures Double(Power(i).0, Power(i).1) == Pow10(i - 1)
    ensures 0 <= Power(i).0 && 0 <= Power(i).1 < W35
  {
    if i > 1 {
      PowersExact(i - 1);
      PowerStep(i - 1);
      hide Power;
    }
  }

  // ---------------------------------------------------------------- digits

  function Value(ds: seq<int>): int {
    if ds == [] then 0 else Value(ds[..|ds| - 1]) * 10 + ds[|ds| - 1]
  }

  /** The last `n` digits of a number, the most significant first. */
  function Digits(v: nat, n: nat): (ds: seq<int>)
    ensures |ds| == n && forall i :: 0 <= i < n ==> 0 <= ds[i] <= 9
  {
    if n == 0 then [] else Digits(v / 10, n - 1) + [v % 10]
  }

  /** The number of digits, at least one. */
  function Width(v: nat): (n: nat)
    ensures n >= 1 && v < Pow10(n) && (n > 1 ==> Pow10(n - 1) <= v)
  {
    if v < 10 then assert Pow10(1) == 10; 1 else Width(v / 10) + 1
  }

  /** The digits of a number that has no more of them are worth the number. */
  lemma {:induction false} DigitsValue(v: nat, n: nat)
    requires v < Pow10(n)
    ensures Value(Digits(v, n)) == v
  {
    if n > 0 {
      DigitsValue(v / 10, n - 1);
      var ds := Digits(v, n);
      assert ds[..n - 1] == Digits(v / 10, n - 1) && ds[n - 1] == v % 10;
    }
  }

  /** The first digit is what a division by the power of ten gives, and the others are
      those of the remainder. */
  lemma {:induction false} FirstDigit(v: nat, n: nat, d: int, r: nat)
    requires n >= 1 && v == Product(d, Pow10(n - 1)) + r && r < Pow10(n - 1) && 0 <= d <= 9
    ensures Digits(v, n) == [d] + Digits(r, n - 1)
  {
    if n == 1 {
      assert v == d && Digits(v / 10, 0) == [];
    } else {
      var p := Pow10(n - 2);
      SplitTen(v, d, p, r);
      FirstDigit(v / 10, n - 1, d, r / 10);
      assert Digits(v, n) == Digits(v / 10, n - 1) + [v % 10];
      assert Digits(r, n - 1) == Digits(r / 10, n - 2) + [r % 10];
    }
  }

  lemma {:induction false} SplitTen(v: nat, d: int, p: nat, r: nat)
    requires v == Product(d, 10 * p) + r && r < 10 * p
    ensures v / 10 == Product(d, p) + r / 10 && v % 10 == r % 10 && r / 10 < p
  {
    assert d * (10 * p) == 10 * (d * p);
  }

  /** No digit is wasted: the first of several is not zero. */
  lemma {:induction false} NoLeadingZero(v: nat, n: nat)
    requires n > 1 && Pow10(n - 1) <= v < Pow10(n)
    ensures Digits(v, n)[0] != 0
  {
    if n > 2 {
      NoLeadingZero(v / 10, n - 1);
    } else {
      assert Pow10(1) == 10;
    }
  }

  lemma {:induction false} PowMono(m: nat, n: nat)
    requires m <= n
    ensures Pow10(m) <= Pow10(n)
    decreases n
  {
    if m < n {
      PowMono(m, n - 1);
    }
  }

  lemma {:induction false} WidthUnique(v: nat, n: nat)
    requires n >= 1 && v < Pow10(n) && (n > 1 ==> Pow10(n - 1) <= v)
    ensures Width(v) == n
  {
    var k := Width(v);
    if k < n {
      PowMono(k, n - 1);
    } else if k > n {
      PowMono(n, k - 1);
    }
  }

  lemma {:induction false} WidthFits(v: nat)
    requires v <= W70
    ensures v < Pow10(22) && Width(v) <= 22
  {
    PowersExact(22);
    var k := Width(v);
    if k > 22 {
      PowMono(22, k - 1);
    }
  }

  // ---------------------------------------------------------------- bytes

  /** The offset that the effective address of the extended instruction gives. */
  function Offset(e1: nat): (x: int)
    requires e1 < W18
    ensures 0 <= x < W36
  {
    if e1 >= 0x2_0000 then e1 + (W36 - W18) else e1
  }

  /** The byte of `size` bits that is stored for a digit. */
  function Code(d: int, e1: nat, size: nat): (b: int)
    requires e1 < W18
    ensures 0 <= b < Pow2(size)
  {
    (d + Offset(e1)) % W36 % Pow2(size)
  }

  function Codes(ds: seq<int>, e1: nat, size: nat): (bs: seq<int>)
    requires e1 < W18
    ensures |bs| == |ds|
  {
    if ds == [] then [] else [Code(ds[0], e1, size)] + Codes(ds[1..], e1, size)
  }

  /** The offset has a sign, and the sum is cut to a word and then to a byte. */
  lemma {:induction false} CodesAt(ds: seq<int>, e1: nat, size: nat, i: nat)
    requires e1 < W18 && i < |ds|
    ensures Codes(ds, e1, size)[i] == (ds[i] + (if e1 < 0x2_0000 then e1 else e1 - 0x4_0000)) % 0x10_0000_0000 % Pow2(size)
  {
    if i > 0 {
      CodesAt(ds[1..], e1, size, i - 1);
    } else {
      SignedOffset(ds[0], e1);
    }
  }

  lemma {:induction false} SignedOffset(d: int, e1: nat)
    requires e1 < W18
    ensures (d + Offset(e1)) % W36 == (d + (if e1 < 0x2_0000 then e1 else e1 - 0x4_0000)) % 0x10_0000_0000
  {
  }

  function Fills(n: nat, fill: int): (bs: seq<int>)
    ensures |bs| == n
  {
    if n == 0 then [] else [fill] + Fills(n - 1, fill)
  }

  /** The fill bytes before a number of `n` digits in a field of `len`. */
  function Padding(leading: bool, len: nat, n: nat, fill: int): seq<int> {
    if leading && n <= len then Fills(len - n, fill) else []
  }

  /** Fill bytes come only when asked for, and make the number as long as the field. */
  lemma {:induction false} PaddingIs(leading: bool, len: nat, n: nat, fill: int)
    ensures |Padding(leading, len, n, fill)| == if leading && n < len then len - n else 0
    ensures forall b :: b in Padding(leading, len, n, fill) ==> b == fill
  {
    if n <= len {
      FillsAre(len - n, fill);
    }
  }

  lemma {:induction false} FillsAre(n: nat, fill: int)
    ensures forall b :: b in Fills(n, fill) ==> b == fill
  {
    if n > 0 {
      FillsAre(n - 1, fill);
    }
  }

  // ---------------------------------------------------------------- binary to decimal

  datatype Ret = Skip | NoSkip | Interrupted

  /** CVTBDO: AC and AC+1, the flags and the length of AC+3, and the flag that says that the
      set up is done. `out` is what was stored through the byte pointer of AC+4. */
  class Printer {
    var hi: word
    var lo: word
    var len: nat
    var leading: bool
    var nonzero: bool
    var minus: bool
    var fpd: bool
    var out: seq<int>
    const size: nat

    constructor (hi: word, lo: word, len: nat, leading: bool, size: nat)
      ensures this.hi == hi && this.lo == lo && this.len == len && this.leading == leading && this.size == size
      ensures !nonzero && !minus && !fpd && out == []
    {
      this.hi, this.lo, this.len, this.leading, this.size := hi, lo, len, leading, size;
      nonzero, minus, fpd, out := false, false, false, [];
    }

    ghost predicate Valid()
      reads this
    {
      fpd ==> lo < W35 && Double(hi, lo) < Pow10(len) && len <= 22
    }

    /** What is left to print. */
    ghost function Amount(): nat
      reads this
    {
      if fpd then Double(hi, lo % W35) else Magnitude(Signed2(hi, lo))
    }

    /** The number is not too long for the field. */
    ghost predicate Fits()
      reads this
    {
      fpd || Width(Amount()) <= len
    }

    ghost function Pending(e1: nat, fill: word): seq<int>
      requires e1 < W18
      reads this
    {
      if fpd then Codes(Digits(Amount(), len), e1, size)
      else
        var n := Width(Amount());
        Padding(leading, len, n, fill % Pow2(size)) + Codes(Digits(Amount(), n), e1, size)
    }

    /** What the M flag and the N flag will show: the sign, and that the number is not zero. */
    ghost function Flags(): (bool, bool)
      reads this
    {
      (minus || (!fpd && Tsts(hi)), nonzero || (!fpd && (hi != 0 || lo != 0)))
    }

    /** The absolute value. */
    method Absolute() returns (r0: int, r1: int)
      requires !fpd
      ensures 0 <= r0 <= W35 && 0 <= r1 < W35 && Double(r0, r1) == Amount()
    {
      AbsoluteValue(hi, lo);
      hide Tsts, Clrs, Dmovn, Double, Magnitude, Signed2;
      r0, r1 := hi, Clrs(lo);
      if Tsts(hi) {
        var rs := Dmovn(r0, r1);
        r0, r1 := rs.0, rs.1;
      }
    }

    /** filldst, which an interrupt stops after some bytes: the test for one is made before
        each byte but the first, and finds one after `patience` tests. */
    method FillDst(fill: word, cnt: nat, patience: nat) returns (done: bool, left: nat)
      requires cnt <= len
      modifies this`out, this`len
      ensures len <= old(len) && out == old(out) + Fills(old(len) - len, fill % Pow2(size))
      ensures done ==> old(len) - len == cnt
      ensures !done ==> patience < cnt && 0 < old(len) - len < cnt && old(len) - len == patience + 1
      ensures patience - (old(len) - len) <= left <= patience
    {
      left := patience;
      ghost var f := fill % Pow2(size);
      for i := 0 to cnt
        invariant len == old(len) - i && out == old(out) + Fills(i, f)
        invariant left == if i == 0 then patience else patience - (i - 1)
      {
        if i > 0 {
          if left == 0 {
            return false, 0;
          }
          left := left - 1;
        }
        FillsAdd(i, 1, f);
        out := out + [fill % Pow2(size)];
        len := len - 1;
      }
      return true, left;
    }

    /** The field becomes as wide as the number. */
    method Pad(i: nat, fill: word, patience: nat) returns (done: bool, left: nat)
      requires i <= len
      modifies this`out, this`len
      ensures var f := fill % Pow2(size);
        out + Padding(leading, len, i, f) == old(out) + Padding(leading, old(len), i, f)
      ensures done ==> Padding(leading, len, i, fill % Pow2(size)) == []
      ensures i <= len && (done ==> len == i) && patience - (|out| - |old(out)|) <= left <= patience
      ensures !done ==> |out| > |old(out)| && patience < |Padding(leading, old(len), i, fill % Pow2(size))|
    {
      hide Fills, Padding;
      ghost var n, f := len, fill % Pow2(size);
      if i < len && leading {
        done, left := FillDst(fill, len - i, patience);
        PaddingLeft(old(out), n, len, i, f);
      } else {
        NoPadding(leading, n, i, f);
        len := i;
        done, left := true, patience;
      }
      if done {
        NoPadding(leading, i, i, f);
      }
    }

    /** The end of the set up. */
    method Commit(r0: int, r1: int)
      requires !fpd && 0 <= r0 <= W35 && 0 <= r1 < W35 && Double(r0, r1) == Amount() && len == Width(Amount()) <= 22
      modifies this`minus, this`nonzero, this`hi, this`lo, this`fpd
      ensures fpd && Valid() && Amount() == old(Amount()) && Flags() == old(Flags())
    {
      hide Width, Tsts, Double, Magnitude, Signed2;
      if Tsts(hi) {
        minus := true;
      }
      if hi != 0 || lo != 0 {
        nonzero := true;
      }
      hi, lo, fpd := r0, r1, true;
      assert lo % W35 == lo;
    }

    /** The rest of the set up, for a number of `i` digits that fits. */
    method Arrange(r0: int, r1: int, i: nat, e1: nat, fill: word, patience: nat) returns (done: bool, left: nat)
      requires e1 < W18 && !fpd && i == Width(Amount()) <= 22 && i <= len
      requires 0 <= r0 <= W35 && 0 <= r1 < W35 && Double(r0, r1) == Amount()
      modifies this
      ensures Valid() && patience - (|out| - |old(out)|) <= left <= patience
      ensures out + Pending(e1, fill) == old(out + Pending(e1, fill)) && Flags() == old(Flags())
      ensures (done <==> fpd) && Fits()
      ensures !done ==> |out| > |old(out)| && patience < |old(Pending(e1, fill))|
    {
      hide Width, Codes, Digits, Fills, Double, Signed2, Magnitude, Padding, Tsts;
      ghost var f := fill % Pow2(size);
      ghost var cs, before := Codes(Digits(Amount(), i), e1, size), Padding(leading, len, i, f);
      assert Pending(e1, fill) == before + cs;
      done, left := Pad(i, fill, patience);
      ghost var after := Padding(leading, len, i, f);
      StillPending(old(out), before, out, after, cs);
      if !done {
        assert Pending(e1, fill) == after + cs;
        return;
      }
      Commit(r0, r1);
      assert Pending(e1, fill) == cs && after + cs == cs;
    }

    /** The set up, which an interrupt in filldst makes the instruction do again. */
    method SetUp(e1: nat, fill: word, patience: nat) returns (r: Ret, left: nat)
      requires e1 < W18 && !fpd
      modifies this
      ensures Valid() && patience - (|out| - |old(out)|) <= left <= patience
      ensures (r == NoSkip <==> !old(Fits())) && Fits() == old(Fits())
      ensures r == NoSkip ==> !fpd && out == old(out) && Pending(e1, fill) == old(Pending(e1, fill))
      ensures r != NoSkip ==> out + Pending(e1, fill) == old(out + Pending(e1, fill)) && Flags() == old(Flags())
      ensures r == Interrupted ==> !fpd && |out| > |old(out)| && patience < |old(Pending(e1, fill))|
      ensures r == Skip ==> fpd
    {
      var r0, r1 := Absolute();
      WidthFits(Amount());
      var i := FieldWidth(r0, r1);
      hide Width, Codes, Digits, Fills, Double, Signed2, Magnitude, Padding, Tsts;
      if i > len {
        return NoSkip, patience;
      }
      var done;
      done, left := Arrange(r0, r1, i, e1, fill, patience);
      r := if done then Skip else Interrupted;
    }

    /** A round of the digit loop. */
    method PrintDigit(e1: nat)
      requires Valid() && fpd && len > 0 && e1 < W18
      modifies this`hi, this`lo, this`len, this`out
      ensures Valid() && fpd && len == old(len) - 1 && |out| == |old(out)| + 1
      ensures out + Codes(Digits(Amount(), len), e1, size) == old(out + Codes(Digits(Amount(), len), e1, size))
    {
      hide Codes, Digits, Double, Pow10, Product, Code;
      var i := if len > 22 then 22 else len;
      var d, q0, q1 := TakeDigit(hi, lo, i);
      FirstDigit(Double(hi, lo), len, d, Double(q0, q1));
      Bounded(q0, q1, len - 1);
      CodesCons(d, Digits(Double(q0, q1), len - 1), e1, size);
      assert lo % W35 == lo && q1 % W35 == q1;
      ghost var rest := Codes(Digits(Double(q0, q1), len - 1), e1, size);
      var b := Code(d, e1, size);
      assert out + [b] + rest == out + ([b] + rest);
      out := out + [b];
      hi, lo, len := q0, q1, len - 1;
    }

    /** The digit loop, which an interrupt stops after some digits, after `patience` tests. */
    method PrintDigits(e1: nat, patience: nat) returns (done: bool)
      requires Valid() && fpd && e1 < W18
      modifies this`hi, this`lo, this`len, this`out
      ensures Valid() && fpd
      ensures out + Codes(Digits(Amount(), len), e1, size) == old(out + Codes(Digits(Amount(), len), e1, size))
      ensures done ==> len == hi == lo == 0
      ensures !done ==> |out| > |old(out)| && patience < old(len) && |out| - |old(out)| == patience + 1
    {
      var again, left := false, patience;
      ghost var all := out + Codes(Digits(Amount(), len), e1, size);
      hide Codes, Digits, Double, Pow10;
      while len > 0
        invariant Valid() && fpd && out + Codes(Digits(Amount(), len), e1, size) == all
        invariant len <= old(len) && |out| - |old(out)| == old(len) - len
        invariant if again then len < old(len) && left == patience - (old(len) - len - 1) else len == old(len) && left == patience
      {
        if again {
          if left == 0 {
            return false;
          }
          left := left - 1;
        }
        PrintDigit(e1);
        again := true;
      }
      NothingLeft(hi, lo);
      return true;
    }

    /** CVTBDO, executed until it is done or an interrupt stops it. */
    method Execute(e1: nat, fill: word, patience: nat) returns (r: Ret)
      requires Valid() && e1 < W18
      modifies this
      ensures Valid()
      ensures (r == NoSkip <==> !old(Fits())) && (r == Interrupted ==> Fits())
      ensures r == NoSkip ==> !fpd && out == old(out) && Pending(e1, fill) == old(Pending(e1, fill))
      ensures r != NoSkip ==> Flags() == old(Flags())
      ensures r == Skip ==> !fpd && out == old(out + Pending(e1, fill)) && (minus, nonzero) == Flags()
      ensures r == Interrupted ==> out + Pending(e1, fill) == old(out + Pending(e1, fill)) && |out| > |old(out)|
      ensures r == Interrupted ==> patience < |old(Pending(e1, fill))|
    {
      hide Width, Codes, Digits, Double, Fills, Padding, Pow10;
      var left := patience;
      if !fpd {
        r, left := SetUp(e1, fill, patience);
        if r != Skip {
          return;
        }
      }
      var done := PrintDigits(e1, left);
      if !done {
        return Interrupted;
      }
      NoDigits(Amount(), e1, size);
      fpd := false;
      return Skip;
    }

    /** CVTBDO to its end, executed again after every interrupt. The k-th execution sees one
        after `patience[k]` tests, and those after the last are left alone. However it is cut
        up, it stores the same bytes and ends with the same flags. */
    method Complete(e1: nat, fill: word, patience: seq<nat>) returns (r: Ret)
      requires Valid() && e1 < W18
      modifies this
      ensures Valid() && !fpd
      ensures r == if old(Fits()) then Skip else NoSkip
      ensures r == NoSkip ==> out == old(out)
      ensures r == Skip ==> out == old(out + Pending(e1, fill)) && (minus, nonzero) == old(Flags())
      ensures r == Skip ==> minus == (old(minus) || (!old(fpd) && old(hi) >= 0x8_0000_0000))
      ensures r == Skip ==> nonzero == (old(nonzero) || (!old(fpd) && (old(hi) != 0 || old(lo) != 0)))
    {
      SignBit(hi);
      ghost var all := out + Pending(e1, fill);
      var k := 0;
      hide Width, Codes, Digits, Fills, Double, Signed2, Magnitude, Padding, Tsts, Pow10, Pow2;
      while true
        invariant Valid() && Fits() == old(Fits()) && out + Pending(e1, fill) == all
        invariant Flags() == old(Flags()) && (out == old(out) || Fits())
        decreases |Pending(e1, fill)|
      {
        PendingBound(e1, fill);
        r := Execute(e1, fill, if k < |patience| then patience[k] else len + 22);
        k := k + 1;
        if r != Interrupted {
          return;
        }
      }
    }

    /** What is to be printed: a new number in full, or what is left of one. */
    lemma {:induction false} PendingIs(e1: nat, fill: word)
      requires e1 < W18
      ensures
        var v := Magnitude(Signed2(hi, lo));
        !fpd ==>
          && (Fits() <==> Width(v) <= len)
          && Pending(e1, fill) == Padding(leading, len, Width(v), fill % Pow2(size)) + Codes(Digits(v, Width(v)), e1, size)
      ensures fpd ==> Fits() && Pending(e1, fill) == Codes(Digits(Double(hi, lo % W35), len), e1, size)
    {
      hide Width, Padding, Codes, Digits, Magnitude, Signed2, Pow2;
    }

    lemma {:induction false} PendingBound(e1: nat, fill: word)
      requires e1 < W18 && Valid()
      ensures |Pending(e1, fill)| <= len + 22
    {
      if !fpd {
        WidthFits(Amount());
      }
      hide Width, Digits, Fills, Codes;
    }
  }

  lemma {:induction false} SignBit(w: word)
    ensures Tsts(w) <==> w >= 0x8_0000_0000
  {
  }

  lemma {:induction false} NothingLeft(hi: int, lo: int)
    requires hi >= 0 && lo >= 0 && Double(hi, lo) < Pow10(0)
    ensures hi == lo == 0
  {
  }

  lemma {:induction false} NoDigits(v: nat, e1: nat, size: nat)
    requires e1 < W18
    ensures Codes(Digits(v, 0), e1, size) == []
  {
  }

  lemma {:induction false} AbsoluteValue(hi: word, lo: word)
    ensures 0 <= Clrs(lo) < W35
    ensures var rs := if Tsts(hi) then Dmovn(hi, Clrs(lo)) else (hi, Clrs(lo));
      0 <= rs.0 <= W35 && 0 <= rs.1 < W35 && Double(rs.0, rs.1) == Magnitude(Signed2(hi, lo))
  {
    assert Tsts(hi) <==> hi >= W35;
    hide Tsts, Clrs, Dmovn;
  }

  /** What was padded and what is left of it. */
  lemma {:induction false} PaddingLeft(was: seq<int>, n: nat, len: nat, i: nat, fill: int)
    requires i <= len <= n
    ensures was + Fills(n - len, fill) + Padding(true, len, i, fill) == was + Padding(true, n, i, fill)
    ensures |Padding(true, n, i, fill)| == n - i
  {
    hide Fills;
    FillsAdd(n - len, len - i, fill);
    Associate(was, Fills(n - len, fill), Fills(len - i, fill));
  }

  lemma {:induction false} NoPadding(leading: bool, n: nat, i: nat, fill: int)
    requires i <= n && (leading ==> i == n)
    ensures Padding(leading, n, i, fill) == Padding(leading, i, i, fill) == []
  {
  }

  /** What is to come after the padding comes after what is left of it. */
  lemma {:induction false} StillPending(was: seq<int>, before: seq<int>, out: seq<int>, after: seq<int>, codes: seq<int>)
    requires out + after == was + before
    ensures out + (after + codes) == was + (before + codes)
  {
    Associate(out, after, codes);
    Associate(was, before, codes);
  }

  lemma {:induction false} CodesCons(d: int, ds: seq<int>, e1: nat, size: nat)
    requires e1 < W18
    ensures Codes([d] + ds, e1, size) == [Code(d, e1, size)] + Codes(ds, e1, size)
  {
    assert ([d] + ds)[1..] == ds;
  }

  lemma {:induction false} Bounded(q0: int, q1: int, n: nat)
    requires 0 <= q0 && 0 <= q1 < W35 && Double(q0, q1) < Pow10(n) && n <= 21
    ensures q0 < W36
  {
    PowMono(n, 21);
    PowersExact(22);
  }

  lemma {:induction false} FillsAdd(m: nat, n: nat, fill: int)
    ensures Fills(m + n, fill) == Fills(m, fill) + Fills(n, fill)
    ensures Fills(1, fill) == [fill]
  {
    if m > 0 {
      FillsAdd(m - 1, n, fill);
    }
    assert Fills(0, fill) == [];
  }

  /** The search for the field width. */
  method FieldWidth(r0: int, r1: int) returns (i: nat)
    requires 0 <= r0 && 0 <= r1 < W35 && Double(r0, r1) < Pow10(22)
    ensures i == Width(Double(r0, r1)) <= 22
  {
    hide Width, Pow10, Dcmpge, Power;
    i := 22;
    while i > 1
      invariant 1 <= i <= 22 && Double(r0, r1) < Pow10(i)
    {
      var more := Reaches(r0, r1, i);
      if more {
        break;
      }
      i := i - 1;
    }
    WidthUnique(Double(r0, r1), i);
  }

  method Reaches(r0: int, r1: int, i: nat) returns (b: bool)
    requires 0 <= r0 && 0 <= r1 < W35 && 1 <= i <= 22
    ensures b <==> Double(r0, r1) >= Pow10(i - 1)
  {
    hide Double;
    PowersExact(i);
    SubtractDouble(r0, r1, Power(i).0, Power(i).1);
    b := Dcmpge(r0, r1, Power(i).0, Power(i).1);
  }

  /** A digit, by repeated subtraction of entry `i` of the table. */
  method TakeDigit(r0: int, r1: int, i: nat) returns (d: int, q0: int, q1: int)
    requires 0 <= r0 && 0 <= r1 < W35 && 1 <= i <= 22 && Double(r0, r1) < Pow10(i)
    ensures 0 <= d <= 9 && 0 <= q0 && 0 <= q1 < W35 && Double(q0, q1) < Pow10(i - 1)
    ensures Double(r0, r1) == Product(d, Pow10(i - 1)) + Double(q0, q1)
  {
    ghost var v, p := Double(r0, r1), Pow10(i - 1);
    PowersExact(i);
    assert v < 10 * p;
    var p0, p1 := Power(i).0, Power(i).1;
    hide Pow10, Dcmpge, Product, Power, Double;
    d, q0, q1 := 0, r0, r1;
    ProductAdd(p, 0, 0);
    ProductTen(p);
    SubtractDouble(q0, q1, p0, p1);
    while d < 10 && Dcmpge(q0, q1, p0, p1)
      invariant 0 <= d <= 10 && 0 <= q0 && 0 <= q1 < W35 && v == Product(d, p) + Double(q0, q1)
      invariant Dcmpge(q0, q1, p0, p1) <==> Double(q0, q1) >= p
    {
      q0 := q0 - p0 - if q1 < p1 then 1 else 0;
      q1 := (q1 - p1) % W35;
      ProductNext(d, p);
      d := d + 1;
      SubtractDouble(q0, q1, p0, p1);
    }
  }

  lemma {:induction false} ProductNext(d: int, p: int)
    ensures Product(d + 1, p) == Product(d, p) + p
  {
  }

  lemma {:induction false} ProductTen(p: int)
    ensures Product(10, p) == 10 * p && Product(0, p) == 0
  {
  }

  // ---------------------------------------------------------------- decimal to binary

  function Decode(b: int, e1: nat): (d: int)
    requires e1 < W18
    ensures 0 <= d < W36
  {
    (b + Offset(e1)) % W36
  }

  function Decodes(bs: seq<int>, e1: nat): (ds: seq<int>)
    requires e1 < W18
    ensures |ds| == |bs|
  {
    if bs == [] then [] else [Decode(bs[0], e1)] + Decodes(bs[1..], e1)
  }

  lemma {:induction false} DecodesAt(bs: seq<int>, e1: nat, i: nat)
    requires e1 < W18 && i < |bs|
    ensures Decodes(bs, e1)[i] == (bs[i] + (if e1 < 0x2_0000 then e1 else e1 - 0x4_0000)) % 0x10_0000_0000
  {
    if i > 0 {
      DecodesAt(bs[1..], e1, i - 1);
    } else {
      SignedOffset(bs[0], e1);
    }
  }

  datatype Scanned = Scanned(v: int, rest: seq<int>, ok: bool)

  /** Digits are taken in until one is out of range; the number is kept modulo 2^71. */
  function Scan(v: int, ds: seq<int>): Scanned
    decreases |ds|
  {
    if ds == [] then Scanned(v, [], true)
    else if ds[0] > 9 then Scanned(v, ds[1..], false)
    else Scan((v * 10 + ds[0]) % W71, ds[1..])
  }

  /** The first digit out of range ends it: those before it count, and those after it are left. */
  lemma {:induction false} ScanStops(v: int, ds: seq<int>, k: nat)
    requires k < |ds| && ds[k] > 9 && forall i :: 0 <= i < k ==> ds[i] <= 9
    ensures Scan(v, ds) == Scanned(Scan(v, ds[..k]).v, ds[k + 1..], false)
    decreases k
  {
    if k > 0 {
      ScanStops((v * 10 + ds[0]) % W71, ds[1..], k - 1);
      assert ds[..k][1..] == ds[1..][..k - 1] && ds[1..][k..] == ds[k + 1..];
    }
  }

  /** The number in 71 bits, the highest of which is the sign. */
  function Wrapped(n: int): (r: int)
    ensures -W70 <= r < W70 && (n - r) % W71 == 0 && (-W70 <= n < W70 ==> r == n)
  {
    assert n + W70 == (n + W70) / W71 * W71 + (n + W70) % W71;
    (n + W70) % W71 - W70
  }

  /** CVTDBO: the source length and the flags of AC, and the result in AC+3 and AC+4. `pos`
      is where the byte pointer of AC+1 is in the source. */
  class Parser {
    const src: seq<int>
    var pos: nat
    var len: nat
    var started: bool
    var minus: bool
    var hi: word
    var lo: word

    constructor (src: seq<int>, len: nat, minus: bool, hi: word, lo: word)
      requires len <= |src|
      ensures Valid() && this.src == src && pos == 0 && this.len == len && this.minus == minus && !started
    {
      this.src, this.len, this.minus, this.hi, this.lo := src, len, minus, hi, lo;
      pos, started := 0, false;
    }

    ghost predicate Valid()
      reads this
    {
      pos + len <= |src|
    }

    /** What the digits that are left make of the result so far. */
    ghost function Outcome(e1: nat): Scanned
      requires Valid() && e1 < W18
      reads this
    {
      Scan(if started then Double(hi, lo % W35) else 0, Decodes(src[pos..pos + len], e1))
    }

    /** The result as it is, with the sign in both words. */
    ghost predicate Consistent()
      reads this
    {
      Tsts(lo) <==> Tsts(hi)
    }

    /** The result times ten, plus a digit. */
    method Shift(b: int)
      requires lo < W35 && 0 <= b <= 9
      modifies this`hi, this`lo
      ensures lo < W35 && lo % W35 == lo && Double(hi, lo) == (old(Double(hi, lo)) * 10 + b) % W71
    {
      ShiftIn(hi, lo, b);
      hide *;
      var l := lo * 10 + b;
      var h := (hi * 10 + l / W35) % W36;
      hi, lo := h, l % W35;
    }

    /** A round of the loop: the byte is in range, or the scan ends here. */
    method TakeByte(e1: nat) returns (good: bool)
      requires Valid() && e1 < W18 && len > 0 && started && lo < W35
      modifies this`pos, this`len, this`hi, this`lo
      ensures Valid() && len == old(len) - 1 && lo < W35
      ensures good ==> Outcome(e1) == old(Outcome(e1))
      ensures !good ==> old(Outcome(e1)) == Scanned(Double(hi, lo), Decodes(src[pos..pos + len], e1), false)
    {
      assert lo % W35 == lo;
      ScanByte(Double(hi, lo), src[pos..pos + len], e1);
      assert src[pos..pos + len][0] == src[pos] && src[pos..pos + len][1..] == src[pos + 1..pos + len];
      hide Decode, Decodes, Double, Scan;
      var b := Decode(src[pos], e1);
      pos, len := pos + 1, len - 1;
      if b > 9 {
        return false;
      }
      Shift(b);
      return true;
    }

    /** The sign of the low word follows that of the high word. */
    method SignLow()
      requires lo < W35
      modifies this`lo
      ensures Consistent() && lo % W35 == old(lo)
    {
      if Tsts(hi) {
        lo := lo + W35;
      }
    }

    /** The end of CVTDBO, when all digits were in range. */
    method Finish()
      requires lo < W35
      modifies this`hi, this`lo
      ensures Consistent()
      ensures Signed2(hi, lo) == Wrapped(if minus then -old(Double(hi, lo)) else old(Double(hi, lo)))
    {
      ghost var v := Double(hi, lo);
      if minus {
        NegateDouble(hi, lo);
        WrappedNegation(v);
        var rs := Dmovn(hi, lo);
        hi, lo := rs.0, rs.1;
      }
      SignedDouble(hi, lo);
      hide Dmovn, Tsts, Wrapped;
      SignLow();
    }

    /** The loop over the bytes, which an interrupt or a byte out of range stops. */
    method TakeBytes(e1: nat, patience: nat) returns (r: Ret)
      requires Valid() && e1 < W18 && started && lo < W35
      modifies this`pos, this`len, this`hi, this`lo
      ensures Valid() && lo < W35
      ensures r == NoSkip ==> old(Outcome(e1)) == Scanned(Double(hi, lo), Decodes(src[pos..pos + len], e1), false)
      ensures r != NoSkip ==> Outcome(e1) == old(Outcome(e1))
      ensures r == Interrupted ==> len < old(len) && patience < old(len) && old(len) - len == patience + 1
      ensures r == Skip ==> len == 0
    {
      ghost var n, o := len, Outcome(e1);
      var left, again := patience, false;
      hide Double, Decodes, Scan;
      while len > 0
        invariant Valid() && started && lo < W35 && Outcome(e1) == o && len <= n
        invariant if again then len < n && left == patience - (n - len - 1) else left == patience && len == n
      {
        if again {
          if left == 0 {
            return Interrupted;
          }
          left := left - 1;
        }
        var good := TakeByte(e1);
        if !good {
          return NoSkip;
        }
        again := true;
      }
      return Skip;
    }

    /** CVTDBO, executed until it is done or an interrupt stops it. */
    method Execute(e1: nat, patience: nat) returns (r: Ret)
      requires Valid() && e1 < W18
      modifies this
      ensures Valid() && minus == old(minus) && started
      ensures r == Interrupted ==> Outcome(e1) == old(Outcome(e1)) && len < old(len) && old(len) - len == patience + 1
      ensures r == Skip <==> r != Interrupted && old(Outcome(e1)).ok
      ensures r == NoSkip ==> Double(hi, lo % W35) == old(Outcome(e1)).v && len == |old(Outcome(e1)).rest| && Consistent()
      ensures r == Skip ==> len == 0 && Consistent()
      ensures r == Skip ==> Signed2(hi, lo) == Wrapped(if minus then -old(Outcome(e1)).v else old(Outcome(e1)).v)
    {
      if !started {
        hi, lo := 0, 0;
      } else {
        lo := Clrs(lo);
      }
      started := true;
      assert lo < W35 && lo % W35 == lo && Outcome(e1) == old(Outcome(e1));
      hide Double, Decodes, Signed2, Tsts, Consistent, Scan, Wrapped;
      r := TakeBytes(e1, patience);
      if r == NoSkip {
        SignLow();
      } else if r == Skip {
        EmptyScan(src[pos..pos + len], hi, lo, e1);
        Finish();
      }
    }

    /** CVTDBO to its end, executed again after every interrupt. */
    method Complete(e1: nat, patience: seq<nat>) returns (r: Ret)
      requires Valid() && e1 < W18
      modifies this
      ensures Valid() && minus == old(minus) && Consistent()
      ensures r == if old(Outcome(e1)).ok then Skip else NoSkip
      ensures r == NoSkip ==> Double(hi, lo % W35) == old(Outcome(e1)).v && len == |old(Outcome(e1)).rest|
      ensures r == Skip ==> Signed2(hi, lo) == Wrapped(if minus then -old(Outcome(e1)).v else old(Outcome(e1)).v)
    {
      ghost var o := Outcome(e1);
      var k := 0;
      hide Double, Decodes, Signed2, Tsts, Consistent, Scan, Wrapped;
      while true
        invariant Valid() && Outcome(e1) == o && minus == old(minus)
        decreases len
      {
        r := Execute(e1, if k < |patience| then patience[k] else len);
        k := k + 1;
        if r != Interrupted {
          return;
        }
      }
    }
  }

  lemma {:induction false} ScanByte(v: int, bs: seq<int>, e1: nat)
    requires e1 < W18 && bs != []
    ensures var d, rest := Decode(bs[0], e1), Decodes(bs[1..], e1);
      Scan(v, Decodes(bs, e1)) == if d > 9 then Scanned(v, rest, false) else Scan((v * 10 + d) % W71, rest)
  {
    var ds := Decodes(bs, e1);
    assert ds[0] == Decode(bs[0], e1) && ds[1..] == Decodes(bs[1..], e1);
  }

  lemma {:induction false} EmptyScan(bs: seq<int>, hi: word, lo: word, e1: nat)
    requires e1 < W18 && bs == [] && lo < W35
    ensures Scan(Double(hi, lo % W35), Decodes(bs, e1)) == Scanned(Double(hi, lo), [], true)
  {
  }

  lemma {:induction false} ShiftIn(hi: word, lo: int, b: int)
    requires 0 <= lo < W35 && 0 <= b <= 9
    ensures var l := lo * 10 + b;
      && Double((hi * 10 + l / W35) % W36, l % W35) == (Double(hi, lo) * 10 + b) % W71
      && l % W35 % W35 == l % W35
  {
    var l := lo * 10 + b;
    var h := hi * 10 + l / W35;
    var k, h', l' := h / W36, h % W36, l % W35;
    ShiftSum(hi, lo, b, l / W35, l', k, h');
    hide Double;
    Wrap(k, Double(h', l'));
  }

  lemma {:induction false} ShiftSum(hi: int, lo: int, b: int, q: int, l: int, k: int, h: int)
    requires lo * 10 + b == W35 * q + l && hi * 10 + q == W36 * k + h && 0 <= l < W35 && 0 <= h < W36
    ensures Double(hi, lo) * 10 + b == W71 * k + Double(h, l) && 0 <= Double(h, l) < W71
  {
  }

  lemma {:induction false} Wrap(k: int, r: int)
    requires 0 <= r < W71
    ensures (W71 * k + r) % W71 == r
  {
  }

  lemma {:induction false} NegateDouble(hi: word, lo: int)
    requires 0 <= lo < W35
    ensures var rs := Dmovn(hi, lo);
      Double(rs.0, rs.1) == if Double(hi, lo) == 0 then 0 else W71 - Double(hi, lo)
  {
    hide Dmovn;
  }

  lemma {:induction false} WrappedNegation(v: int)
    ensures Wrapped(-v) == Wrapped(W71 - v) && Wrapped(0) == 0
  {
  }

  /** A double word modulo 2^71, read as a signed number. */
  lemma {:induction false} SignedDouble(hi: word, lo: int)
    requires 0 <= lo < W35
    ensures Signed(hi) * W35 + lo == Wrapped(Double(hi, lo))
  {
  }
}
