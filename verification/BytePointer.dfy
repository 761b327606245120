/** Byte pointers: the increment (pdp10_cpu.c and, on registers, pdp10_xtnd.c), the adjustment in
    closed form, and the cheap undo after a page fail. */
module BytePointer {
  import opened Words

  /** Position, size, the index and indirect bits, and the address of a byte pointer. */
  datatype Ptr = Ptr(p: nat, s: nat, x: nat, a: nat)

  predicate Fits(f: Ptr) {
    f.p < 64 && f.s < 64 && f.x < 64 && f.a < W18
  }

  const P1 := 0x4000_0000
  const S1 := 0x100_0000

  /** GET_P, GET_S, PUT_P */
  function GetP(bp: word): (p: nat)
    ensures p < 64
  {
    bp / P1
  }

  function GetS(bp: word): (s: nat)
    ensures s < 64
  {
    bp / S1 % 64
  }

  function PutP(bp: word, p: int): (r: word)
    ensures GetP(r) == p % 64 && r % P1 == bp % P1
  {
    p % 64 * P1 + bp % P1
  }

  function Fields(bp: word): (f: Ptr)
    ensures Fits(f) && f.p == GetP(bp) && f.s == GetS(bp) && f.a == bp % W18
  {
    Ptr(GetP(bp), GetS(bp), bp / W18 % 64, bp % W18)
  }

  function Pack(f: Ptr): (bp: word)
    requires Fits(f)
    ensures Fields(bp) == f
  {
    PackedFields(f.p, f.s, f.x, f.a);
    f.p * P1 + f.s * S1 + f.x * W18 + f.a
  }

  lemma {:induction false} PackedFields(p: nat, s: nat, x: nat, a: nat)
    requires p < 64 && s < 64 && x < 64 && a < W18
    ensures
      var bp := p * P1 + s * S1 + x * W18 + a;
      bp / P1 == p && bp / S1 % 64 == s && bp / W18 % 64 == x && bp % W18 == a
  {
    var bp := p * P1 + s * S1 + x * W18 + a;
    DivModUnique(bp, P1, p, s * S1 + x * W18 + a);
    DivModUnique(bp, S1, p * 64 + s, x * W18 + a);
    DivModUnique(bp, W18, p * 4096 + s * 64 + x, a);
  }

  /** The fields say what the word is, and lie in it from left to right: six bits each of position,
      size and index, and 18 of address. */
  lemma {:induction false} PackFields(bp: word)
    ensures Pack(Fields(bp)) == bp
    ensures
      var f := Fields(bp);
      && f.p < 64 && f.s < 64 && f.x < 64 && f.a < 0x4_0000
      && bp == f.p * 0x4000_0000 + f.s * 0x100_0000 + f.x * 0x4_0000 + f.a
  {
    assert bp / S1 == bp / P1 * 64 + bp / S1 % 64;
    assert bp / W18 == bp / S1 * 64 + bp / W18 % 64;
  }

  /** Two words with the same fields are the same. */
  lemma {:induction false} SameFields(bp: word, f: Ptr)
    requires Fields(bp) == f
    ensures Fits(f) && bp == Pack(f)
  {
    PackFields(bp);
  }

  /** The next byte: further right in the word, or leftmost in the next. */
  function Next(f: Ptr): (r: Ptr)
    ensures Fits(f) ==> Fits(r)
  {
    if f.p >= f.s then f.(p := f.p - f.s) else f.(p := (36 - f.s) % 64, a := (f.a + 1) % W18)
  }

  function Nth(f: Ptr, n: nat): (r: Ptr)
    ensures Fits(f) ==> Fits(r)
  {
    if n == 0 then f else Next(Nth(f, n - 1))
  }

  /** C's division, which truncates. */
  function Quot(x: int, y: int): int
    requires y > 0
  {
    if x >= 0 then x / y else -(-x / y)
  }

  function Rem(x: int, y: int): int
    requires y > 0
  {
    if x >= 0 then x % y else -(-x % y)
  }

  /** How many bytes there are left of the pointer, how many in a word, and the bits unused at the
      left of the word. */
  function Left(f: Ptr): int
    requires f.s > 0
  {
    Quot(36 - f.p, f.s)
  }

  function PerWord(f: Ptr): (b: nat)
    requires f.s > 0
  {
    QuotLe(f.p, f.s);
    Left(f) + f.p / f.s
  }

  function Slack(f: Ptr): int
    requires f.s > 0
  {
    Rem(36 - f.p, f.s)
  }

  lemma {:induction false} QuotLe(p: nat, s: nat)
    requires s > 0
    ensures Quot(36 - p, s) + p / s >= 0
  {
    DivSplit(p, s);
    if p > 36 {
      DivMono(p - 36, p, s);
    } else {
      DivSplit(36 - p, s);
    }
  }

  lemma {:induction false} DivSplit(x: nat, s: nat)
    requires s > 0
    ensures x / s >= 0 && 0 <= x % s < s && x == Product(x / s, s) + x % s
  {
  }

  lemma {:induction false} DivMono(x: int, y: int, s: nat)
    requires x <= y && s > 0
    ensures x / s <= y / s
  {
    var d := x / s - y / s;
    assert d >= 1 ==> d * s >= s;
    assert x / s * s == d * s + y / s * s;
  }

  /** A pointer to a byte of a word, or just before its first; such words hold at least one. */
  predicate InWord(f: Ptr) {
    Fits(f) && f.p <= 36 && 1 <= f.s && PerWord(f) > 0
  }

  /** A pointer that ADJBP does not refuse; its position may be beyond the left end of the word. */
  predicate Usable(f: Ptr) {
    Fits(f) && 1 <= f.s && PerWord(f) > 0
  }

  /** From a position beyond the end, by other than whole bytes, the words hold one byte less once
      the pointer is adjusted. */
  function Lost(f: Ptr): nat
    requires f.s > 0
  {
    if Slack(f) < 0 then 1 else 0
  }

  /** The slack of the words then. */
  function FullSlack(f: Ptr): int
    requires f.s > 0
  {
    if Slack(f) < 0 then Slack(f) + f.s else Slack(f)
  }

  /** The pointer to the byte that is `n` bytes further, at any distance either way, where every
      word holds `PerWord` bytes after the same slack. */
  function Adjusted(f: Ptr, n: int): (r: Ptr)
    requires f.s > 0 && PerWord(f) > 0
    ensures Fits(f) ==> Fits(r)
  {
    var byte := Left(f) + n - 1;
    f.(p := (36 - (byte % PerWord(f) + 1) * f.s - Slack(f)) % 64, a := (f.a + byte / PerWord(f)) % W18)
  }

  /** The bits left of the position are so many bytes and the slack; beyond the left end of the word
      both count down from zero. */
  lemma {:induction false} LeftBytes(f: Ptr)
    requires f.s > 0
    ensures 36 - f.p == Left(f) * f.s + Slack(f) && PerWord(f) == Left(f) + f.p / f.s
    ensures f.p <= 36 ==> Left(f) >= 0 && 0 <= Slack(f) < f.s
    ensures f.p >= 36 ==> Left(f) <= 0 && 0 - f.s < Slack(f) <= 0
  {
    if f.p <= 36 {
      DivSplit(36 - f.p, f.s);
    } else {
      DivSplit(f.p - 36, f.s);
      assert Product((f.p - 36) / f.s, f.s) == -(-((f.p - 36) / f.s) * f.s);
    }
  }

  // How a word divides into bytes

  /** `k` bytes to the left and `q` to the right, with slack at both ends. */
  ghost predicate Divides(p: int, s: nat, k: nat, q: nat, r: nat, t: nat) {
    0 <= p <= 36 && r < s && t < s && 36 - p == Product(k, s) + r && p == Product(q, s) + t
  }

  lemma {:induction false} Division(f: Ptr) returns (k: nat, q: nat, r: nat, t: nat)
    requires f.p <= 36 && f.s > 0
    ensures Divides(f.p, f.s, k, q, r, t)
    ensures k == Left(f) && k + q == PerWord(f) && r == Slack(f)
  {
    DivSplit(36 - f.p, f.s);
    DivSplit(f.p, f.s);
    hide Product;
    k, q, r, t := (36 - f.p) / f.s, f.p / f.s, (36 - f.p) % f.s, f.p % f.s;
  }

  lemma {:induction false} Divided(f: Ptr, k: nat, q: nat, r: nat, t: nat)
    requires f.s > 0 && Divides(f.p, f.s, k, q, r, t)
    ensures k == Left(f) && k + q == PerWord(f) && r == Slack(f)
  {
    DivModUnique(36 - f.p, f.s, k, r);
    DivModUnique(f.p, f.s, q, t);
  }

  /** Moving `i` bytes from the left to the right of the pointer. */
  lemma {:induction false} Shift(p: int, s: nat, k: nat, q: nat, r: nat, t: nat, i: int)
    requires Divides(p, s, k, q, r, t) && 0 <= q + i && i <= k
    ensures Divides(p + Product(i, s), s, k - i, q + i, r, t)
  {
    ProductAdd(s, k - i, i);
    ProductAdd(s, q, i);
    ProductAdd(s, k, 0);
    ProductAdd(s, i, 0);
    ProductAdd(s, k - i, 0);
    ProductAdd(s, q + i, 0);
    ProductMono(0, k - i, s);
    ProductMono(0, q + i, s);
  }

  lemma {:induction false} AdjustedForm(f: Ptr, n: int, p: int)
    requires Usable(f) && 0 <= p < 64
    requires p == 36 - Product((Left(f) + n - 1) % PerWord(f) + 1, f.s) - Slack(f)
    ensures Adjusted(f, n) == f.(p := p, a := (f.a + (Left(f) + n - 1) / PerWord(f)) % W18)
  {
    hide PerWord, Left, Slack;
  }

  lemma {:induction false} AdjustedInWord(f: Ptr, n: int)
    requires InWord(f)
    ensures
      var r, b := Adjusted(f, n), PerWord(f);
      && InWord(r) && r.s == f.s && r.x == f.x
      && PerWord(r) == b && Slack(r) == Slack(f)
      && Left(r) == (Left(f) + n - 1) % b + 1
      && r.p == 36 - Product(Left(r), f.s) - Slack(f)
      && r.a == (f.a + (Left(f) + n - 1) / b) % W18
  {
    hide Adjusted, PerWord, Left, Slack, Product;
    var k, q, r, t := Division(f);
    var b := k + q;
    var k' := (k + n - 1) % b + 1;
    Shift(f.p, f.s, k, q, r, t, k - k');
    ProductAdd(f.s, k, -k');
    ProductAdd(f.s, k', -k');
    ProductAdd(f.s, k - k', 0);
    ProductAdd(f.s, k', 0);
    ProductAdd(f.s, k, 0);
    var p' := 36 - Product(k', f.s) - r;
    assert p' == f.p + Product(k - k', f.s);
    var g := f.(p := p', a := (f.a + (k + n - 1) / b) % W18);
    Divided(g, k', b - k', r, t);
    AdjustedForm(f, n, p');
  }

  /** What a position beyond the end is made of. */
  lemma {:induction false} DivisionBeyond(f: Ptr) returns (k: int, e: nat, b: nat, t: nat)
    requires Usable(f) && f.p > 36
    ensures k == Left(f) <= 0 && e == -Slack(f) && e < f.s && b == PerWord(f) && t < f.s
    ensures f.p - 36 == Product(-k, f.s) + e && 36 + e == Product(b, f.s) + t
  {
    DivSplit(f.p - 36, f.s);
    DivSplit(f.p, f.s);
    k, e, b, t := Left(f), -Slack(f), PerWord(f), f.p % f.s;
    hide Left, Slack, PerWord, Product;
    ProductAdd(f.s, b, -k);
    ProductAdd(f.s, b - k, 0);
    ProductAdd(f.s, b, 0);
    ProductAdd(f.s, -k, 0);
  }

  lemma {:induction false} AdjustedBeyond(f: Ptr, n: int)
    requires Usable(f) && f.p > 36
    ensures
      var r, b, k := Adjusted(f, n), PerWord(f), (Left(f) + n - 1) % PerWord(f) + 1;
      && r.s == f.s && r.x == f.x && r.p < 36
      && PerWord(r) == b - Lost(f) && Slack(r) == FullSlack(f)
      && Left(r) == k - Lost(f)
      && r.p == 36 - Product(k, f.s) - Slack(f)
      && r.a == (f.a + (Left(f) + n - 1) / b) % W18
  {
    hide Adjusted, PerWord, Left, Slack, Product;
    var k, e, b, t := DivisionBeyond(f);
    var k' := (k + n - 1) % b + 1;
    ProductAdd(f.s, b - k', k');
    ProductAdd(f.s, b - k', 0);
    ProductAdd(f.s, k', 0);
    ProductAdd(f.s, b, 0);
    ProductMono(0, b - k', f.s);
    ProductMono(1, k', f.s);
    ProductAdd(f.s, 1, 0);
    var p' := 36 - Product(k', f.s) + e;
    assert p' == Product(b - k', f.s) + t;
    AdjustedForm(f, n, p');
    var g := f.(p := p', a := (f.a + (k + n - 1) / b) % W18);
    if e > 0 {
      ProductAdd(f.s, k' - 1, 1);
      ProductAdd(f.s, k' - 1, 0);
      Divided(g, k' - 1, b - k', f.s - e, t);
    } else {
      Divided(g, k', b - k', 0, t);
    }
  }

  /** An adjusted pointer lies in a word. Its byte and its address are those of the sum. */
  lemma {:induction false} AdjustedAt(f: Ptr, n: int)
    requires Usable(f)
    ensures
      var r, b, k := Adjusted(f, n), PerWord(f), (Left(f) + n - 1) % PerWord(f) + 1;
      && Fits(r) && r.s == f.s && r.x == f.x && r.p < 36 && 0 <= Slack(r)
      && PerWord(r) == b - Lost(f) && Slack(r) == FullSlack(f)
      && Left(r) == k - Lost(f)
      && r.p == 36 - Product(k, f.s) - Slack(f)
      && r.a == (f.a + (Left(f) + n - 1) / b) % W18
  {
    hide Adjusted, PerWord, Left, Slack, Product;
    if f.p > 36 {
      AdjustedBeyond(f, n);
      var k, e, b, t := DivisionBeyond(f);
    } else {
      AdjustedInWord(f, n);
      LeftBounds(f);
      ProductMono(1, (Left(f) + n - 1) % PerWord(f) + 1, f.s);
      ProductAdd(f.s, 1, 0);
      ProductAdd(f.s, (Left(f) + n - 1) % PerWord(f) + 1, 0);
    }
  }

  // The closed form

  /** Within words, adjusting twice is adjusting by the sum. */
  lemma {:induction false} TwiceInWord(f: Ptr, m: int, n: int)
    requires InWord(f)
    ensures InWord(Adjusted(f, m)) && Adjusted(Adjusted(f, m), n) == Adjusted(f, m + n)
  {
    hide Adjusted, PerWord, Left, Slack, Product;
    AdjustedInWord(f, m);
    AdjustedInWord(f, m + n);
    var g := Adjusted(f, m);
    AdjustedInWord(g, n);
    var b, i := PerWord(f), Left(f) + m - 1;
    AddDivMod(i, n, b);
    AddressSum(f.a, i / b, (i % b + n) / b);
    assert Left(g) + n - 1 == i % b + n;
  }

  lemma {:induction false} AddDivMod(i: int, n: int, b: nat)
    requires b > 0
    ensures (i % b + n) % b == (i + n) % b
    ensures i / b + (i % b + n) / b == (i + n) / b
  {
    var j := i % b + n;
    ProductAdd(b, i / b, j / b);
    assert i + n == Product(b, i / b) + Product(b, j / b) + j % b;
    DivModUnique(i + n, b, i / b + j / b, j % b);
  }

  lemma {:induction false} AddressSum(a: int, i: int, j: int)
    ensures ((a + i) % W18 + j) % W18 == (a + (i + j)) % W18
  {
  }

  /** The word and the byte of a count of bytes, named so that proofs can treat them as symbols. */
  function Row(i: int, b: nat): int
    requires b > 0
  {
    i / b
  }

  function Column(i: int, b: nat): int
    requires b > 0
  {
    i % b
  }

  /** The distance at which words of `b` bytes and of one less meet again, in all the memory. */
  function Round(b: nat): (n: nat)
    ensures n > 0
  {
    if b < 2 then 1 else
      ProductPositive(b, b - 1);
      b * (b - 1) * W18
  }

  lemma {:induction false} ProductPositive(x: int, y: int)
    requires x > 0 && y > 0
    ensures x * y > 0
  {
  }

  lemma {:induction false} RoundIs(b: nat)
    requires b >= 2
    ensures Round(b) == b * (b - 1) * W18 && Round(b) >= b
  {
    MulLe(1, b - 1, b);
    assert 1 * b == b && (b - 1) * b == b * (b - 1);
  }

  /** A count in words of `b` bytes and in words of one less, `q` rounds and `r` bytes on. */
  lemma {:induction false} WholeRounds(t: int, b: nat, q: int, r: int)
    requires b >= 2 && t == q * (b * (b - 1) * W18) + r && 1 <= r < b
    ensures t / b == q * (b - 1) * W18 && t % b == r
    ensures (t - 1) / (b - 1) == q * b * W18 && (t - 1) % (b - 1) == r - 1
  {
    var c := b - 1;
    assert q * (b * c * W18) == q * c * W18 * b && q * (b * c * W18) == q * b * W18 * c;
    DivModUnique(t, b, q * c * W18, r);
    DivModUnique(t - 1, c, q * b * W18, r - 1);
  }

  lemma {:induction false} ShiftModulo(a: int, x: int)
    ensures (a + x * W18) % W18 == a % W18
  {
    DivModUnique(a + x * W18, W18, a / W18 + x, a % W18);
  }

  lemma {:induction false} SameModulo(a: int, x: int, y: int)
    requires (a + x) % W18 == (a + y) % W18
    ensures y - x == (y - x) / W18 * W18
  {
    var d := (a + y) / W18 - (a + x) / W18;
    DivModUnique(y - x, W18, d, 0);
  }

  /** Words of `b` and of one less that hold as much differ by a multiple of both. */
  lemma {:induction false} SameWords(b: int, w: int, w': int)
    requires w * b == w' * (b - 1)
    ensures w == (w' - w) * (b - 1)
  {
    assert w * b == w * (b - 1) + w;
    assert (w' - w) * (b - 1) == w' * (b - 1) - w * (b - 1);
  }

  /** Two counts of bytes, in words of `b` and of one less: word and byte are the same exactly in the
      first word, or a whole round from it. */
  lemma {:induction false} SameByte(a: int, t: int, b: nat)
    requires b >= 2
    ensures
      (a + Row(t, b)) % W18 == (a + Row(t - 1, b - 1)) % W18 && Column(t, b) == Column(t - 1, b - 1) + 1 <==>
        1 <= t % Round(b) < b
  {
    hide Round, Row, Column;
    RoundIs(b);
    if 1 <= t % Round(b) < b {
      InRound(a, t, b, t / Round(b), t % Round(b));
    } else {
      OutOfRound(a, t, b);
    }
  }

  lemma {:induction false} InRound(a: int, t: int, b: nat, q: int, r: int)
    requires b >= 2 && t == q * (b * (b - 1) * W18) + r && 1 <= r < b
    ensures (a + Row(t, b)) % W18 == (a + Row(t - 1, b - 1)) % W18 && Column(t, b) == Column(t - 1, b - 1) + 1
  {
    WholeRounds(t, b, q, r);
    ShiftModulo(a, q * (b - 1));
    ShiftModulo(a, q * b);
  }

  lemma {:induction false} OutOfRound(a: int, t: int, b: nat)
    requires b >= 2 && Round(b) == b * (b - 1) * W18 >= b && !(1 <= t % Round(b) < b)
    ensures (a + Row(t, b)) % W18 != (a + Row(t - 1, b - 1)) % W18 || Column(t, b) != Column(t - 1, b - 1) + 1
  {
    hide Round;
    var w, w', i := Row(t, b), Row(t - 1, b - 1), Column(t, b);
    if i == Column(t - 1, b - 1) + 1 && (a + w) % W18 == (a + w') % W18 {
      SameRemainder(a, t, b, w, w', i);
      assert false;
    }
  }

  lemma {:induction false} SameRemainder(a: int, t: int, b: nat, w: int, w': int, i: int)
    requires b >= 2 && t == w * b + i && t - 1 == w' * (b - 1) + i - 1 && 1 <= i < b
    requires (a + w) % W18 == (a + w') % W18 && Round(b) == b * (b - 1) * W18 >= b
    ensures t % Round(b) == i
  {
    hide Round;
    SameWords(b, w, w');
    SameModulo(a, w, w');
    var q := (w' - w) / W18;
    RoundsOf(q, b);
    DivModUnique(t, Round(b), q, i);
  }

  lemma {:induction false} RoundsOf(q: int, b: int)
    ensures q * W18 * (b - 1) * b == q * (b * (b - 1) * W18)
  {
    assert q * W18 * (b - 1) * b == q * W18 * ((b - 1) * b);
    assert (b - 1) * b == b * (b - 1);
  }

  /** Adjusting twice, if the second is not refused, is adjusting by the sum if and only if the words
      hold as many bytes after the first as before it, or the sum is in the first word. */
  lemma {:induction false} AdjustedTwice(f: Ptr, m: int, n: int)
    requires Usable(f) && Usable(Adjusted(f, m))
    ensures Adjusted(Adjusted(f, m), n) == Adjusted(f, m + n) <==>
      Slack(f) >= 0 || 1 <= ((Left(f) + m - 1) % PerWord(f) + n) % Round(PerWord(f)) < PerWord(f)
  {
    hide Adjusted, PerWord, Left, Slack, Product, Round;
    if Slack(f) >= 0 {
      TwiceAlike(f, m, n);
    } else {
      TwiceLess(f, m, n);
    }
  }

  /** Where the adjustment by the sum ends. */
  lemma {:induction false} AtOnce(f: Ptr, m: int, n: int)
    requires Usable(f)
    ensures
      var r, b, j := Adjusted(f, m + n), PerWord(f), Left(f) + m - 1;
      && r.s == f.s && r.x == f.x && r.p == 36 - Product(Column(Column(j, b) + n, b) + 1, f.s) - Slack(f)
      && r.a == (f.a + Row(j, b) + Row(Column(j, b) + n, b)) % W18
  {
    hide Adjusted, PerWord, Left, Slack, Product, Lost, FullSlack;
    AdjustedAt(f, m + n);
    AddDivMod(Left(f) + m - 1, n, PerWord(f));
  }

  /** Where the second adjustment ends. */
  lemma {:induction false} InTurn(f: Ptr, m: int, n: int)
    requires Usable(f) && Usable(Adjusted(f, m))
    ensures
      var r, b, l, j := Adjusted(Adjusted(f, m), n), PerWord(Adjusted(f, m)), Lost(f), Left(f) + m - 1;
      var t := Column(j, PerWord(f)) + n - l;
      && b == PerWord(f) - l && r.s == f.s && r.x == f.x
      && r.p == 36 - Product(Column(t, b) + 1, f.s) - FullSlack(f)
      && r.a == (f.a + Row(j, PerWord(f)) + Row(t, b)) % W18
  {
    hide Adjusted, PerWord, Left, Slack, Product, Lost, FullSlack;
    AdjustedAt(f, m);
    var g, j := Adjusted(f, m), Left(f) + m - 1;
    AdjustedAt(g, n);
    NoneLost(g);
    var t := Left(g) + n - 1;
    assert t == j % PerWord(f) + n - Lost(f);
    AddressSum(f.a, j / PerWord(f), t / PerWord(g));
  }

  lemma {:induction false} NoneLost(f: Ptr)
    requires f.s > 0 && Slack(f) >= 0
    ensures Lost(f) == 0 && FullSlack(f) == Slack(f)
  {
  }

  lemma {:induction false} TwiceAlike(f: Ptr, m: int, n: int)
    requires Usable(f) && Usable(Adjusted(f, m)) && Slack(f) >= 0
    ensures Adjusted(Adjusted(f, m), n) == Adjusted(f, m + n)
  {
    hide Adjusted, PerWord, Left, Slack, Product, Row, Column;
    AtOnce(f, m, n);
    InTurn(f, m, n);
  }

  lemma {:induction false} TwiceLess(f: Ptr, m: int, n: int)
    requires Usable(f) && Usable(Adjusted(f, m)) && Slack(f) < 0
    ensures Adjusted(Adjusted(f, m), n) == Adjusted(f, m + n) <==>
      1 <= (Column(Left(f) + m - 1, PerWord(f)) + n) % Round(PerWord(f)) < PerWord(f)
  {
    hide Adjusted, PerWord, Left, Slack, Product, Round, Row, Column;
    AtOnce(f, m, n);
    InTurn(f, m, n);
    var b, j := PerWord(f), Left(f) + m - 1;
    var t := Column(j, b) + n;
    SameByte(f.a + Row(j, b), t, b);
    SamePtr(Adjusted(f, m + n), Adjusted(Adjusted(f, m), n), Column(t, b), Column(t - 1, b - 1) + 1, Slack(f));
  }

  lemma {:induction false} SamePtr(g: Ptr, h: Ptr, i: int, k: int, e: int)
    requires g.s == h.s > 0 && g.x == h.x
    requires g.p == 36 - Product(i + 1, g.s) - e && h.p == 36 - Product(k, g.s) - (e + g.s)
    ensures g == h <==> i == k && g.a == h.a
  {
    hide Product;
    SamePosition(i + 1, k + 1, g.s);
  }

  lemma {:induction false} SamePosition(x: int, y: int, s: nat)
    requires s > 0
    ensures Product(x, s) == Product(y, s) <==> x == y
    ensures Product(y, s) == Product(y - 1, s) + s
  {
    if x < y {
      MulLe(x + 1, y, s);
    } else if y < x {
      MulLe(y + 1, x, s);
    }
  }

  /** From a position four bits beyond the end: by one byte and then by none is not by one. */
  lemma {:induction false} NotTwice()
    ensures var f := Ptr(40, 8, 0, 1);
      Usable(f) && Usable(Adjusted(f, 1)) && Adjusted(Adjusted(f, 1), 0) != Adjusted(f, 1)
  {
    var f := Ptr(40, 8, 0, 1);
    assert Left(f) == 0 && PerWord(f) == 5 && Slack(f) == -4;
    assert Adjusted(f, 1) == Ptr(32, 8, 0, 1);
    assert Adjusted(Ptr(32, 8, 0, 1), 0) == Ptr(0, 8, 0, 0);
  }

  /** Adjusting by zero gives the pointer back if and only if a byte of the word is left of it. */
  lemma {:induction false} AdjustedByZero(f: Ptr)
    requires Usable(f)
    ensures Adjusted(f, 0) == f <==> Left(f) >= 1
  {
    hide Adjusted, PerWord, Left, Slack, Product;
    AdjustedAt(f, 0);
    if f.p > 36 {
      AdjustedBeyond(f, 0);
      var k, e, b, t := DivisionBeyond(f);
    } else {
      var k, q, r, t := Division(f);
      if k >= 1 {
        DivModUnique(k - 1, k + q, 0, k - 1);
        ProductAdd(f.s, k, 0);
      } else {
        DivModUnique(-1, k + q, -1, k + q - 1);
      }
    }
  }

  /** Adjusting there and back, if neither is refused. */
  lemma {:induction false} AdjustedBack(f: Ptr, n: int)
    requires Usable(f) && Usable(Adjusted(f, n))
    ensures Adjusted(Adjusted(f, n), -n) == f <==> Left(f) >= 1
  {
    hide Adjusted, PerWord, Left, Slack, Product, Round;
    if f.p > 36 {
      AdjustedBeyond(f, n);
      AdjustedAt(Adjusted(f, n), -n);
      var k, e, b, t := DivisionBeyond(f);
    } else {
      TwiceInWord(f, n, -n);
      AdjustedByZero(f);
    }
  }

  /** The next byte, when there is one in the word. */
  lemma {:induction false} NextInWord(f: Ptr)
    requires InWord(f) && Left(f) < PerWord(f)
    ensures InWord(Next(f)) && Next(f) == Adjusted(f, 1)
  {
    hide Product, Left, PerWord, Slack, Adjusted;
    var k, q, r, t := Division(f);
    assert f.p >= f.s by {
      ProductMono(1, q, f.s);
      ProductAdd(f.s, q, 0);
      ProductAdd(f.s, 1, 0);
    }
    AdjustedInWord(f, 1);
    DivModUnique(k, k + q, 0, k);
    ProductAdd(f.s, k, 1);
    ProductAdd(f.s, k + 1, 0);
    assert Product(k + 1, f.s) == Product(k, f.s) + f.s;
    assert Next(f).a == f.a % W18;
  }

  /** The next byte, when it is in the next word: the slack is lost. */
  lemma {:induction false} NextWord(f: Ptr)
    requires InWord(f) && Left(f) == PerWord(f)
    ensures f.s <= 36 && Next(f) == f.(p := 36 - f.s, a := (f.a + 1) % W18)
    ensures InWord(Next(f)) && Slack(Next(f)) == 0
    ensures Slack(f) == 0 ==> Next(f) == Adjusted(f, 1)
  {
    hide Product, Left, PerWord, Slack, Adjusted;
    var k, q, r, t := Division(f);
    ProductMono(1, k, f.s);
    ProductAdd(f.s, k, 0);
    ProductAdd(f.s, 1, 0);
    ProductAdd(f.s, 0, 1);
    assert f.p == t && Product(k, f.s) >= f.s;
    DivSplit(36 - f.s, f.s);
    Divided(Next(f), 1, (36 - f.s) / f.s, 0, (36 - f.s) % f.s);
    if r == 0 {
      AdjustedInWord(f, 1);
      DivModUnique(k, k, 1, 0);
    }
  }

  lemma {:induction false} LeftBounds(f: Ptr)
    requires InWord(f)
    ensures 0 <= Left(f) <= PerWord(f) && 0 <= Slack(f) < f.s
  {
    var k, q, r, t := Division(f);
  }

  lemma {:induction false} NextAdjusted(f: Ptr)
    requires InWord(f) && (Slack(f) == 0 || Left(f) < PerWord(f))
    ensures Next(f) == Adjusted(f, 1)
  {
    LeftBounds(f);
    if Left(f) < PerWord(f) {
      NextInWord(f);
    } else {
      NextWord(f);
    }
  }

  /** The closed form is the iteration as long as no slack is lost on the way. */
  lemma {:induction false} ClosedForm(f: Ptr, n: nat)
    requires InWord(f) && n >= 1 && (Slack(f) == 0 || Left(f) + n <= PerWord(f))
    ensures Nth(f, n) == Adjusted(f, n)
  {
    hide Left, PerWord, Slack, Adjusted, Next;
    LeftBounds(f);
    if n == 1 {
      NextAdjusted(f);
      assert Nth(f, 1) == Next(Nth(f, 0));
    } else {
      ClosedForm(f, n - 1);
      AdjustedInWord(f, n - 1);
      TwiceInWord(f, n - 1, 1);
      if Slack(f) != 0 {
        DivModUnique(Left(f) + (n - 1) - 1, PerWord(f), 0, Left(f) + (n - 1) - 1);
      }
      NextAdjusted(Adjusted(f, n - 1));
    }
  }

  /** Once past a word, the iteration has lost the slack. */
  lemma {:induction false} SlackLost(f: Ptr, n: nat)
    requires InWord(f) && n >= 1 && (Slack(f) == 0 || Left(f) + n > PerWord(f))
    ensures InWord(Nth(f, n)) && Nth(f, n).s == f.s && Slack(Nth(f, n)) == 0
  {
    hide Left, PerWord, Slack, Adjusted, Next;
    LeftBounds(f);
    if Slack(f) == 0 {
      ClosedForm(f, n);
      AdjustedInWord(f, n);
    } else if Left(f) + (n - 1) > PerWord(f) {
      SlackLost(f, n - 1);
      NextSlackless(Nth(f, n - 1));
    } else if n == 1 {
      NextWord(f);
      assert Nth(f, 1) == Next(Nth(f, 0));
    } else {
      ClosedForm(f, n - 1);
      AdjustedInWord(f, n - 1);
      DivModUnique(Left(f) + (n - 1) - 1, PerWord(f), 0, Left(f) + (n - 1) - 1);
      NextWord(Nth(f, n - 1));
    }
  }

  lemma {:induction false} NextSlackless(f: Ptr)
    requires InWord(f) && Slack(f) == 0
    ensures InWord(Next(f)) && Next(f).s == f.s && Slack(Next(f)) == 0
  {
    hide Left, PerWord, Slack, Adjusted, Next;
    NextAdjusted(f);
    AdjustedInWord(f, 1);
  }

  lemma {:induction false} IterationInWord(f: Ptr, n: nat)
    requires InWord(f) && n >= 1
    ensures Adjusted(f, n) == Nth(f, n) <==> Slack(f) == 0 || Left(f) + n <= PerWord(f)
  {
    LeftBounds(f);
    if Slack(f) == 0 || Left(f) + n <= PerWord(f) {
      ClosedForm(f, n);
    } else {
      SlackLost(f, n);
      AdjustedInWord(f, n);
    }
  }

  /** Increments within a word. */
  lemma {:induction false} Straight(f: Ptr, n: nat)
    requires Product(n, f.s) <= f.p
    ensures Nth(f, n) == f.(p := f.p - Product(n, f.s))
  {
    hide Product;
    ProductAdd(f.s, n - 1, 1);
    ProductAdd(f.s, n - 1, 0);
    ProductAdd(f.s, n, 0);
    if n > 0 {
      Straight(f, n - 1);
    }
  }

  lemma {:induction false} NthAdd(f: Ptr, m: nat, n: nat)
    ensures Nth(f, m + n) == Nth(Nth(f, m), n)
  {
    hide Next;
    if n > 0 {
      NthAdd(f, m, n - 1);
    }
  }

  /** From beyond the end, the bytes of the first word. */
  lemma {:induction false} FirstWord(f: Ptr, n: nat)
    requires Usable(f) && f.p > 36 && n >= 1 && Left(f) + n <= PerWord(f)
    ensures Adjusted(f, n) == Nth(f, n) <==> Left(f) + n >= 1
    ensures Nth(f, n).s == f.s && Nth(f, n).p == f.p - Product(n, f.s)
  {
    hide Product, Left, PerWord, Slack, Adjusted, Nth;
    var k, e, b, t := DivisionBeyond(f);
    ProductAdd(f.s, n, -k);
    ProductAdd(f.s, n, 0);
    ProductAdd(f.s, -k, 0);
    ProductAdd(f.s, k, -k);
    ProductAdd(f.s, k, 0);
    ProductAdd(f.s, k + n, -k);
    ProductAdd(f.s, k + n, 0);
    ProductAdd(f.s, 0, 0);
    ProductMono(k + n, b, f.s);
    ProductAdd(f.s, b, 0);
    assert f.p - Product(n, f.s) == 36 + e - Product(k + n, f.s);
    Straight(f, n);
    AdjustedBeyond(f, n);
    if k + n >= 1 {
      DivModUnique(k + n - 1, b, 0, k + n - 1);
    } else {
      ProductMono(k + n, 0, f.s);
    }
  }

  /** After the first word, the next one has no slack. */
  lemma {:induction false} AfterFirst(f: Ptr, n: nat)
    requires Usable(f) && f.p > 36 && f.s <= 36 && n == PerWord(f) - Left(f) + 1
    ensures var g := Nth(f, n);
      && InWord(g) && Slack(g) == 0 && Left(g) == 1 && g.s == f.s && g.x == f.x && g.p == 36 - f.s && g.a == (f.a + 1) % W18
  {
    hide Product, Left, PerWord, Slack, Adjusted;
    var k, e, b, t := DivisionBeyond(f);
    ProductAdd(f.s, b, -k);
    ProductAdd(f.s, b - k, 0);
    ProductAdd(f.s, b, 0);
    ProductAdd(f.s, -k, 0);
    Straight(f, b - k);
    assert Nth(f, n) == Next(f.(p := t));
    NewWord(f.(p := t));
  }

  lemma {:induction false} NewWord(f: Ptr)
    requires Fits(f) && 1 <= f.s <= 36 && f.p < f.s
    ensures var g := Next(f);
      && InWord(g) && Slack(g) == 0 && Left(g) == 1 && g == f.(p := 36 - f.s, a := (f.a + 1) % W18)
  {
    hide Product, Left, PerWord, Slack;
    ProductAdd(f.s, 1, 0);
    DivSplit(36 - f.s, f.s);
    Divided(Next(f), 1, (36 - f.s) / f.s, 0, (36 - f.s) % f.s);
  }

  /** Later words, in which the iteration has no slack. */
  lemma {:induction false} LaterWords(f: Ptr, n: nat)
    requires Usable(f) && f.p > 36 && f.s <= 36 && n > PerWord(f) - Left(f)
    ensures Adjusted(f, n) == Nth(f, n) <==> Slack(f) == 0
  {
    hide Product, Left, PerWord, Slack, Adjusted, Nth;
    var k, e, b, t := DivisionBeyond(f);
    var i := b - k + 1;
    var g := Nth(f, i);
    AfterFirst(f, i);
    NthAdd(f, i, n - i);
    AdjustedBeyond(f, n);
    if e > 0 {
      if n > i {
        SlackLost(g, n - i);
      } else {
        NthNone(g);
      }
    } else {
      AdjustedBeyond(f, i);
      DivModUnique(b, b, 1, 0);
      ProductAdd(f.s, 1, 0);
      assert g == Adjusted(f, i);
      if n > i {
        ClosedForm(g, n - i);
        AdjustedTwice(f, i, n - i);
      } else {
        NthNone(g);
      }
    }
  }

  lemma {:induction false} NthNone(f: Ptr)
    ensures Nth(f, 0) == f
    ensures forall n: nat :: Nth(f, n + 1) == Next(Nth(f, n))
  {
  }

  /** ADJBP by n >= 1 is n times IBP if and only if it comes to a byte of the first word, or it comes
      further and the pointer is aligned to the left of its word. */
  lemma {:induction false} AdjustIsIteration(f: Ptr, n: nat)
    requires Usable(f) && f.s <= 36 && n >= 1
    ensures Adjusted(f, n) == Nth(f, n) <==> 1 <= Left(f) + n && (Slack(f) == 0 || Left(f) + n <= PerWord(f))
  {
    hide Left, PerWord, Slack, Adjusted, Nth;
    if f.p <= 36 {
      LeftBounds(f);
      IterationInWord(f, n);
    } else if Left(f) + n <= PerWord(f) {
      FirstWord(f, n);
    } else {
      var k, e, b, t := DivisionBeyond(f);
      LaterWords(f, n);
    }
  }

  /** The pointers of the manual, with P = 36 - k * S, are those without slack. */
  lemma {:induction false} Aligned(f: Ptr, k: nat)
    requires Fits(f) && 1 <= f.s <= 36 && f.p == 36 - Product(k, f.s)
    ensures InWord(f) && Slack(f) == 0 && Left(f) == k && PerWord(f) == 36 / f.s
  {
    assert f.p <= 36 by { ProductMono(0, k, f.s); ProductAdd(f.s, k, 0); }
    DivModUnique(36 - f.p, f.s, k, 0);
    var q, t := f.p / f.s, f.p % f.s;
    ProductAdd(f.s, k, q);
    ProductAdd(f.s, k + q, 0);
    ProductAdd(f.s, q, 0);
    assert f.p == Product(q, f.s) + t;
    DivModUnique(36, f.s, k + q, t);
    DivMono(f.s, 36, f.s);
  }

  // The undo after a page fail

  /** Adding the size back to the position, without going back a word. */
  function Undone(f: Ptr): (r: Ptr)
    ensures Fits(f) ==> Fits(r)
  {
    f.(p := (f.p + f.s) % 64)
  }

  /** Incremented, undone and incremented again, a pointer is where one increment takes it if and
      only if it did not leave its word or its bytes fit in one. */
  lemma {:induction false} Redone(f: Ptr)
    requires Fits(f)
    ensures Next(Undone(Next(f))) == Next(f) <==> f.p >= f.s || f.s <= 36
    ensures f.p >= f.s ==> Undone(Next(f)) == f
  {
  }

  /** The same on words. */
  function Incremented(bp: word): word {
    Pack(Next(Fields(bp)))
  }

  function Decremented(bp: word): word {
    Pack(Undone(Fields(bp)))
  }

  predicate Replaceable(bp: word) {
    GetP(bp) >= GetS(bp) || GetS(bp) <= 36
  }

  lemma {:induction false} ChangedFields(bp: word)
    ensures Fields(Incremented(bp)) == Next(Fields(bp)) && Fields(Decremented(bp)) == Undone(Fields(bp))
  {
  }

  /** The increment in bits: the position goes down by the size, or it starts again below 36 with the
      address one higher. The undo is only on the position. */
  lemma {:induction false} ChangedWords(bp: word)
    ensures
      var p, s, w := (bp as int) / 0x4000_0000, (bp as int) / 0x100_0000 % 64, (bp as int) / 0x4_0000 % 0x1000;
      && Incremented(bp) == (if p >= s then p - s else (36 - s) % 64) * 0x4000_0000 + w * 0x4_0000
          + (if p >= s then bp as int else bp as int + 1) % 0x4_0000
      && Decremented(bp) == (p + s) % 64 * 0x4000_0000 + (bp as int) % 0x4000_0000
  {
    PackFields(bp);
    var f := Fields(bp);
    DivModUnique(bp, W18, f.p * 4096 + f.s * 64 + f.x, f.a);
    DivModUnique(f.p * 4096 + f.s * 64 + f.x, 4096, f.p, f.s * 64 + f.x);
    DivModUnique(bp, P1, f.p, f.s * S1 + f.x * W18 + f.a);
    SumModulo(bp, 1);
  }

  lemma {:induction false} IncrementedAgain(bp: word)
    ensures Incremented(Decremented(Incremented(bp))) == Incremented(bp) <==> Replaceable(bp)
  {
    var f := Fields(bp);
    Redone(f);
    var g, h := Next(f), Next(Undone(Next(f)));
    assert Fields(Pack(g)) == g && Fields(Pack(h)) == h;
    hide Next, Undone, Pack, Fields;
  }

  predicate Registers(regs: seq<nat>) {
    (forall i :: 0 <= i < |regs| ==> regs[i] < 16) && (forall i, j :: 0 <= i < j < |regs| ==> regs[i] != regs[j])
  }

  /** The register change log: five bits an entry, the last entry lowest. */
  function Log(regs: seq<nat>): nat {
    if regs == [] then 0 else Log(regs[..|regs| - 1]) * 32 + (regs[|regs| - 1] + 1) % 32
  }

  lemma {:induction false} LogLast(log: nat, reg: nat)
    requires reg < 16
    ensures var v := log * 32 + (reg + 1) % 32; v != 0 && v % 32 - 1 == reg && v / 32 == log
  {
  }

  lemma {:induction false} LogMore(regs: seq<nat>, reg: nat)
    requires reg < 16
    ensures Log(regs + [reg]) == Log(regs) * 32 + reg + 1 == Log(regs) * 32 + (reg + 1) % 32
  {
    assert (regs + [reg])[..|regs|] == regs;
  }

  /** The registers in the log with their pointers changed, and no others. */
  ghost predicate ChangedBy(change: word -> word, before: seq<word>, after: seq<word>, regs: seq<nat>) {
    |before| == |after| == 16 && forall r :: 0 <= r < 16 ==> after[r] == if r in regs then change(before[r]) else before[r]
  }

  lemma {:induction false} ChangedNone(change: word -> word, s: seq<word>, regs: seq<nat>)
    requires |s| == 16
    ensures ChangedBy(change, s, s, regs[|regs|..])
  {
  }

  /** What is in the log after `k` entries. */
  lemma {:induction false} LogStep(regs: seq<nat>, k: nat)
    requires Registers(regs) && k <= |regs|
    ensures var v := Log(regs[..k]);
      if k == 0 then v == 0 else v != 0 && v % 32 - 1 == regs[k - 1] < 16 && v / 32 == Log(regs[..k - 1])
  {
    if k > 0 {
      assert regs[..k][..k - 1] == regs[..k - 1];
      LogLast(Log(regs[..k - 1]), regs[k - 1]);
    }
  }

  lemma {:induction false} ChangedNext(change: word -> word, s0: seq<word>, s1: seq<word>, s2: seq<word>, regs: seq<nat>, k: nat)
    requires k < |regs| && Registers(regs) && ChangedBy(change, s0, s1, regs[k + 1..])
    requires s2 == s1[regs[k] := change(s1[regs[k]])]
    ensures ChangedBy(change, s0, s2, regs[k..])
  {
    assert regs[k..] == [regs[k]] + regs[k + 1..];
    assert regs[k] !in regs[k + 1..];
  }

  /** An instruction that increments the pointers in `regs`, in this order, and page-fails after
      `k` of them: undone and executed again, it increments them as it would have without the page
      fail if and only if that holds of each pointer. */
  lemma {:induction false} Restarted(s0: seq<word>, s1: seq<word>, s2: seq<word>, s3: seq<word>, regs: seq<nat>, k: nat)
    requires k <= |regs| && Registers(regs)
    requires ChangedBy(Incremented, s0, s1, regs[..k])
    requires ChangedBy(Decremented, s1, s2, regs[..k])
    requires ChangedBy(Incremented, s2, s3, regs)
    ensures ChangedBy(Incremented, s0, s3, regs) <==> forall i :: 0 <= i < k ==> Replaceable(s0[regs[i]])
  {
    forall r | 0 <= r < 16
      ensures r in regs[..k] ==> (s3[r] == Incremented(s0[r]) <==> Replaceable(s0[r]))
      ensures r !in regs[..k] ==> s3[r] == if r in regs then Incremented(s0[r]) else s0[r]
    {
      if r in regs[..k] {
        assert r in regs;
        IncrementedAgain(s0[r]);
      }
    }
    hide Incremented, Decremented, Replaceable;
    assert forall i :: 0 <= i < k ==> regs[i] in regs[..k] && regs[i] in regs && regs[i] < 16;
    assert forall r :: r in regs[..k] ==> exists i :: 0 <= i < k && regs[i] == r;
  }

  /** The registers of a context, which are also its ACs, and the register change log. */
  class Context {
    const ac: array<word>
    var rlog: nat
    var flags: set<Flag>

    constructor (a: array<word>)
      ensures ac == a && rlog == 0 && flags == {}
    {
      ac, rlog, flags := a, 0, {};
    }

    /** incbp */
    method Incbp(word0: word) returns (bp: word)
      ensures bp == Incremented(word0)
    {
      bp := word0;
      ghost var f := Next(Fields(word0));
      hide Fields, GetP, GetS, PutP, Pack;
      var p: int, s: int := GetP(bp), GetS(bp);
      var p' := p - s;
      if p' < 0 {
        AddressFields(bp, 1);
        bp := bp / W18 * W18 + (bp + 1) % W18;
        p' := (36 - s) % 64;
      }
      PutFields(bp, p');
      bp := PutP(bp, p');
      SameFields(bp, f);
    }

    /** IBP on a word of memory. */
    method Ibp(m: array<word>, ea: nat)
      requires ea < m.Length
      modifies m
      ensures m[..] == old(m[..])[ea := Incremented(old(m[ea]))]
    {
      var bp := Incbp(m[ea]);
      m[ea] := bp;
    }

    /** ADJBP: the adjusted pointer goes to the AC, unless words of this pointer hold no byte. */
    method Adjbp(a: nat, bp: word) returns (failed: bool)
      requires ac.Length == 16 && a < 16
      modifies this`flags, ac
      ensures failed <==> GetS(bp) > 0 && PerWord(Fields(bp)) == 0
      ensures flags == if failed then old(flags) + {AOV, T1, DCK} else old(flags)
      ensures failed ==> ac[..] == old(ac[..])
      ensures !failed && GetS(bp) == 0 ==> ac[..] == old(ac[..])[a := bp]
      ensures !failed && GetS(bp) > 0 ==> ac[..] == old(ac[..])[a := Pack(Adjusted(Fields(bp), Signed(old(ac[a]))))]
    {
      var val, bp', p, s := ac[a], bp, GetP(bp), GetS(bp);
      ghost var f := Fields(bp);
      hide Fields, GetP, GetS, PutP, Pack, Signed;
      if s > 0 {
        var left := Quot(36 - p, s);
        var bywrd := left + p / s;
        if bywrd == 0 {
          flags := flags + {AOV, T1, DCK};
          return true;
        }
        QuotLe(p, s);
        var newby := left + Signed(val);
        var wdadj := Quot(newby, bywrd);
        var byadj := if newby >= 0 then newby % bywrd else -(-newby % bywrd);
        if byadj <= 0 {
          byadj := byadj + bywrd;
          wdadj := wdadj - 1;
        }
        ByteAndWord(newby, bywrd);
        p := (36 - byadj * s - Rem(36 - p, s)) % 64;
        AdjustedFields(bp, p, wdadj);
        bp' := PutP(bp, p) / W18 * W18 + (bp + wdadj) % W18;
        assert Adjusted(f, Signed(val)) == f.(p := p, a := (f.a + wdadj) % W18);
        SameFields(bp', Adjusted(f, Signed(val)));
      }
      ac[a] := bp';
      return false;
    }

    /** The increment in an instruction of the extended set, which logs the change. */
    method Increment(reg: nat, ghost regs: seq<nat>)
      requires ac.Length == 16 && reg < 16 && rlog == Log(regs)
      modifies this`rlog, ac
      ensures ac[..] == old(ac[..])[reg := Incremented(old(ac[reg]))]
      ensures rlog == Log(regs + [reg]) == old(rlog) * 32 + reg + 1
    {
      hide Incremented, Log;
      LogMore(regs, reg);
      var bp := Incbp(ac[reg]);
      ac[reg] := bp;
      rlog := rlog * 32 + (reg + 1) % 32;
    }

    /** xtcln: undo the increments in the log. */
    method Xtcln(logv0: nat, ghost regs: seq<nat>)
      requires ac.Length == 16 && Registers(regs) && logv0 == Log(regs)
      modifies ac
      ensures ChangedBy(Decremented, old(ac[..]), ac[..], regs)
    {
      var logv := logv0;
      ghost var k := |regs|;
      assert regs[..k] == regs;
      hide Registers, ChangedBy, Log, Decremented;
      ChangedNone(Decremented, ac[..], regs);
      LogStep(regs, k);
      while logv != 0
        invariant 0 <= k <= |regs| && logv == Log(regs[..k]) && (k > 0 <==> logv != 0)
        invariant ChangedBy(Decremented, old(ac[..]), ac[..], regs[k..])
        decreases k
      {
        ghost var was := ac[..];
        LogStep(regs, k);
        var reg := logv % 32 - 1;
        logv := logv / 32;
        if 0 <= reg < 16 {
          Undo(reg);
        }
        k := k - 1;
        LogStep(regs, k);
        ChangedNext(Decremented, old(ac[..]), was, ac[..], regs, k);
      }
      assert regs[0..] == regs;
    }

    /** A register in the log. */
    method Undo(reg: nat)
      requires ac.Length == 16 && reg < 16
      modifies ac
      ensures ac[..] == old(ac[..])[reg := Decremented(old(ac[reg]))]
    {
      hide PutP, GetP, GetS;
      var p := GetP(ac[reg]) + GetS(ac[reg]);
      PutFields(ac[reg], p);
      SameFields(PutP(ac[reg], p), Undone(Fields(ac[reg])));
      ac[reg] := PutP(ac[reg], p);
    }

    /** The increments of an instruction up to the k-th. */
    method Increments(regs: seq<nat>, k: nat)
      requires ac.Length == 16 && Registers(regs) && k <= |regs| && rlog == 0
      modifies this`rlog, ac
      ensures ChangedBy(Incremented, old(ac[..]), ac[..], regs[..k]) && rlog == Log(regs[..k])
    {
      var i := 0;
      while i < k
        invariant 0 <= i <= k
        invariant ChangedBy(Incremented, old(ac[..]), ac[..], regs[..i]) && rlog == Log(regs[..i])
      {
        ghost var was := ac[..];
        assert regs[..i] + [regs[i]] == regs[..i + 1];
        Increment(regs[i], regs[..i]);
        ChangedLast(Incremented, old(ac[..]), was, ac[..], regs, i);
        i := i + 1;
      }
    }

    /** An instruction that page-fails after `k` of its increments and, once the page is there, is
        executed again. */
    method Faulted(regs: seq<nat>, k: nat)
      requires ac.Length == 16 && Registers(regs) && k <= |regs| && rlog == 0
      modifies this`rlog, ac
      ensures ChangedBy(Incremented, old(ac[..]), ac[..], regs) <==>
        forall i :: 0 <= i < k ==> Replaceable(old(ac[..])[regs[i]])
    {
      ghost var s0 := ac[..];
      Increments(regs, k);
      ghost var s1 := ac[..];
      Xtcln(rlog, regs[..k]);
      ghost var s2 := ac[..];
      rlog := 0;
      Increments(regs, |regs|);
      assert regs[..|regs|] == regs;
      Restarted(s0, s1, s2, ac[..], regs, k);
    }
  }

  lemma {:induction false} ChangedLast(change: word -> word, s0: seq<word>, s1: seq<word>, s2: seq<word>, regs: seq<nat>, k: nat)
    requires k < |regs| && Registers(regs) && ChangedBy(change, s0, s1, regs[..k])
    requires s2 == s1[regs[k] := change(s1[regs[k]])]
    ensures ChangedBy(change, s0, s2, regs[..k + 1])
  {
    assert regs[..k + 1] == regs[..k] + [regs[k]];
    assert regs[k] !in regs[..k];
  }

  /** A word taken apart. */
  lemma {:induction false} Parts(bp: word)
    ensures
      var f := Fields(bp);
      && bp % P1 == f.s * S1 + f.x * W18 + f.a
      && bp / W18 * W18 == f.p * P1 + f.s * S1 + f.x * W18
  {
    PackFields(bp);
    var f := Fields(bp);
    DivModUnique(bp, P1, f.p, f.s * S1 + f.x * W18 + f.a);
  }

  lemma {:induction false} PutFields(bp: word, p: int)
    ensures Fields(PutP(bp, p)) == Fields(bp).(p := p % 64)
  {
    Parts(bp);
    var f := Fields(bp);
    PackedFields(p % 64, f.s, f.x, f.a);
    var r := PutP(bp, p);
    assert r == p % 64 * P1 + f.s * S1 + f.x * W18 + f.a;
    hide PutP;
  }

  lemma {:induction false} AddressFields(bp: word, wdadj: int)
    ensures
      var r := bp / W18 * W18 + (bp + wdadj) % W18;
      0 <= r < W36 && Fields(r) == Fields(bp).(a := (bp % W18 + wdadj) % W18)
  {
    Parts(bp);
    SumModulo(bp, wdadj);
    var f := Fields(bp);
    PackedFields(f.p, f.s, f.x, (f.a + wdadj) % W18);
    var r := bp / W18 * W18 + (bp + wdadj) % W18;
    assert r == f.p * P1 + f.s * S1 + f.x * W18 + (f.a + wdadj) % W18;
  }

  lemma {:induction false} AdjustedFields(bp: word, p: nat, wdadj: int)
    requires p < 64
    ensures
      var r := PutP(bp, p) / W18 * W18 + (bp + wdadj) % W18;
      0 <= r < W36 && Fields(r) == Fields(bp).(p := p, a := (bp % W18 + wdadj) % W18)
  {
    hide Fields, PutP;
    PutFields(bp, p);
    var w := PutP(bp, p);
    AddressFields(w, wdadj);
    AddressOf(w);
    AddressOf(bp);
    SameSum(bp, w, wdadj);
  }

  lemma {:induction false} SameSum(x: int, y: int, n: int)
    requires x % W18 == y % W18
    ensures (x + n) % W18 == (y + n) % W18 == (x % W18 + n) % W18
  {
    SumModulo(x, n);
    SumModulo(y, n);
  }

  lemma {:induction false} AddressOf(w: word)
    ensures Fields(w).a == w % W18
  {
  }

  /** The quotient and remainder of C, corrected. */
  lemma {:induction false} ByteAndWord(newby: int, b: nat)
    requires b > 0
    ensures
      var byadj := if newby >= 0 then newby % b else -(-newby % b);
      && (newby - 1) % b + 1 == (if byadj <= 0 then byadj + b else byadj)
      && (newby - 1) / b == Quot(newby, b) - (if byadj <= 0 then 1 else 0)
  {
    var byadj := if newby >= 0 then newby % b else -(-newby % b);
    var q := Quot(newby, b);
    ProductAdd(b, q, -1);
    assert newby == Product(b, q) + byadj;
    if byadj <= 0 {
      assert Product(b, -1) + b == 0;
      DivModUnique(newby - 1, b, q - 1, byadj + b - 1);
    } else {
      DivModUnique(newby - 1, b, q, byadj - 1);
    }
  }
}
