/** The stream cipher of the tunnel (stuk3.c): a state of 256 bytes that is permuted in place,
    one byte of key stream a step. */
module Arc4 {
  import opened Bytes
  import opened Words

  /** Exclusive or of the low `n` bits. */
  function XorBits(a: nat, b: nat, n: nat): (r: nat)
    ensures r < Pow2(n)
  {
    if n == 0 then 0 else (a % 2 + b % 2) % 2 + 2 * XorBits(a / 2, b / 2, n - 1)
  }

  function Xor(a: byte, b: byte): byte {
    assert Pow2(4) == 16 && Pow2(8) == 16 * Pow2(4);
    XorBits(a, b, 8)
  }

  lemma {:induction false} XorBitsTwice(a: nat, b: nat, n: nat)
    requires a < Pow2(n)
    ensures XorBits(XorBits(a, b, n), b, n) == a
  {
    hide *;
    if n > 0 {
      HalfBelow(a, n);
      XorBitsTwice(a / 2, b / 2, n - 1);
      XorBitsStep(a, b, n);
      LowBit(a, b, XorBits(a / 2, b / 2, n - 1));
      XorBitsStep(XorBits(a, b, n), b, n);
    } else {
      NoBits(a, b);
    }
  }

  /** The bit in place `k`. */
  function Bit(x: int, k: nat): int {
    x / Pow2(k) % 2
  }

  lemma {:induction false} BitOfHalf(x: nat, k: nat)
    ensures Bit(x, k + 1) == Bit(x / 2, k) && Bit(x, 0) == x % 2
  {
    var p := Pow2(k);
    assert Pow2(k + 1) == 2 * p && Pow2(0) == 1;
    hide Pow2;
    DivModUnique(x / 2, p, x / 2 / p, x / 2 % p);
    DivModUnique(x, 2 * p, x / 2 / p, x / 2 % p * 2 + x % 2);
  }

  lemma {:induction false} XorBitsAt(a: nat, b: nat, n: nat, k: nat)
    requires k < n
    ensures Bit(XorBits(a, b, n), k) == (Bit(a, k) + Bit(b, k)) % 2
  {
    hide *;
    var x := XorBits(a / 2, b / 2, n - 1);
    XorBitsStep(a, b, n);
    LowBit(a, b, x);
    var j := if k > 0 then k - 1 else 0;
    BitOfHalf(a, j);
    BitOfHalf(b, j);
    BitOfHalf(XorBits(a, b, n), j);
    if k > 0 {
      XorBitsAt(a / 2, b / 2, n - 1, k - 1);
    }
  }

  /** A bit of the exclusive or is set exactly when it differs in the two bytes. */
  lemma {:induction false} XorDiffers(a: byte, b: byte, k: nat)
    requires k < 8
    ensures Xor(a, b) / Pow2(k) % 2 == 1 <==> a / Pow2(k) % 2 != b / Pow2(k) % 2
  {
    hide XorBits, Pow2;
    XorBitsAt(a, b, 8, k);
  }

  lemma {:induction false} HalfBelow(a: nat, n: nat)
    requires a < Pow2(n) && n > 0
    ensures a / 2 < Pow2(n - 1)
  {
  }

  lemma {:induction false} NoBits(a: nat, b: nat)
    requires a < Pow2(0)
    ensures XorBits(XorBits(a, b, 0), b, 0) == a
  {
  }

  lemma {:induction false} XorBitsStep(a: nat, b: nat, n: nat)
    requires n > 0
    ensures XorBits(a, b, n) == (a % 2 + b % 2) % 2 + 2 * XorBits(a / 2, b / 2, n - 1)
  {
  }

  lemma {:induction false} LowBit(a: nat, b: nat, x: nat)
    ensures var r := (a % 2 + b % 2) % 2 + 2 * x;
      r / 2 == x && (r % 2 + b % 2) % 2 == a % 2
  {
  }

  /** Ciphering twice with the same key byte changes nothing. */
  lemma {:induction false} XorTwice(a: byte, b: byte)
    ensures Xor(Xor(a, b), b) == a
  {
    assert Pow2(4) == 16 && Pow2(8) == 16 * Pow2(4);
    XorBitsTwice(a, b, 8);
  }

  /** The sum in an unsigned byte. */
  function Plus(a: int, b: int): byte {
    (a + b) % 256
  }

  lemma {:induction false} PlusSum(a: byte, b: byte, c: byte)
    ensures Plus(a, b) == (a as int + b as int) % 256 && Plus(Plus(a, b), c) == (a as int + b as int + c as int) % 256
  {
    var x := a as int + b as int;
    assert x == x / 256 * 256 + x % 256;
  }

  // ---------------------------------------------------------------- values

  datatype Cipher = Cipher(i: byte, j: byte, s: seq<byte>) {
    predicate Valid() {
      |s| == 256
    }
  }

  function Swap(s: seq<byte>, i: nat, j: nat): (r: seq<byte>)
    requires i < |s| && j < |s|
    ensures |r| == |s|
  {
    s[i := s[j]][j := s[i]]
  }

  /** The state after one more byte. */
  function Next(c: Cipher): (r: Cipher)
    requires c.Valid()
    ensures r.Valid()
  {
    var i := Plus(c.i, 1);
    var j := Plus(c.j, c.s[i]);
    Cipher(i, j, Swap(c.s, i, j))
  }

  /** The byte that the last step gave. */
  function Output(c: Cipher): byte
    requires c.Valid()
  {
    c.s[Plus(c.s[c.i], c.s[c.j])]
  }

  /** The state after `n` more bytes. */
  function Advance(c: Cipher, n: nat): (r: Cipher)
    requires c.Valid()
    ensures r.Valid()
    decreases n
  {
    if n == 0 then c else Advance(Next(c), n - 1)
  }

  /** The byte of key stream after `i` others. */
  function KeyByte(c: Cipher, i: nat): byte
    requires c.Valid()
  {
    Output(Advance(c, i + 1))
  }

  function Crypt(c: Cipher, bs: seq<byte>): (r: seq<byte>)
    requires c.Valid()
    ensures |r| == |bs|
  {
    seq(|bs|, i requires 0 <= i < |bs| => CryptByte(c, bs, i))
  }

  function CryptByte(c: Cipher, bs: seq<byte>, i: nat): byte
    requires c.Valid() && i < |bs|
  {
    Xor(bs[i], KeyByte(c, i))
  }

  function KeyStream(c: Cipher, n: nat): (r: seq<byte>)
    requires c.Valid()
    ensures |r| == n
  {
    seq(n, i requires 0 <= i < n => KeyByte(c, i))
  }

  lemma {:induction false} AdvanceAdd(c: Cipher, m: nat, n: nat)
    requires c.Valid()
    ensures Advance(c, m + n) == Advance(Advance(c, m), n)
    decreases m
  {
    hide Next;
    if m > 0 {
      AdvanceAdd(Next(c), m - 1, n);
    }
  }

  lemma {:induction false} AdvanceNext(c: Cipher, n: nat)
    requires c.Valid()
    ensures Advance(c, n + 1) == Next(Advance(c, n)) && KeyByte(c, n) == Output(Next(Advance(c, n)))
  {
    AdvanceAdd(c, n, 1);
    assert Advance(Advance(c, n), 1) == Next(Advance(c, n));
  }

  lemma {:induction false} KeyByteShift(c: Cipher, m: nat, i: nat)
    requires c.Valid()
    ensures KeyByte(c, m + i) == KeyByte(Advance(c, m), i)
  {
    hide Output, Next;
    AdvanceAdd(c, m, i + 1);
    assert m + i + 1 == m + (i + 1);
  }

  lemma {:induction false} CryptByteAppend(c: Cipher, a: seq<byte>, b: seq<byte>, i: nat)
    requires c.Valid() && i < |a + b|
    ensures CryptByte(c, a + b, i) == if i < |a| then CryptByte(c, a, i) else CryptByte(Advance(c, |a|), b, i - |a|)
  {
    hide KeyByte, Xor, Advance;
    if i >= |a| {
      KeyByteShift(c, |a|, i - |a|);
    }
  }

  /** Each byte is ciphered with a byte of the key stream. */
  lemma {:induction false} CryptAt(c: Cipher, bs: seq<byte>, i: nat)
    requires c.Valid() && i < |bs|
    ensures Crypt(c, bs)[i] == CryptByte(c, bs, i) == Xor(bs[i], KeyByte(c, i))
  {
    hide Xor, KeyByte;
  }

  /** A stretch whose bytes are all ciphered. */
  lemma {:induction false} CryptSlice(c: Cipher, was: seq<byte>, now: seq<byte>, start: nat, len: nat)
    requires c.Valid() && start + len <= |was| == |now|
    requires forall i :: start <= i < start + len ==> now[i] == Xor(was[i], KeyByte(c, i - start))
    ensures now[start..start + len] == Crypt(c, was[start..start + len])
  {
    hide Xor, KeyByte;
  }

  /** The key stream is what the steps give, one after the other. */
  lemma {:induction false} KeyStreamAt(c: Cipher, n: nat, i: nat)
    requires c.Valid() && i < n
    ensures KeyStream(c, n)[i] == KeyByte(c, i) == Output(Next(Advance(c, i)))
    ensures Advance(c, 0) == c && Advance(c, i + 1) == Next(Advance(c, i))
  {
    hide Output, Next;
    AdvanceNext(c, i);
  }

  lemma {:induction false} Concatenation<T>(r: seq<T>, p: seq<T>, q: seq<T>)
    requires |r| == |p| + |q|
    requires forall i {:trigger r[i]} :: 0 <= i < |r| ==> r[i] == if i < |p| then p[i] else q[i - |p|]
    ensures r == p + q
  {
  }

  lemma {:induction false} CryptAppendAt(c: Cipher, a: seq<byte>, b: seq<byte>, i: nat)
    requires c.Valid() && i < |a + b|
    ensures Crypt(c, a + b)[i] == if i < |a| then Crypt(c, a)[i] else Crypt(Advance(c, |a|), b)[i - |a|]
  {
    hide *;
    CryptByteAppend(c, a, b, i);
    CryptAt(c, a + b, i);
    if i < |a| {
      CryptAt(c, a, i);
    } else {
      CryptAt(Advance(c, |a|), b, i - |a|);
    }
  }

  lemma {:induction false} CryptAppend(c: Cipher, a: seq<byte>, b: seq<byte>)
    requires c.Valid()
    ensures Crypt(c, a + b) == Crypt(c, a) + Crypt(Advance(c, |a|), b)
  {
    hide *;
    forall i | 0 <= i < |a + b|
      ensures Crypt(c, a + b)[i] == if i < |a| then Crypt(c, a)[i] else Crypt(Advance(c, |a|), b)[i - |a|]
    {
      CryptAppendAt(c, a, b, i);
    }
    Concatenation(Crypt(c, a + b), Crypt(c, a), Crypt(Advance(c, |a|), b));
  }

  /** Whoever has the same state reads what was written. */
  lemma {:induction false} CryptTwice(c: Cipher, bs: seq<byte>)
    requires c.Valid()
    ensures Crypt(c, Crypt(c, bs)) == bs
  {
    forall i | 0 <= i < |bs| ensures Crypt(c, Crypt(c, bs))[i] == bs[i] {
      XorTwice(bs[i], KeyByte(c, i));
    }
  }

  /** A step of the key schedule. */
  function Mix(c: Cipher, k: byte): (r: Cipher)
    requires c.Valid()
    ensures r.Valid()
  {
    var i := Plus(c.i, 1);
    var j := Plus(Plus(c.j, c.s[i]), k);
    Cipher(i, j, Swap(c.s, i, j))
  }

  /** The schedule's state after `n` steps. */
  function Scheduling(key: seq<byte>, n: nat): (r: Cipher)
    requires key != []
    ensures r.Valid()
  {
    if n == 0 then Cipher(255, 0, seq(256, i requires 0 <= i < 256 => i))
    else Mix(Scheduling(key, n - 1), key[(n - 1) % |key|])
  }

  /** The schedule starts with the identity, and takes a byte of the key a step, over and over. */
  lemma {:induction false} SchedulingSteps(key: seq<byte>, n: nat)
    requires key != []
    ensures Scheduling(key, n + 1) == Mix(Scheduling(key, n), key[n % |key|])
    ensures var c := Scheduling(key, 0); c.i == 255 && c.j == 0 && forall k :: 0 <= k < 256 ==> c.s[k] == k
  {
  }

  /** No byte is lost or doubled in the state. */
  ghost predicate Permuted(s: seq<byte>) {
    |s| == 256 && forall i, k :: 0 <= i < k < 256 ==> s[i] != s[k]
  }

  lemma {:induction false} SwapPermuted(s: seq<byte>, i: nat, j: nat)
    requires Permuted(s) && i < 256 && j < 256
    ensures Permuted(Swap(s, i, j))
  {
  }

  /** The state is a permutation after the schedule, whatever the key, and stays one. */
  lemma {:induction false} StatePermuted(key: seq<byte>, m: nat, n: nat)
    requires key != []
    ensures Permuted(Advance(Scheduling(key, m), n).s)
    decreases m, n
  {
    if n > 0 {
      var c := Advance(Scheduling(key, m), n - 1);
      StatePermuted(key, m, n - 1);
      KeyStreamAt(Scheduling(key, m), n, n - 1);
      SwapPermuted(c.s, Plus(c.i, 1), Plus(c.j, c.s[Plus(c.i, 1)]));
    } else if m > 0 {
      var c := Scheduling(key, m - 1);
      StatePermuted(key, m - 1, 0);
      SwapPermuted(c.s, Plus(c.i, 1), Plus(Plus(c.j, c.s[Plus(c.i, 1)]), key[(m - 1) % |key|]));
    } else {
      SchedulingSteps(key, 0);
    }
  }

  // ---------------------------------------------------------------- the state in place

  class Stream {
    var i: byte
    var j: byte
    const s: array<byte>

    constructor ()
      ensures fresh(s) && s.Length == 256
    {
      i, j := 0, 0;
      s := new byte[256](n => 0);
    }

    ghost function State(): (c: Cipher)
      requires s.Length == 256
      reads this, s
      ensures c.Valid()
    {
      Cipher(i, j, s[..])
    }

    /** The identity permutation that arc4_init starts from. */
    method Reset()
      requires s.Length == 256
      modifies this, s
      ensures forall k :: 0 <= k < 256 ==> s[k] == k
      ensures i == 255 && j == 0
    {
      for n := 0 to 256
        invariant forall k :: 0 <= k < n ==> s[k] == k
      {
        s[n] := n;
      }
      i, j := 255, 0;
    }

    /** A round of the second loop of arc4_init. */
    method MixByte(k: byte)
      requires s.Length == 256
      modifies this, s
      ensures State() == Mix(old(State()), k)
      ensures i == (old(i) as int + 1) % 256 && j == (old(j) as int + old(s[..])[i] as int + k as int) % 256
      ensures s[..] == old(s[..])[i := old(s[..])[j]][j := old(s[..])[i]]
    {
      hide Plus;
      PlusSum(i, 1, 0);
      i := Plus(i, 1);
      var si := s[i];
      PlusSum(j, si, k);
      j := Plus(Plus(j, si), k);
      s[i] := s[j];
      s[j] := si;
      assert s[..] == Swap(old(s[..]), i, j);
    }

    /** arc4_init */
    method Init(fullkey: seq<byte>)
      requires s.Length == 256 && fullkey != []
      modifies this, s
      ensures State() == Scheduling(fullkey, 256)
    {
      Reset();
      assert s[..] == seq(256, i requires 0 <= i < 256 => i);
      assert State() == Scheduling(fullkey, 0);
      hide Mix;
      for n := 0 to 256
        invariant State() == Scheduling(fullkey, n)
      {
        MixByte(fullkey[n % |fullkey|]);
      }
    }

    /** arc4_getbyte */
    method GetByte() returns (b: byte)
      requires s.Length == 256
      modifies this, s
      ensures State() == Next(old(State())) && b == Output(State())
      ensures i == (old(i) as int + 1) % 256 && j == (old(j) as int + old(s[..])[i] as int) % 256
      ensures s[i] == old(s[..])[j] && s[j] == old(s[..])[i]
      ensures forall k :: 0 <= k < 256 && k != i && k != j ==> s[k] == old(s[..])[k]
      ensures b == s[(old(s[..])[i] as int + old(s[..])[j] as int) % 256]
    {
      i := Plus(i, 1);
      var si := s[i];
      j := Plus(j, si);
      var sj := s[j];
      s[i] := sj;
      s[j] := si;
      b := s[Plus(si, sj)];
      assert s[..] == Swap(old(s[..]), i, j);
    }

    /** The same, as a step of the value. */
    method Draw() returns (b: byte)
      requires s.Length == 256
      modifies this, s
      ensures State() == Next(old(State())) && b == Output(State())
    {
      b := GetByte();
    }

    /** The next `n` bytes of the key stream. */
    method GetBytes(n: nat) returns (bs: seq<byte>)
      requires s.Length == 256
      modifies this, s
      ensures State() == Advance(old(State()), n) && bs == KeyStream(old(State()), n)
    {
      ghost var c := State();
      hide Next, Output;
      bs := [];
      for i := 0 to n
        invariant State() == Advance(c, i) && bs == KeyStream(c, i)
      {
        AdvanceNext(c, i);
        var b := Draw();
        bs := bs + [b];
      }
    }

    /** Whether `bs` is what the key stream gives next; the comparison stops at a difference. */
    method Expect(bs: seq<byte>) returns (ok: bool)
      requires s.Length == 256
      modifies this, s
      ensures ok <==> bs == KeyStream(old(State()), |bs|)
      ensures ok ==> State() == Advance(old(State()), |bs|)
    {
      ghost var c := State();
      hide Next, Output, KeyByte;
      for i := 0 to |bs|
        invariant State() == Advance(c, i) && forall k :: 0 <= k < i ==> bs[k] == KeyByte(c, k)
      {
        AdvanceNext(c, i);
        var b := Draw();
        if bs[i] != b {
          assert KeyStream(c, |bs|)[i] == b;
          return false;
        }
      }
      return true;
    }

    /** The round of encr and decr for the byte in place `k`. */
    method CipherAt(b: array<byte>, k: nat)
      requires s.Length == 256 && b != s && k < b.Length
      modifies this, s, b
      ensures State() == Next(old(State())) && b[k] == Xor(old(b[k]), Output(State()))
      ensures forall i :: 0 <= i < b.Length && i != k ==> b[i] == old(b[i])
    {
      hide Next, Output, Xor;
      var x := Draw();
      b[k] := Xor(b[k], x);
    }

    /** The loop of encr and decr, over `len` bytes of `b` from `start` on. */
    method Apply(b: array<byte>, start: nat, len: nat)
      requires s.Length == 256 && b != s && start + len <= b.Length
      modifies this, s, b
      ensures State() == Advance(old(State()), len)
      ensures b[start..start + len] == Crypt(old(State()), old(b[start..start + len]))
      ensures b[..start] == old(b[..start]) && b[start + len..] == old(b[start + len..])
    {
      ghost var c := State();
      hide Next, Output, KeyByte, Xor, Crypt;
      for k := 0 to len
        invariant State() == Advance(c, k)
        invariant forall i :: start <= i < start + k ==> b[i] == Xor(old(b[i]), KeyByte(c, i - start))
        invariant forall i :: 0 <= i < start || start + k <= i < b.Length ==> b[i] == old(b[i])
      {
        AdvanceNext(c, k);
        CipherAt(b, start + k);
      }
      CryptSlice(c, old(b[..]), b[..], start, len);
    }
  }
}
