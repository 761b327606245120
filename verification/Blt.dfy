/** Block transfer (pdp10_cpu.c), which can be interrupted or page-failed before a word and is then
    executed again from what it left in its AC. */
module Blt {
  import opened Words

  /** XWD: two halves, each cut to 18 bits. */
  function Xwd(l: int, r: int): word {
    l % W18 * W18 + r % W18
  }

  datatype Violation = NoViolation | AtSource | AtDestination

  /** What one execution runs into: whether `test_int` stops it before its k-th word, and which
      address, if any, would then page-fail. */
  datatype Trouble = Trouble(interrupt: nat -> bool, violation: nat -> Violation)

  datatype Ret = Done | Interrupted | PageFailed

  /** The first `n` words moved, one after the other; a range may overlap the other. */
  ghost function Copy(m: seq<word>, src: int, dst: nat, n: nat): (r: seq<word>)
    requires |m| == W18 && dst + n <= W18
    ensures |r| == W18
  {
    if n == 0 then m else
      var r := Copy(m, src, dst, n - 1);
      r[dst + n - 1 := r[(src + n - 1) % W18]]
  }

  /** The words still to go. */
  function Length(dst: nat, ea: nat): nat {
    if dst <= ea then ea - dst + 1 else 0
  }

  /** The memory with the AC as the transfer is to leave it, which comes first. */
  ghost function Begun(m: seq<word>, ac: nat, ea: nat): (r: seq<word>)
    requires |m| == W18 && ac < W18
    ensures |r| == W18
  {
    m[ac := Xwd(m[ac] / W18 + (ea - m[ac] % W18 + 1), ea + 1)]
  }

  /** After `n` words of the transfer. */
  ghost function Moved(m: seq<word>, ac: nat, ea: nat, n: nat): (r: seq<word>)
    requires |m| == W18 && ac < W18 && m[ac] % W18 + n <= W18
    ensures |r| == W18
  {
    Copy(Begun(m, ac, ea), m[ac] / W18, m[ac] % W18, n)
  }

  /** What an uninterrupted transfer leaves. */
  ghost function Final(m: seq<word>, ac: nat, ea: nat): (r: seq<word>)
    requires |m| == W18 && ac < W18 && ea < W18
    ensures |r| == W18
  {
    Moved(m, ac, ea, Length(m[ac] % W18, ea))
  }

  /** What a transfer stopped after `n` words leaves. */
  ghost function Stopped(m: seq<word>, ac: nat, ea: nat, n: nat): (r: seq<word>)
    requires |m| == W18 && ac < W18 && m[ac] % W18 + n <= W18
    ensures |r| == W18
  {
    Moved(m, ac, ea, n)[ac := Xwd(m[ac] / W18 + n, m[ac] % W18 + n)]
  }

  /** The j-th source word is not the i-th destination word. */
  ghost predicate Early(src: int, dst: nat, i: nat, j: nat) {
    (src + j) % W18 != dst + i
  }

  lemma {:induction false} LastReadFirst(src: int, dst: nat, i: int, j: nat)
    requires 0 <= i < j ==> Early(src, dst, i, j)
    ensures 0 <= i < j ==> (src + j) % W18 != dst + i
  {
  }

  /** A transfer that reads each word before it overwrites it copies the source as it was, and
      changes nothing else. */
  lemma {:induction false} CopiesSource(m: seq<word>, src: int, dst: nat, n: nat)
    requires |m| == W18 && dst + n <= W18
    requires forall i: nat, j: nat :: i < j < n ==> Early(src, dst, i, j)
    ensures forall a: nat {:trigger Copy(m, src, dst, n)[a]} :: a < W18 ==>
      Copy(m, src, dst, n)[a] == if dst <= a < dst + n then m[(src + (a - dst)) % W18] else m[a]
  {
    if n > 0 {
      CopiesSource(m, src, dst, n - 1);
      LastReadFirst(src, dst, (src + n - 1) % W18 - dst, n - 1);
    }
  }

  /** The usual way to fill a block: with the destination one past the source, the first word goes
      to all. */
  lemma {:induction false} Fills(m: seq<word>, src: nat, n: nat)
    requires |m| == W18 && src + 1 + n <= W18
    ensures forall a: nat {:trigger Copy(m, src, src + 1, n)[a]} :: a < W18 ==>
      Copy(m, src, src + 1, n)[a] == if src < a <= src + n then m[src] else m[a]
  {
    if n > 0 {
      Fills(m, src, n - 1);
    }
  }

  lemma {:induction false} XwdHalves(l: int, r: int)
    ensures Xwd(l, r) / W18 == l % W18 && Xwd(l, r) % W18 == r % W18
  {
  }

  lemma {:induction false} CopyModulo(m: seq<word>, src: int, dst: nat, n: nat)
    requires |m| == W18 && dst + n <= W18
    ensures Copy(m, src % W18, dst, n) == Copy(m, src, dst, n)
  {
    if n > 0 {
      CopyModulo(m, src, dst, n - 1);
      SumModulo(src, n - 1);
    }
  }

  /** Words outside the destination stay. */
  lemma {:induction false} CopyOutside(m: seq<word>, src: int, dst: nat, n: nat, a: nat)
    requires |m| == W18 && dst + n <= W18 && a < W18 && (a < dst || a >= dst + n)
    ensures Copy(m, src, dst, n)[a] == m[a]
  {
    if n > 0 {
      CopyOutside(m, src, dst, n - 1, a);
    }
  }

  lemma {:induction false} CopyTwice(m: seq<word>, src: int, dst: nat, k: nat, n: nat)
    requires |m| == W18 && dst + k + n <= W18
    ensures Copy(Copy(m, src, dst, k), src + k, dst + k, n) == Copy(m, src, dst, k + n)
  {
    if n > 0 {
      CopyTwice(m, src, dst, k, n - 1);
      assert k + n - 1 == k + (n - 1);
    }
  }

  /** Restart transparency: re-executing a transfer that stopped after `k` words ends exactly where
      the uninterrupted transfer does, if and only if the AC still held what BLT had put there. It
      does unless it was one of the `k` words of the destination. */
  lemma {:induction false} Resumed(m: seq<word>, ac: nat, ea: nat, k: nat)
    requires |m| == W18 && ac < W18 && ea < W18 && k < Length(m[ac] % W18, ea)
    ensures Stopped(m, ac, ea, k)[ac] % W18 == m[ac] % W18 + k
    ensures Final(Stopped(m, ac, ea, k), ac, ea) == Final(m, ac, ea) <==>
      Moved(m, ac, ea, k)[ac] == Begun(m, ac, ea)[ac]
    ensures ac < m[ac] % W18 || ac >= m[ac] % W18 + k ==> Moved(m, ac, ea, k)[ac] == Begun(m, ac, ea)[ac]
  {
    hide Copy, Xwd;
    var src: nat, dst: nat, b := m[ac] / W18, m[ac] % W18, Begun(m, ac, ea);
    var rest, s := Length(dst, ea) - k, Stopped(m, ac, ea, k);
    CopyResumed(b, src, dst, k, rest, ac);
    XwdHalves(src + k, dst + k);
    LastAddress(src + k, rest, ea + 1);
    assert Begun(s, ac, ea) == Copy(b, src, dst, k)[ac := b[ac]];
  }

  /** The same, for the words moved. */
  lemma {:induction false} CopyResumed(b: seq<word>, src: int, dst: nat, k: nat, rest: nat, ac: nat)
    requires |b| == W18 && dst + k + rest <= W18 && ac < W18
    ensures var mid := Copy(b, src, dst, k);
      && (Copy(mid[ac := b[ac]], (src + k) % W18, dst + k, rest) == Copy(b, src, dst, k + rest) <==> mid[ac] == b[ac])
      && (ac < dst || ac >= dst + k ==> mid[ac] == b[ac])
  {
    hide *;
    var mid := Copy(b, src, dst, k);
    CopyTwice(b, src, dst, k, rest);
    CopyModulo(mid[ac := b[ac]], src + k, dst + k, rest);
    if ac < dst || ac >= dst + k {
      CopyOutside(b, src, dst, k, ac);
    }
    if mid[ac] == b[ac] {
      assert mid[ac := b[ac]] == mid;
    } else {
      CopyOutside(mid, src + k, dst + k, rest, ac);
      CopyOutside(mid[ac := b[ac]], src + k, dst + k, rest, ac);
    }
  }

  /** A transfer in words: the source comes to the destination as it was, where an AC in the source
      is taken as the transfer leaves it, and nothing else changes but the AC. */
  lemma {:induction false} Transferred(m: seq<word>, ac: nat, ea: nat, a: nat)
    requires |m| == W18 && ac < W18 && ea < W18 && a < W18
    requires forall i: nat, j: nat :: i < j <= ea - m[ac] % W18 ==> Early(m[ac] / W18, m[ac] % W18, i, j)
    requires ac < m[ac] % W18 || ac > ea
    ensures
      var src, dst := m[ac] / W18, m[ac] % W18;
      var left := (src + ea - dst + 1) % W18 * W18 + (ea + 1) % W18;
      var from := if dst <= a <= ea then (src + (a - dst)) % W18 else a;
      Final(m, ac, ea)[a] == if from == ac then left else m[from]
  {
    BegunAt(m, ac, ea);
    hide Copy, Xwd, Begun, Early;
    CopiesSource(Begun(m, ac, ea), m[ac] / W18, m[ac] % W18, Length(m[ac] % W18, ea));
  }

  lemma {:induction false} BegunAt(m: seq<word>, ac: nat, ea: nat)
    requires |m| == W18 && ac < W18
    ensures Begun(m, ac, ea) == m[ac := (m[ac] / W18 + ea - m[ac] % W18 + 1) % W18 * W18 + (ea + 1) % W18]
  {
  }

  lemma {:induction false} FinalAc(m: seq<word>, ac: nat, ea: nat)
    requires |m| == W18 && ac < W18 && ea < W18 && (ac < m[ac] % W18 || ac > ea)
    ensures Final(m, ac, ea)[ac] == (m[ac] / W18 + ea - m[ac] % W18 + 1) % W18 * W18 + (ea + 1) % W18
  {
    BegunAt(m, ac, ea);
    hide Copy, Xwd, Begun;
    CopyOutside(Begun(m, ac, ea), m[ac] / W18, m[ac] % W18, Length(m[ac] % W18, ea), ac);
  }

  lemma {:induction false} StoppedAc(m: seq<word>, ac: nat, ea: nat, k: nat)
    requires |m| == W18 && ac < W18 && m[ac] % W18 + k < W18
    ensures Stopped(m, ac, ea, k)[ac] == (m[ac] / W18 + k) % W18 * W18 + m[ac] % W18 + k
    ensures Stopped(m, ac, ea, k) == Moved(m, ac, ea, k)[ac := Xwd(m[ac] / W18 + k, m[ac] % W18 + k)]
  {
    hide Moved;
  }

  lemma {:induction false} MovedNone(m: seq<word>, ac: nat, ea: nat)
    requires |m| == W18 && ac < W18
    ensures Moved(m, ac, ea, 0) == m[ac := Xwd(m[ac] / W18 + (ea - m[ac] % W18 + 1), ea + 1)]
  {
    hide Xwd;
    CopyNone(Begun(m, ac, ea), m[ac] / W18, m[ac] % W18);
  }

  lemma {:induction false} MovedNext(m: seq<word>, ac: nat, ea: nat, k: nat)
    requires |m| == W18 && ac < W18 && m[ac] % W18 + k < W18
    ensures var r := Moved(m, ac, ea, k);
      r[m[ac] % W18 + k := r[(m[ac] / W18 + k) % W18]] == Moved(m, ac, ea, k + 1)
  {
    hide Begun;
    CopyNext(Begun(m, ac, ea), m[ac] / W18, m[ac] % W18, k);
  }

  lemma {:induction false} AllMoved(m: seq<word>, ac: nat, ea: nat, k: nat)
    requires |m| == W18 && ac < W18 && ea < W18 && k == Length(m[ac] % W18, ea)
    ensures m[ac] % W18 + k <= W18 && Final(m, ac, ea) == Moved(m, ac, ea, k)
    ensures ac < m[ac] % W18 || ac > ea ==>
      Final(m, ac, ea)[ac] == (m[ac] / W18 + ea - m[ac] % W18 + 1) % W18 * W18 + (ea + 1) % W18
  {
    if ac < m[ac] % W18 || ac > ea {
      FinalAc(m, ac, ea);
    }
  }

  lemma {:induction false} CopyNone(m: seq<word>, src: int, dst: nat)
    requires |m| == W18 && dst <= W18
    ensures Copy(m, src, dst, 0) == m
  {
  }

  lemma {:induction false} CopyNext(m: seq<word>, src: int, dst: nat, k: nat)
    requires |m| == W18 && dst + k < W18
    ensures var r := Copy(m, src, dst, k); r[dst + k := r[(src + k) % W18]] == Copy(m, src, dst, k + 1)
  {
  }

  lemma {:induction false} LastAddress(a: int, n: int, r: int)
    ensures Xwd(a % W18 + n, r) == Xwd(a + n, r)
  {
    SumModulo(a, n);
  }

  /** The words of one context's virtual memory; the first 16 are the ACs. */
  class Memory {
    const M: array<word>

    ghost predicate Valid() {
      M.Length == W18
    }

    constructor (m: array<word>)
      ensures M == m
    {
      M := m;
    }

    /** The AC is not in the destination, or is the last word of it. */
    ghost predicate Apart(ac: nat, ea: nat)
      requires Valid() && ac < W18
      reads M
    {
      ac < M[ac] % W18 || ac >= ea
    }

    /** One word of BLT. */
    method Move(srca: nat, dsta: nat)
      requires M.Length == W18 && dsta < W18
      modifies M
      ensures M[..] == old(M[..])[dsta := old(M[srca % W18])]
    {
      var srcv := M[srca % W18];
      M[dsta] := srcv;
    }

    /** BLT: done, it leaves what the transfer is to leave; stopped, it leaves the words moved so
        far and the addresses of the next in the AC. It looks for interrupts only after it has moved
        a word, so that only a page fail can stop it before the first. */
    method Blt(ac: nat, ea: nat, t: Trouble) returns (r: Ret, ghost k: nat)
      requires Valid() && ac < 16 && ea < W18
      modifies M
      ensures r == Done ==> M[..] == Final(old(M[..]), ac, ea)
      ensures r != Done ==> k < Length(old(M[ac]) % W18, ea) && M[..] == Stopped(old(M[..]), ac, ea, k)
      ensures
        var src, dst := old(M[ac]) / W18, old(M[ac]) % W18;
        && (r == Done && (ac < dst || ac > ea) ==> M[ac] == (src + ea - dst + 1) % W18 * W18 + (ea + 1) % W18)
        && (r != Done ==> dst + k <= ea && M[ac] == (src + k) % W18 * W18 + dst + k)
        && (r == Done <==> k == if dst <= ea then ea - dst + 1 else 0)
      ensures forall j: nat :: j < k ==> t.violation(j) == NoViolation && (j > 0 ==> !t.interrupt(j))
      ensures r == Interrupted ==> k > 0 && t.interrupt(k)
      ensures r == PageFailed ==> t.violation(k) != NoViolation && (k > 0 ==> !t.interrupt(k))
    {
      hide Xwd, Moved, Stopped, Final;
      ghost var m := M[..];
      ghost var src: nat, dst: nat := m[ac] / W18, m[ac] % W18;
      var srca: nat, dsta: nat := M[ac] / W18, M[ac] % W18;
      var lnt := ea - dsta + 1;
      M[ac] := Xwd(srca + lnt, dsta + lnt);
      MovedNone(m, ac, ea);
      var flg := 0;
      while dsta <= ea
        invariant 0 <= flg <= Length(dst, ea) && srca == src + flg && dsta == dst + flg
        invariant M[..] == Moved(m, ac, ea, flg)
        invariant forall j: nat :: j < flg ==> t.violation(j) == NoViolation && (j > 0 ==> !t.interrupt(j))
      {
        StoppedAc(m, ac, ea, flg);
        if flg > 0 && t.interrupt(flg) {
          M[ac] := Xwd(srca, dsta);
          return Interrupted, flg;
        }
        if t.violation(flg) != NoViolation {
          M[ac] := Xwd(srca, dsta);
          return PageFailed, flg;
        }
        MovedNext(m, ac, ea, flg);
        Move(srca, dsta);
        srca := srca + 1;
        dsta := dsta + 1;
        flg := flg + 1;
      }
      AllMoved(m, ac, ea, flg);
      return Done, flg;
    }

    /** Executed again whenever it is stopped, in whatever way each time, and in the end let run,
        BLT leaves what one undisturbed execution would have left, if its AC is not in the
        destination but for its last word. */
    method Complete(ac: nat, ea: nat, tries: seq<Trouble>)
      requires Valid() && ac < 16 && ea < W18
      modifies M
      ensures old(Apart(ac, ea)) ==> M[..] == Final(old(M[..]), ac, ea)
    {
      hide Final, Stopped, Moved;
      var i := 0;
      while i < |tries|
        invariant 0 <= i <= |tries|
        invariant old(Apart(ac, ea)) ==> Apart(ac, ea) && Final(M[..], ac, ea) == Final(old(M[..]), ac, ea)
      {
        ghost var m := M[..];
        var r, k := Blt(ac, ea, tries[i]);
        if r == Done {
          return;
        }
        Resumed(m, ac, ea, k);
        assert M[..][ac] == M[ac];
        i := i + 1;
      }
      var r, k := Blt(ac, ea, Trouble((k: nat) => false, (k: nat) => NoViolation));
    }
  }
}
