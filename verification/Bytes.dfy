/** Bytes, and numbers stored in them with the low byte first. */
module Bytes {
  type byte = x: int | 0 <= x < 256

  const B32: int := 0x1_0000_0000

  function Put2(n: nat): (r: seq<byte>)
    ensures |r| == 2
  {
    [n % 256, n / 256 % 256]
  }

  function Put4(n: nat): (r: seq<byte>)
    ensures |r| == 4
  {
    [n % 256, n / 256 % 256, n / 65536 % 256, n / 16777216 % 256]
  }

  function Get2(b: seq<byte>, i: nat): nat
    requires i + 2 <= |b|
  {
    var high: int := b[i + 1];
    b[i] + 256 * high
  }

  function Get4(b: seq<byte>, i: nat): nat
    requires i + 4 <= |b|
  {
    var b1: int, b2: int, b3: int := b[i + 1], b[i + 2], b[i + 3];
    b[i] + 256 * b1 + 65536 * b2 + 16777216 * b3
  }

  lemma {:induction false} Get2Put2(b: seq<byte>, i: nat, n: nat)
    requires i + 2 <= |b| && b[i..i + 2] == Put2(n)
    ensures Get2(b, i) == n % 65536
  {
    var s := b[i..i + 2];
    assert b[i] == s[0] && b[i + 1] == s[1];
    Low2(n);
  }

  lemma {:induction false} Get4Put4(b: seq<byte>, i: nat, n: nat)
    requires i + 4 <= |b| && b[i..i + 4] == Put4(n)
    ensures Get4(b, i) == n % B32
  {
    var s := b[i..i + 4];
    assert b[i] == s[0] && b[i + 1] == s[1] && b[i + 2] == s[2] && b[i + 3] == s[3];
    Low4(n);
  }

  lemma {:induction false} Low2(n: nat)
    ensures n % 256 + 256 * (n / 256 % 256) == n % 65536
  {
    var q, k := n / 256, n / 65536;
    assert q == 256 * k + q % 256;
  }

  lemma {:induction false} Low4(n: nat)
    ensures n % 256 + 256 * (n / 256 % 256) + 65536 * (n / 65536 % 256) + 16777216 * (n / 16777216 % 256) == n % B32
  {
    Low2(n);
    Low2(n / 65536);
    assert n / 65536 / 256 == n / 16777216;
    assert n == 65536 * (n / 65536) + n % 65536;
    HighPart(n / 65536, n % 65536);
  }

  lemma {:induction false} HighPart(q: nat, r: nat)
    requires r < 65536
    ensures (65536 * q + r) % B32 == 65536 * (q % 65536) + r
  {
    var k := q / 65536;
    assert 65536 * q + r == B32 * k + (65536 * (q % 65536) + r);
  }
}
