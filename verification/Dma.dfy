/** Unibus transfers (pdp10_ksio.c): blocks of bytes read from and written to the main memory
    through the map of the Unibus adapter. */
module Dma {
  import opened Words
  import opened Bytes

  /** MEMSIZE, UMAP_MEMSIZE, UMAP_VLD */
  const MEMSIZE := 0x10_0000
  const UMAP_MEMSIZE := 64
  const UMAP_VLD := 0x800_0000

  /** A map entry as stored: flags, and the number of a memory page of 512 words. */
  type entry = x: int | 0 <= x < 0x8000_0000 && x % 512 == 0

  /** The page of a Unibus address, and the word in the page. */
  function Vpn(addr: nat): (v: nat)
    ensures v < 512
  {
    addr / 4 / 512 % 512
  }

  function Offset(addr: nat): (o: nat)
    ensures o < 512
  {
    addr / 4 % 512
  }

  /** Whether the map takes the address to memory. */
  predicate Mapped(map': seq<entry>, addr: nat): (b: bool)
    requires |map'| == UMAP_MEMSIZE
    ensures b ==> Vpn(addr) < UMAP_MEMSIZE
  {
    Vpn(addr) < UMAP_MEMSIZE && addr / 0x2_0000 % 2 == 0 && map'[Vpn(addr)] / UMAP_VLD % 2 == 1
  }

  function Place(map': seq<entry>, addr: nat): (pa: nat)
    requires |map'| == UMAP_MEMSIZE && Vpn(addr) < UMAP_MEMSIZE
    ensures pa < MEMSIZE
  {
    (map'[Vpn(addr)] + Offset(addr)) % MEMSIZE
  }

  /** The 16 bits at an address: in the right half of the word if address bit 1 is set. */
  predicate RightHalf(addr: nat) {
    addr / 2 % 2 == 1
  }

  function Half(w: word, right: bool): (d: nat)
    ensures d < W18
  {
    if right then w % W18 else w / W18
  }

  function PutHalf(w: word, right: bool, d: nat): (r: word)
    requires d < W18
    ensures Half(r, right) == d && Half(r, !right) == Half(w, !right)
  {
    if right then w / W18 * W18 + d else d * W18 + w % W18
  }

  /** The byte at a Unibus address: the low byte of its 16 bits if the address is even. */
  function ByteAt(m: seq<word>, map': seq<entry>, addr: nat): byte
    requires |m| == MEMSIZE && |map'| == UMAP_MEMSIZE && Mapped(map', addr)
  {
    var d := Half(m[Place(map', addr)], RightHalf(addr)) % 0x1_0000;
    if addr % 2 == 0 then d % 256 else d / 256
  }

  /** The byte in numbers: of which word, which half, and which byte of the half. */
  lemma {:induction false} ByteIn(m: seq<word>, map': seq<entry>, addr: nat)
    requires |m| == MEMSIZE && |map'| == UMAP_MEMSIZE && Mapped(map', addr)
    ensures
      var w: int := m[(map'[addr / 2048 % 512] + addr / 4 % 512) % 0x10_0000];
      var d := if addr / 2 % 2 == 1 then w else w / 0x4_0000;
      ByteAt(m, map', addr) == if addr % 2 == 0 then d % 256 else d / 256 % 256
  {
    var w: int := m[Place(map', addr)];
    PageNumber(addr);
    LowByte(Half(w, RightHalf(addr)));
    LowInHalf(w);
    hide Half;
  }

  lemma {:induction false} InNumbers(map': seq<entry>, addr: nat)
    requires |map'| == UMAP_MEMSIZE
    ensures Vpn(addr) == addr / 2048 % 512 && Offset(addr) == addr / 4 % 512 && (RightHalf(addr) <==> addr / 2 % 2 == 1)
    ensures Mapped(map', addr) <==>
      addr / 2048 % 512 < 64 && addr / 0x2_0000 % 2 == 0 && (map'[addr / 2048 % 512] as int) / 0x800_0000 % 2 == 1
  {
    PageNumber(addr);
  }

  lemma {:induction false} LowBits(w: word, right: bool)
    ensures Half(w, right) % 0x1_0000 == (if right then w else w / W18) % 0x1_0000
  {
    var q, r: int := w / W18, w % W18;
    DivModUnique(w, 0x1_0000, 4 * q + r / 0x1_0000, r % 0x1_0000);
  }

  lemma {:induction false} PageNumber(addr: nat)
    ensures addr / 4 / 512 == addr / 2048
  {
  }

  lemma {:induction false} LowInHalf(w: nat)
    ensures w % W18 % 256 == w % 256 && w % W18 / 256 % 256 == w / 256 % 256
  {
    var q, r := w / W18, w % W18;
    DivModUnique(w, 256, 1024 * q + r / 256, r % 256);
    DivModUnique(1024 * q + r / 256, 256, 4 * q + r / 256 / 256, r / 256 % 256);
  }

  lemma {:induction false} LowByte(d: nat)
    ensures d % 0x1_0000 % 256 == d % 256 && d % 0x1_0000 / 256 == d / 256 % 256
  {
    var q, r := d / 0x1_0000, d % 0x1_0000;
    DivModUnique(d, 256, 256 * q + r / 256, r % 256);
    DivModUnique(256 * q + r / 256, 256, q, r / 256);
  }

  /** One byte replaced. The two bits of the half word above its 16 bits are lost. */
  function SetByte(m: seq<word>, map': seq<entry>, addr: nat, b: byte): (r: seq<word>)
    requires |m| == MEMSIZE && |map'| == UMAP_MEMSIZE && Mapped(map', addr)
    ensures |r| == MEMSIZE
  {
    var pa, right := Place(map', addr), RightHalf(addr);
    var d := Half(m[pa], right) % 0x1_0000;
    m[pa := PutHalf(m[pa], right, Spliced(d, addr % 2 == 1, b))]
  }

  function Spliced(d: nat, odd: bool, b: byte): (r: nat)
    requires d < 0x1_0000
    ensures r < 0x1_0000
    ensures odd ==> r / 256 == b && r % 256 == d % 256
    ensures !odd ==> r % 256 == b && r / 256 == d / 256
  {
    var n: int := b;
    if odd then n * 256 + d % 256 else d / 256 * 256 + n
  }

  predicate MappedAt(map': seq<entry>, ba: nat, i: nat)
    requires |map'| == UMAP_MEMSIZE
  {
    Mapped(map', ba + i)
  }

  ghost predicate AllMapped(map': seq<entry>, ba: nat, n: nat)
    requires |map'| == UMAP_MEMSIZE
  {
    forall i: nat :: i < n ==> MappedAt(map', ba, i)
  }

  /** How many of `n` addresses come before the first that is not mapped. */
  function Reach(map': seq<entry>, ba: nat, n: nat): (r: nat)
    requires |map'| == UMAP_MEMSIZE
    ensures r <= n && AllMapped(map', ba, r) && (r < n ==> !MappedAt(map', ba, r))
  {
    if n == 0 then 0 else
      var r := Reach(map', ba, n - 1);
      if r == n - 1 && MappedAt(map', ba, r) then n else r
  }

  /** Bytes stored one by one. */
  ghost function Stored(m: seq<word>, map': seq<entry>, ba: nat, data: seq<byte>): (r: seq<word>)
    requires |m| == MEMSIZE && |map'| == UMAP_MEMSIZE && AllMapped(map', ba, |data|)
    ensures |r| == MEMSIZE
  {
    if data == [] then m else
      var n := |data| - 1;
      assert MappedAt(map', ba, n);
      SetByte(Stored(m, map', ba, data[..n]), map', ba + n, data[n])
  }

  /** Bytes fetched one by one. */
  ghost function Fetched(m: seq<word>, map': seq<entry>, ba: nat, n: nat): (r: seq<byte>)
    requires |m| == MEMSIZE && |map'| == UMAP_MEMSIZE && AllMapped(map', ba, n)
    ensures |r| == n
  {
    if n == 0 then [] else
      assert MappedAt(map', ba, n - 1);
      Fetched(m, map', ba, n - 1) + [ByteAt(m, map', ba + n - 1)]
  }

  /** If in different pages, the two addresses are mapped to different pages of the memory. */
  ghost predicate Apart(map': seq<entry>, a: nat, b: nat)
    requires |map'| == UMAP_MEMSIZE && Mapped(map', a) && Mapped(map', b)
  {
    Vpn(a) != Vpn(b) ==> map'[Vpn(a)] % MEMSIZE != map'[Vpn(b)] % MEMSIZE
  }

  // What storing and fetching bytes mean

  lemma {:induction false} SamePlace(map': seq<entry>, a: nat, b: nat)
    requires |map'| == UMAP_MEMSIZE && Mapped(map', a) && Mapped(map', b) && Apart(map', a, b)
    ensures Place(map', a) == Place(map', b) <==> Vpn(a) == Vpn(b) && Offset(a) == Offset(b)
  {
    hide Vpn, Offset, Mapped;
    var e, e' := map'[Vpn(a)], map'[Vpn(b)];
    InPage(e, Offset(a));
    InPage(e', Offset(b));
    SameSum(e % MEMSIZE, Offset(a), e' % MEMSIZE, Offset(b));
  }

  lemma {:induction false} SameSum(x: int, o: int, y: int, o': int)
    requires x % 512 == 0 && y % 512 == 0 && 0 <= o < 512 && 0 <= o' < 512
    ensures x + o == y + o' <==> x == y && o == o'
  {
    DivModUnique(x + o, 512, x / 512, o);
    DivModUnique(y + o', 512, y / 512, o');
  }

  lemma {:induction false} InPage(e: entry, o: nat)
    requires o < 512
    ensures (e + o) % MEMSIZE == e % MEMSIZE + o && e % MEMSIZE % 512 == 0
  {
  }

  /** Addresses the map takes to memory have 17 significant bits; those of the same word, half word
      and byte are the same. */
  lemma {:induction false} SameAddress(map': seq<entry>, a: nat, b: nat)
    requires |map'| == UMAP_MEMSIZE && Mapped(map', a) && Mapped(map', b) && a < MEMSIZE && b < MEMSIZE
    requires Vpn(a) == Vpn(b) && Offset(a) == Offset(b) && RightHalf(a) == RightHalf(b) && a % 2 == b % 2
    ensures a == b
  {
    Parts(a);
    Parts(b);
  }

  lemma {:induction false} Parts(a: nat)
    requires a < MEMSIZE
    ensures a == Vpn(a) * 2048 + Offset(a) * 4 + (if RightHalf(a) then 2 else 0) + a % 2
  {
    assert a / 4 / 512 < 512;
    assert a == a / 2 * 2 + a % 2 && a / 2 == a / 2 / 2 * 2 + a / 2 % 2 && a / 2 / 2 == a / 4;
  }

  /** A byte stored is read back, and no other byte changes. */
  lemma {:induction false} SetByteExact(m: seq<word>, map': seq<entry>, a: nat, v: byte, b: nat)
    requires |m| == MEMSIZE && |map'| == UMAP_MEMSIZE && a < MEMSIZE && b < MEMSIZE
    requires Mapped(map', a) && Mapped(map', b) && Apart(map', a, b)
    ensures ByteAt(SetByte(m, map', a, v), map', b) == if a == b then v else ByteAt(m, map', b)
  {
    hide Vpn, Offset, RightHalf, Apart, Mapped, Place, Half, PutHalf, Spliced;
    SamePlace(map', a, b);
    var w := m[Place(map', a)];
    var d := Half(w, RightHalf(a)) % 0x1_0000;
    if a != b && Place(map', a) == Place(map', b) && RightHalf(a) == RightHalf(b) {
      if a % 2 == b % 2 {
        SameAddress(map', a, b);
      }
    }
    SmallModulo(Spliced(d, a % 2 == 1, v));
  }

  /** With two pages mapped to the same page of the memory, the byte stored is also read at the
      other address, whatever was there. */
  lemma {:induction false} Aliased(m: seq<word>, map': seq<entry>, a: nat, v: byte, b: nat)
    requires |m| == MEMSIZE && |map'| == UMAP_MEMSIZE && Mapped(map', a) && Mapped(map', b)
    requires !Apart(map', a, b) && a % 2048 == b % 2048
    ensures ByteAt(SetByte(m, map', a, v), map', b) == v
  {
    hide Vpn, Offset, RightHalf, Mapped, Half, PutHalf, Spliced;
    SamePart(a, b);
    InPage(map'[Vpn(a)], Offset(a));
    InPage(map'[Vpn(b)], Offset(b));
    SmallModulo(Spliced(Half(m[Place(map', a)], RightHalf(a)) % 0x1_0000, a % 2 == 1, v));
  }

  lemma {:induction false} SamePart(a: nat, b: nat)
    requires a % 2048 == b % 2048
    ensures Offset(a) == Offset(b) && RightHalf(a) == RightHalf(b) && a % 2 == b % 2
  {
    LowPart(a, a / 2048, a % 2048);
    LowPart(b, b / 2048, b % 2048);
  }

  lemma {:induction false} LowPart(a: nat, i: nat, r: nat)
    requires a == 2048 * i + r && r < 2048
    ensures Offset(a) == r / 4 && (RightHalf(a) <==> r / 2 % 2 == 1) && a % 2 == r % 2
  {
    DivModUnique(a, 4, 512 * i + r / 4, r % 4);
    DivModUnique(512 * i + r / 4, 512, i, r / 4);
    DivModUnique(a, 2, 1024 * i + r / 2, r % 2);
    DivModUnique(1024 * i + r / 2, 2, 512 * i + r / 2 / 2, r / 2 % 2);
  }

  ghost predicate AllApart(map': seq<entry>, ba: nat, n: nat, b: nat)
    requires |map'| == UMAP_MEMSIZE && AllMapped(map', ba, n) && Mapped(map', b)
  {
    forall i: nat :: i < n ==> MappedAt(map', ba, i) && Apart(map', ba + i, b)
  }

  /** Bytes stored: exactly those in the range change, each to its value. */
  lemma {:induction false} StoredExact(m: seq<word>, map': seq<entry>, ba: nat, data: seq<byte>, b: nat)
    requires |m| == MEMSIZE && |map'| == UMAP_MEMSIZE && ba + |data| <= MEMSIZE && b < MEMSIZE
    requires AllMapped(map', ba, |data|) && Mapped(map', b) && AllApart(map', ba, |data|, b)
    ensures ByteAt(Stored(m, map', ba, data), map', b) ==
      if ba <= b < ba + |data| then data[b - ba] else ByteAt(m, map', b)
  {
    hide SetByte, ByteAt, Mapped, Apart;
    if data != [] {
      var n := |data| - 1;
      StoredExact(m, map', ba, data[..n], b);
      assert MappedAt(map', ba, n) && Apart(map', ba + n, b);
      SetByteExact(Stored(m, map', ba, data[..n]), map', ba + n, data[n], b);
    }
  }

  /** Words the range is not mapped to do not change. */
  lemma {:induction false} StoredElsewhere(m: seq<word>, map': seq<entry>, ba: nat, data: seq<byte>, pa: nat)
    requires |m| == MEMSIZE && |map'| == UMAP_MEMSIZE && AllMapped(map', ba, |data|) && pa < MEMSIZE
    requires forall i: nat :: i < |data| ==> MappedAt(map', ba, i) && Place(map', ba + i) != pa
    ensures Stored(m, map', ba, data)[pa] == m[pa]
  {
    hide Place, Mapped, Half, PutHalf, RightHalf, Spliced;
    if data != [] {
      var n := |data| - 1;
      assert MappedAt(map', ba, n);
      StoredElsewhere(m, map', ba, data[..n], pa);
    }
  }

  lemma {:induction false} FetchedAt(m: seq<word>, map': seq<entry>, ba: nat, n: nat, i: nat)
    requires |m| == MEMSIZE && |map'| == UMAP_MEMSIZE && AllMapped(map', ba, n) && i < n
    ensures MappedAt(map', ba, i) && Fetched(m, map', ba, n)[i] == ByteAt(m, map', ba + i)
  {
    assert MappedAt(map', ba, n - 1);
    if i < n - 1 {
      FetchedAt(m, map', ba, n - 1, i);
    }
  }

  /** The pages of a range are mapped to different pages of the memory. */
  ghost predicate Separate(map': seq<entry>, ba: nat, n: nat)
    requires |map'| == UMAP_MEMSIZE && AllMapped(map', ba, n)
  {
    forall j: nat :: j < n ==> MappedAt(map', ba, j) && AllApart(map', ba, n, ba + j)
  }

  /** What is stored is what is fetched. */
  lemma {:induction false} RoundTrip(m: seq<word>, map': seq<entry>, ba: nat, data: seq<byte>)
    requires |m| == MEMSIZE && |map'| == UMAP_MEMSIZE && ba + |data| <= MEMSIZE
    requires AllMapped(map', ba, |data|) && Separate(map', ba, |data|)
    ensures Fetched(Stored(m, map', ba, data), map', ba, |data|) == data
  {
    var m' := Stored(m, map', ba, data);
    forall j: nat | j < |data| ensures Fetched(m', map', ba, |data|)[j] == data[j] {
      FetchedAt(m', map', ba, |data|, j);
      StoredExact(m, map', ba, data, ba + j);
    }
  }

  // The words of a transfer

  predicate Even(a: nat) {
    a % 2 == 0
  }

  lemma {:induction false} NextEven(a: nat)
    ensures Even(a + 2) == Even(a) && Even(a + 1) != Even(a)
  {
  }

  lemma {:induction false} Pair(map': seq<entry>, a: nat)
    requires |map'| == UMAP_MEMSIZE && a % 2 == 0
    ensures Vpn(a + 1) == Vpn(a) && Offset(a + 1) == Offset(a) && RightHalf(a + 1) == RightHalf(a)
    ensures Mapped(map', a + 1) == Mapped(map', a)
  {
    NextQuotients(a);
  }

  lemma {:induction false} NextQuotients(a: nat)
    requires a % 2 == 0
    ensures (a + 1) / 2 == a / 2 && (a + 1) / 4 == a / 4 && (a + 1) / 0x2_0000 == a / 0x2_0000
  {
    var q, r, q', r' := a / 4, a % 4, a / 0x2_0000, a % 0x2_0000;
    assert a == 4 * q + r && a == 0x2_0000 * q' + r' && a == 2 * (a / 2);
    assert r != 3 && r' != 0x1_FFFF;
    DivModUnique(a + 1, 2, a / 2, 1);
    DivModUnique(a + 1, 4, q, r + 1);
    DivModUnique(a + 1, 0x2_0000, q', r' + 1);
  }

  lemma {:induction false} PutHalfTwice(w: word, right: bool, d: nat, d': nat)
    requires d < W18 && d' < W18
    ensures PutHalf(PutHalf(w, right, d), right, d') == PutHalf(w, right, d')
  {
  }

  /** A pair of bytes as one 16-bit word. */
  lemma {:induction false} PutPair(m: seq<word>, map': seq<entry>, a: nat, b0: byte, b1: byte, d: nat)
    requires |m| == MEMSIZE && |map'| == UMAP_MEMSIZE && a % 2 == 0 && Mapped(map', a) && Mapped(map', a + 1)
    requires d < 0x1_0000 && d % 256 == b0 && d / 256 == b1
    ensures m[Place(map', a) := PutHalf(m[Place(map', a)], RightHalf(a), d)] ==
      SetByte(SetByte(m, map', a, b0), map', a + 1, b1)
  {
    hide RightHalf, Half, PutHalf, Spliced, Mapped, Vpn, Offset;
    Pair(map', a);
    PairWord(m[Place(map', a)], RightHalf(a), b0, b1, d);
  }

  /** Two bytes put into a half word one after the other. */
  lemma {:induction false} PairWord(w: word, right: bool, b0: byte, b1: byte, d: nat)
    requires d < 0x1_0000 && d % 256 == b0 && d / 256 == b1
    ensures
      var w' := PutHalf(w, right, Spliced(Half(w, right) % 0x1_0000, false, b0));
      PutHalf(w', right, Spliced(Half(w', right) % 0x1_0000, true, b1)) == PutHalf(w, right, d)
  {
    var d0 := Spliced(Half(w, right) % 0x1_0000, false, b0);
    PutHalfTwice(w, right, d0, d);
    SmallModulo(d0);
    hide PutHalf, Half;
  }

  lemma {:induction false} SpliceHigh(d: nat, b: byte)
    requires d < 0x1_0000
    ensures var n: int := b; d % 256 + n * 256 == Spliced(d, true, b) == Spliced(d, true, b) % 0x1_0000
  {
  }

  lemma {:induction false} SpliceLow(d: nat, b: byte)
    requires d < 0x1_0000
    ensures var n: int := b; d / 256 * 256 + n == Spliced(d, false, b) == Spliced(d, false, b) % 0x1_0000
  {
  }

  lemma {:induction false} SmallModulo(d: nat)
    requires d < 0x1_0000
    ensures d % 0x1_0000 == d
  {
  }

  lemma {:induction false} StoredNext(m: seq<word>, map': seq<entry>, ba: nat, data: seq<byte>, i: nat)
    requires |m| == MEMSIZE && |map'| == UMAP_MEMSIZE && i < |data|
    requires AllMapped(map', ba, i) && MappedAt(map', ba, i)
    ensures AllMapped(map', ba, i + 1)
    ensures Stored(m, map', ba, data[..i + 1]) == SetByte(Stored(m, map', ba, data[..i]), map', ba + i, data[i])
  {
    assert data[..i + 1][..i] == data[..i];
  }

  /** The first `i` bytes are stored. */
  ghost predicate Wrote(m: seq<word>, m': seq<word>, map': seq<entry>, ba: nat, data: seq<byte>, i: nat)
    requires |m| == MEMSIZE && |map'| == UMAP_MEMSIZE
  {
    i <= |data| && AllMapped(map', ba, i) && m' == Stored(m, map', ba, data[..i])
  }

  /** After a part of the transfer: `i` bytes are stored; if that failed, no more can be. */
  ghost predicate Outcome(m: seq<word>, m': seq<word>, map': seq<entry>, ba: nat, data: seq<byte>, i: nat, ok: bool)
    requires |m| == MEMSIZE && |map'| == UMAP_MEMSIZE
  {
    if ok then Wrote(m, m', map', ba, data, i)
    else Reach(map', ba, |data|) == i < |data| && m' == Stored(m, map', ba, data[..i])
  }

  lemma {:induction false} WroteNone(m: seq<word>, map': seq<entry>, ba: nat, data: seq<byte>)
    requires |m| == MEMSIZE && |map'| == UMAP_MEMSIZE
    ensures Wrote(m, m, map', ba, data, 0)
  {
  }

  lemma {:induction false} WroteOne(m: seq<word>, m1: seq<word>, m2: seq<word>, map': seq<entry>, ba: nat, data: seq<byte>, i: nat)
    requires |m| == |m1| == MEMSIZE && |map'| == UMAP_MEMSIZE && i < |data| && Wrote(m, m1, map', ba, data, i)
    requires Mapped(map', ba + i) && m2 == SetByte(m1, map', ba + i, data[i])
    ensures Wrote(m, m2, map', ba, data, i + 1)
  {
    assert MappedAt(map', ba, i);
    hide Mapped, SetByte;
    StoredNext(m, map', ba, data, i);
    hide Stored;
  }

  lemma {:induction false} WroteTwo(m: seq<word>, m1: seq<word>, m2: seq<word>, map': seq<entry>, ba: nat, data: seq<byte>, i: nat)
    requires |m| == |m1| == MEMSIZE && |map'| == UMAP_MEMSIZE && i + 1 < |data| && Wrote(m, m1, map', ba, data, i)
    requires Mapped(map', ba + i) && Mapped(map', ba + i + 1)
    requires m2 == SetByte(SetByte(m1, map', ba + i, data[i]), map', ba + i + 1, data[i + 1])
    ensures Wrote(m, m2, map', ba, data, i + 2)
  {
    var mid := SetByte(m1, map', ba + i, data[i]);
    WroteOne(m, m1, mid, map', ba, data, i);
    WroteOne(m, mid, m2, map', ba, data, i + 1);
  }

  lemma {:induction false} WroteSome(m: seq<word>, m': seq<word>, map': seq<entry>, ba: nat, data: seq<byte>, i: nat)
    requires |m| == MEMSIZE && |map'| == UMAP_MEMSIZE && i < |data| && Wrote(m, m', map', ba, data, i)
    requires !Mapped(map', ba + i)
    ensures Reach(map', ba, |data|) == i && m' == Stored(m, map', ba, data[..i])
  {
    assert !MappedAt(map', ba, i);
    ReachIs(map', ba, |data|, i);
  }

  lemma {:induction false} WroteAll(m: seq<word>, m': seq<word>, map': seq<entry>, ba: nat, data: seq<byte>)
    requires |m| == MEMSIZE && |map'| == UMAP_MEMSIZE && Wrote(m, m', map', ba, data, |data|)
    ensures Reach(map', ba, |data|) == |data| && m' == Stored(m, map', ba, data[..|data|])
  {
    ReachIs(map', ba, |data|, |data|);
  }

  lemma {:induction false} ReachIs(map': seq<entry>, ba: nat, n: nat, i: nat)
    requires |map'| == UMAP_MEMSIZE && i <= n && AllMapped(map', ba, i) && (i < n ==> !MappedAt(map', ba, i))
    ensures Reach(map', ba, n) == i
  {
  }

  /** The first `i` bytes are fetched. */
  ghost predicate GotSoFar(m: seq<word>, map': seq<entry>, ba: nat, data: seq<byte>, i: nat)
    requires |m| == MEMSIZE && |map'| == UMAP_MEMSIZE
  {
    AllMapped(map', ba, i) && data == Fetched(m, map', ba, i)
  }

  lemma {:induction false} GotNone(m: seq<word>, map': seq<entry>, ba: nat)
    requires |m| == MEMSIZE && |map'| == UMAP_MEMSIZE
    ensures GotSoFar(m, map', ba, [], 0)
  {
  }

  lemma {:induction false} GotOne(m: seq<word>, map': seq<entry>, ba: nat, data: seq<byte>, i: nat, b: byte)
    requires |m| == MEMSIZE && |map'| == UMAP_MEMSIZE && GotSoFar(m, map', ba, data, i)
    requires Mapped(map', ba + i) && b == ByteAt(m, map', ba + i)
    ensures GotSoFar(m, map', ba, data + [b], i + 1)
  {
    assert MappedAt(map', ba, i);
    hide Mapped, ByteAt;
  }

  lemma {:induction false} GotSome(m: seq<word>, map': seq<entry>, ba: nat, data: seq<byte>, i: nat, n: nat)
    requires |m| == MEMSIZE && |map'| == UMAP_MEMSIZE && i < n && GotSoFar(m, map', ba, data, i)
    requires !Mapped(map', ba + i)
    ensures Reach(map', ba, n) == i && data == Fetched(m, map', ba, i)
  {
    assert !MappedAt(map', ba, i);
    ReachIs(map', ba, n, i);
  }

  lemma {:induction false} GotAll(m: seq<word>, map': seq<entry>, ba: nat, data: seq<byte>, n: nat)
    requires |m| == MEMSIZE && |map'| == UMAP_MEMSIZE && GotSoFar(m, map', ba, data, n)
    ensures Reach(map', ba, n) == n && data == Fetched(m, map', ba, n)
  {
    ReachIs(map', ba, n, n);
  }

  /** The adapter of the disk, tape and network devices. */
  class Adapter {
    const M: array<word>
    var ubmap: seq<entry>

    ghost predicate Valid()
      reads this`ubmap
    {
      M.Length == MEMSIZE && |ubmap| == UMAP_MEMSIZE
    }

    constructor (m: array<word>)
      requires m.Length == MEMSIZE
      ensures Valid() && M == m && forall i :: 0 <= i < UMAP_MEMSIZE ==> ubmap[i] == 0
    {
      M, ubmap := m, seq(UMAP_MEMSIZE, i => 0);
    }

    /** Writing the map from the KS10: flags and page number change their places. */
    method WriteMap(pa: nat, val: word)
      requires Valid()
      modifies this`ubmap
      ensures Valid() && forall i :: 0 <= i < 64 && i != pa % 64 ==> ubmap[i] == old(ubmap)[i]
      ensures ubmap[pa % 64] % 0x10_0000 == val % 2048 * 512
      ensures (ubmap[pa % 64] as int) / 0x800_0000 == val / 0x4000 % 16
    {
      ubmap := ubmap[pa % UMAP_MEMSIZE := val / 0x4000 % 16 * UMAP_VLD + val % 2048 * 512];
    }

    /** unibus_read; the memory has every physical address. */
    method UnibusRead(addr: nat) returns (ok: bool, data: nat)
      requires Valid()
      ensures ok <==> Mapped(ubmap, addr)
      ensures ok ==> data == Half(M[Place(ubmap, addr)], RightHalf(addr)) % 0x1_0000
      ensures ok <==> addr / 2048 % 512 < 64 && addr / 0x2_0000 % 2 == 0 && (ubmap[addr / 2048 % 512] as int) / 0x800_0000 % 2 == 1
      ensures ok ==> var w := M[(ubmap[addr / 2048 % 512] + addr / 4 % 512) % 0x10_0000];
        data == (if addr / 2 % 2 == 1 then w else w / W18) % 0x1_0000
    {
      hide Vpn, Offset, Half, RightHalf;
      InNumbers(ubmap, addr);
      var vpn := Vpn(addr);
      if vpn >= UMAP_MEMSIZE || addr / 0x2_0000 % 2 == 1 || ubmap[vpn] / UMAP_VLD % 2 == 0 {
        return false, 0;
      }
      var pa10 := Place(ubmap, addr);
      LowBits(M[pa10], RightHalf(addr));
      return true, Half(M[pa10], RightHalf(addr)) % 0x1_0000;
    }

    /** unibus_write */
    method UnibusWrite(data: nat, addr: nat) returns (ok: bool)
      requires Valid()
      modifies M
      ensures ok <==> Mapped(ubmap, addr)
      ensures !ok ==> M[..] == old(M[..])
      ensures ok ==> var pa := Place(ubmap, addr);
        M[..] == old(M[..])[pa := PutHalf(old(M[pa]), RightHalf(addr), data % 0x1_0000)]
      ensures ok <==> addr / 2048 % 512 < 64 && addr / 0x2_0000 % 2 == 0 && (ubmap[addr / 2048 % 512] as int) / 0x800_0000 % 2 == 1
      ensures ok ==> var pa := (ubmap[addr / 2048 % 512] + addr / 4 % 512) % 0x10_0000;
        && (forall k :: 0 <= k < 0x10_0000 && k != pa ==> M[k] == old(M[..])[k])
        && M[pa] == if addr / 2 % 2 == 1 then old(M[..])[pa] / W18 * W18 + data % 0x1_0000
          else data % 0x1_0000 * W18 + old(M[..])[pa] % W18
    {
      hide Vpn, Offset, Half, RightHalf;
      InNumbers(ubmap, addr);
      var vpn := Vpn(addr);
      if vpn >= UMAP_MEMSIZE || addr / 0x2_0000 % 2 == 1 || ubmap[vpn] / UMAP_VLD % 2 == 0 {
        return false;
      }
      var pa10 := Place(ubmap, addr);
      M[pa10] := PutHalf(M[pa10], RightHalf(addr), data % 0x1_0000);
      return true;
    }

    /** The first byte, when its address is odd. */
    method WriteHigh(ba: nat, b: byte) returns (ok: bool)
      requires Valid() && ba % 2 == 1
      modifies M
      ensures ok <==> Mapped(ubmap, ba)
      ensures M[..] == if ok then SetByte(old(M[..]), ubmap, ba, b) else old(M[..])
    {
      hide Half, PutHalf, RightHalf, Mapped, Vpn, Offset, Spliced;
      Pair(ubmap, ba - 1);
      var r, wd := UnibusRead(ba - 1);
      if !r {
        return false;
      }
      SpliceHigh(wd, b);
      var n: int := b;
      wd := wd % 256 + n * 256;
      ok := UnibusWrite(wd, ba - 1);
    }

    /** The last byte, when its address is even. */
    method WriteLow(ba: nat, b: byte) returns (ok: bool)
      requires Valid() && ba % 2 == 0
      modifies M
      ensures ok <==> Mapped(ubmap, ba)
      ensures M[..] == if ok then SetByte(old(M[..]), ubmap, ba, b) else old(M[..])
    {
      hide Half, PutHalf, RightHalf, Mapped, Place, Vpn, Offset, Spliced;
      var r, wd := UnibusRead(ba);
      if !r {
        return false;
      }
      SpliceLow(wd, b);
      var n: int := b;
      wd := wd / 256 * 256 + n;
      ok := UnibusWrite(wd, ba);
    }

    /** Two bytes at an even address. */
    method WritePair(ba: nat, b0: byte, b1: byte) returns (ok: bool)
      requires Valid() && ba % 2 == 0
      modifies M
      ensures Mapped(ubmap, ba + 1) == Mapped(ubmap, ba)
      ensures ok <==> Mapped(ubmap, ba)
      ensures M[..] == if ok then SetByte(SetByte(old(M[..]), ubmap, ba, b0), ubmap, ba + 1, b1) else old(M[..])
    {
      hide PutHalf, SetByte, RightHalf, Mapped, Place, Vpn, Offset;
      Pair(ubmap, ba);
      ghost var m := M[..];
      var n0: int, n1: int := b0, b1;
      var wd := n0 + n1 * 256;
      assert wd % 0x1_0000 == wd && wd % 256 == b0 && wd / 256 == b1;
      ok := UnibusWrite(wd, ba);
      if ok {
        PutPair(m, ubmap, ba, b0, b1, wd);
      }
    }

    /** The parts of dma_write: each stores its bytes, or finds an address that is not mapped. */
    method FirstByte(ghost m: seq<word>, ba0: nat, data: seq<byte>) returns (ok: bool)
      requires Valid() && data != [] && !Even(ba0) && m == M[..]
      modifies M
      ensures Outcome(m, M[..], ubmap, ba0, data, if ok then 1 else 0, ok)
    {
      hide Wrote, Stored, SetByte, Mapped, Reach, AllMapped, MappedAt;
      WroteNone(m, ubmap, ba0, data);
      ok := WriteHigh(ba0, data[0]);
      if ok {
        WroteOne(m, m, M[..], ubmap, ba0, data, 0);
      } else {
        WroteSome(m, M[..], ubmap, ba0, data, 0);
      }
    }

    method TwoBytes(ghost m: seq<word>, ba0: nat, data: seq<byte>, i: nat) returns (ok: bool)
      requires Valid() && i + 1 < |data| && Even(ba0 + i) && |m| == MEMSIZE && Wrote(m, M[..], ubmap, ba0, data, i)
      modifies M
      ensures Outcome(m, M[..], ubmap, ba0, data, if ok then i + 2 else i, ok)
    {
      ghost var was := M[..];
      hide Wrote, Stored, SetByte, Mapped, Reach, AllMapped, MappedAt;
      ok := WritePair(ba0 + i, data[i], data[i + 1]);
      if ok {
        WroteTwo(m, was, M[..], ubmap, ba0, data, i);
      } else {
        WroteSome(m, M[..], ubmap, ba0, data, i);
      }
    }

    method LastByte(ghost m: seq<word>, ba0: nat, data: seq<byte>, i: nat) returns (ok: bool)
      requires Valid() && i < |data| && Even(ba0 + i) && |m| == MEMSIZE && Wrote(m, M[..], ubmap, ba0, data, i)
      modifies M
      ensures Outcome(m, M[..], ubmap, ba0, data, if ok then i + 1 else i, ok)
    {
      ghost var was := M[..];
      hide Wrote, Stored, SetByte, Mapped, Reach, AllMapped, MappedAt;
      ok := WriteLow(ba0 + i, data[i]);
      if ok {
        WroteOne(m, was, M[..], ubmap, ba0, data, i);
      } else {
        WroteSome(m, M[..], ubmap, ba0, data, i);
      }
    }

    /** dma_write: the bytes before the first address that is not mapped are stored. */
    method DmaWrite(ba0: nat, data: seq<byte>) returns (ok: bool)
      requires Valid()
      modifies M
      ensures ok <==> Reach(ubmap, ba0, |data|) == |data|
      ensures M[..] == Stored(old(M[..]), ubmap, ba0, data[..Reach(ubmap, ba0, |data|)])
    {
      hide Wrote, Stored, Reach, AllMapped, Even;
      ghost var m := M[..];
      var i := 0;
      WroteNone(m, ubmap, ba0, data);
      NextEven(ba0);
      if i < |data| && !Even(ba0) {
        ok := FirstByte(m, ba0, data);
        if !ok {
          return;
        }
        i := i + 1;
      }
      while |data| - i >= 2
        invariant 0 <= i <= |data| && (i < |data| ==> Even(ba0 + i))
        invariant Wrote(m, M[..], ubmap, ba0, data, i)
      {
        NextEven(ba0 + i);
        ok := TwoBytes(m, ba0, data, i);
        if !ok {
          return;
        }
        i := i + 2;
      }
      if |data| - i == 1 {
        ok := LastByte(m, ba0, data, i);
        if !ok {
          return;
        }
        i := i + 1;
      }
      WroteAll(m, M[..], ubmap, ba0, data);
      return true;
    }

    /** The high byte of the 16 bits at an odd address. */
    method ReadHigh(ba: nat) returns (ok: bool, b: byte)
      requires Valid() && !Even(ba)
      ensures ok <==> Mapped(ubmap, ba)
      ensures ok ==> b == ByteAt(M[..], ubmap, ba)
    {
      hide Half, RightHalf, Mapped, Vpn, Offset;
      Pair(ubmap, ba - 1);
      var r, wd := UnibusRead(ba - 1);
      return r, wd / 256 % 256;
    }

    /** Both bytes of the 16 bits at an even address. */
    method ReadPair(ba: nat) returns (ok: bool, b0: byte, b1: byte)
      requires Valid() && Even(ba)
      ensures Mapped(ubmap, ba + 1) == Mapped(ubmap, ba) && (ok <==> Mapped(ubmap, ba))
      ensures ok ==> b0 == ByteAt(M[..], ubmap, ba) && b1 == ByteAt(M[..], ubmap, ba + 1)
    {
      hide Half, RightHalf, Mapped, Vpn, Offset;
      Pair(ubmap, ba);
      var r, wd := UnibusRead(ba);
      return r, wd % 256, wd / 256 % 256;
    }

    /** dma_read: the bytes before the first address that is not mapped are stored at `data`. It
        takes a length of zero at an odd address for one. */
    method DmaRead(ba0: nat, length: nat) returns (ok: bool, data: seq<byte>)
      requires Valid()
      ensures var n := if length == 0 && !Even(ba0) then 1 else length;
        (ok <==> Reach(ubmap, ba0, n) == n) && data == Fetched(M[..], ubmap, ba0, Reach(ubmap, ba0, n))
    {
      hide GotSoFar, Fetched, Reach, AllMapped, Even, Mapped, ByteAt;
      ghost var n := if length == 0 && !Even(ba0) then 1 else length;
      data := [];
      var i := 0;
      NextEven(ba0);
      GotNone(M[..], ubmap, ba0);
      if !Even(ba0) {
        var r, b := ReadHigh(ba0);
        if !r {
          GotSome(M[..], ubmap, ba0, data, 0, n);
          return false, data;
        }
        GotOne(M[..], ubmap, ba0, data, 0, b);
        data := data + [b];
        i := i + 1;
      }
      while length > i
        invariant 0 <= i <= n && |data| == i && (i < length ==> Even(ba0 + i)) && (i == n || i < length)
        invariant GotSoFar(M[..], ubmap, ba0, data, i)
      {
        var r, b0, b1 := ReadPair(ba0 + i);
        if !r {
          GotSome(M[..], ubmap, ba0, data, i, n);
          return false, data;
        }
        NextEven(ba0 + i);
        GotOne(M[..], ubmap, ba0, data, i, b0);
        data := data + [b0];
        i := i + 1;
        if length > i {
          GotOne(M[..], ubmap, ba0, data, i, b1);
          data := data + [b1];
          i := i + 1;
        }
      }
      GotAll(M[..], ubmap, ba0, data, n);
      return true, data;
    }

    /** A block written and then read back, at addresses all mapped to different memory pages. */
    method WriteThenRead(ba: nat, data: seq<byte>) returns (ok: bool, back: seq<byte>)
      requires Valid() && ba + |data| <= MEMSIZE && data != []
      requires AllMapped(ubmap, ba, |data|) && Separate(ubmap, ba, |data|)
      modifies M
      ensures ok && back == data
    {
      hide Stored, Fetched, AllMapped, Separate, Reach;
      ghost var m := M[..];
      RoundTrip(m, ubmap, ba, data);
      ReachIs(ubmap, ba, |data|, |data|);
      assert data[..|data|] == data;
      ok := DmaWrite(ba, data);
      ok, back := DmaRead(ba, |data|);
    }
  }
}
