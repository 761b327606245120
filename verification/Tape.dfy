/** The files on a BACKUP tape: how bytes are put into 36-bit words and words into records
    (backwr.c), and how they are taken out again (backup.c). */
module Tape {
  import opened Bytes
  import opened Common
  import opened Words

  const BLOCK := 2560
  const HEADER := 32
  const DATA := 512
  const RECORD := 544
  const NAMES := 256

  predicate SevenBit(bs: seq<byte>) {
    forall i :: 0 <= i < |bs| ==> bs[i] < 128
  }

  // ---------------------------------------------------------------- characters in a word

  /** Five characters of seven bits, from the left; the eighth bit of the last goes to bit 35. */
  function PackChars(b0: byte, b1: byte, b2: byte, b3: byte, b4: byte): (w: int)
    ensures 0 <= w < W36
  {
    b0 % 128 * 0x2000_0000 + b1 % 128 * 0x40_0000 + b2 % 128 * 0x8000 + b3 % 128 * 0x100 + b4 % 128 * 2 + b4 / 128
  }

  /** pars_5chars, on the halves of a word. */
  function Chars(l: int, r: int): (bs: seq<byte>)
    ensures |bs| == 5
  {
    [l / 2048 % 128, l / 16 % 128, (l * 8 + r / 0x8000 % 16) % 128, r / 256 % 128, r / 2 % 128]
  }

  function WordChars(w: word): (bs: seq<byte>)
    ensures |bs| == 5
  {
    Chars(w / W18, w % W18)
  }

  lemma {:induction false} HalvesOf(l: int, r: int)
    requires 0 <= r < W18
    ensures (l * W18 + r) / W18 == l && (l * W18 + r) % W18 == r
  {
  }

  lemma {:induction false} LeftChars(b0: int, b1: int, t: int)
    requires 0 <= b0 < 128 && 0 <= b1 < 128 && 0 <= t < 16
    ensures var l := b0 * 2048 + b1 * 16 + t;
      l / 2048 % 128 == b0 && l / 16 % 128 == b1 && l * 8 % 128 == t * 8
  {
    var l := b0 * 2048 + b1 * 16 + t;
    assert l / 16 == b0 * 128 + b1;
    assert l / 2048 == b0;
    assert l * 8 == 128 * (b0 * 128 + b1) + t * 8;
  }

  lemma {:induction false} RightChars(t: int, b3: int, b4: int, e: int)
    requires 0 <= t < 8 && 0 <= b3 < 128 && 0 <= b4 < 128 && 0 <= e < 2
    ensures var r := t * 0x8000 + b3 * 0x100 + b4 * 2 + e;
      0 <= r < W18 && r / 0x8000 % 16 == t && r / 256 % 128 == b3 && r / 2 % 128 == b4
  {
    var r := t * 0x8000 + b3 * 0x100 + b4 * 2 + e;
    assert r / 2 == 128 * (t * 128 + b3) + b4;
    assert r / 256 == 128 * t + b3;
    assert r / 0x8000 == t;
  }

  lemma {:induction false} MiddleChar(b2: int, l: int)
    requires 0 <= b2 < 128 && l * 8 % 128 == b2 / 8 * 8
    ensures (l * 8 + b2 % 8) % 128 == b2
  {
  }

  /** The characters that are left of bytes: the eighth bit of each is lost. */
  function Masked(bs: seq<byte>): (r: seq<byte>)
    ensures |r| == |bs| && SevenBit(r)
  {
    seq(|bs|, i requires 0 <= i < |bs| => bs[i] % 128)
  }

  lemma {:induction false} MaskedSame(bs: seq<byte>)
    ensures Masked(bs) == bs <==> SevenBit(bs)
  {
    if Masked(bs) != bs {
      assert exists i | 0 <= i < |bs| :: Masked(bs)[i] != bs[i];
    }
  }

  lemma {:induction false} MaskedAppend(a: seq<byte>, b: seq<byte>)
    ensures Masked(a + b) == Masked(a) + Masked(b)
  {
  }

  /** The halves of a word of five characters and the bit behind them. */
  lemma {:induction false} PackedHalves(b0: int, b1: int, b2: int, b3: int, b4: int, e: int)
    requires 0 <= b0 < 128 && 0 <= b1 < 128 && 0 <= b2 < 128 && 0 <= b3 < 128 && 0 <= b4 < 128 && 0 <= e < 2
    ensures var w := b0 * 0x2000_0000 + b1 * 0x40_0000 + b2 * 0x8000 + b3 * 0x100 + b4 * 2 + e;
      && w / W18 == b0 * 2048 + b1 * 16 + b2 / 8
      && w % W18 == b2 % 8 * 0x8000 + b3 * 0x100 + b4 * 2 + e
  {
    var t, u := b2 / 8, b2 % 8;
    RightChars(u, b3, b4, e);
    HalvesOf(b0 * 2048 + b1 * 16 + t, u * 0x8000 + b3 * 0x100 + b4 * 2 + e);
  }

  lemma {:induction false} SevenBack(b0: int, b1: int, b2: int, b3: int, b4: int, e: int)
    requires 0 <= b0 < 128 && 0 <= b1 < 128 && 0 <= b2 < 128 && 0 <= b3 < 128 && 0 <= b4 < 128 && 0 <= e < 2
    ensures var w := b0 * 0x2000_0000 + b1 * 0x40_0000 + b2 * 0x8000 + b3 * 0x100 + b4 * 2 + e;
      Chars(w / W18, w % W18) == [b0, b1, b2, b3, b4]
  {
    hide *;
    PackedHalves(b0, b1, b2, b3, b4, e);
    var l := b0 * 2048 + b1 * 16 + b2 / 8;
    LeftChars(b0, b1, b2 / 8);
    RightChars(b2 % 8, b3, b4, e);
    MiddleChar(b2, l);
    CharsFrom(l, b2 % 8 * 0x8000 + b3 * 0x100 + b4 * 2 + e, b0, b1, b2, b3, b4);
  }

  lemma {:induction false} Eighth(b: byte)
    ensures 0 <= b % 128 < 128 && 0 <= b / 128 < 2
  {
  }

  /** Five characters come back without their eighth bits. */
  lemma {:induction false} CharsBack(b0: byte, b1: byte, b2: byte, b3: byte, b4: byte)
    ensures WordChars(PackChars(b0, b1, b2, b3, b4)) == [b0 % 128, b1 % 128, b2 % 128, b3 % 128, b4 % 128]
  {
    hide Chars;
    Eighth(b4);
    SevenBack(b0 % 128, b1 % 128, b2 % 128, b3 % 128, b4 % 128, b4 / 128);
  }

  /** The last bit of the word is the eighth bit of the last character. */
  lemma {:induction false} LastBit(b0: byte, b1: byte, b2: byte, b3: byte, b4: byte)
    ensures PackChars(b0, b1, b2, b3, b4) % 2 == 1 <==> b4 >= 128
  {
    var k := b0 % 128 * 0x1000_0000 + b1 % 128 * 0x20_0000 + b2 % 128 * 0x4000 + b3 % 128 * 0x80 + b4 % 128;
    DivModUnique(PackChars(b0, b1, b2, b3, b4), 2, k, b4 / 128);
  }

  lemma {:induction false} CharsFrom(l: int, r: int, b0: int, b1: int, b2: int, b3: int, b4: int)
    requires 0 <= b0 < 128 && 0 <= b1 < 128 && 0 <= b2 < 128 && 0 <= b3 < 128 && 0 <= b4 < 128
    requires l / 2048 % 128 == b0 && l / 16 % 128 == b1 && (l * 8 + b2 % 8) % 128 == b2
    requires r / 0x8000 % 16 == b2 % 8 && r / 256 % 128 == b3 && r / 2 % 128 == b4
    ensures Chars(l, r) == [b0, b1, b2, b3, b4]
  {
  }

  /** The words of some bytes, the last of them filled up with zeros. */
  function WordsOf(bs: seq<byte>): (ws: seq<word>)
    ensures |ws| == (|bs| + 4) / 5
  {
    if bs == [] then []
    else if |bs| < 5 then [FirstWord(bs)]
    else [FirstWord(bs)] + WordsOf(bs[5..])
  }

  function ByteAt(bs: seq<byte>, i: nat): byte {
    if i < |bs| then bs[i] else 0
  }

  function FirstWord(bs: seq<byte>): word {
    PackChars(ByteAt(bs, 0), ByteAt(bs, 1), ByteAt(bs, 2), ByteAt(bs, 3), ByteAt(bs, 4))
  }

  function CharsOf(ws: seq<word>): (bs: seq<byte>)
    ensures |bs| == 5 * |ws|
  {
    if ws == [] then [] else WordChars(ws[0]) + CharsOf(ws[1..])
  }

  function Zeros(n: nat): (z: seq<byte>)
    ensures |z| == n && forall i :: 0 <= i < n ==> z[i] == 0
  {
    seq(n, i => 0)
  }

  /** The number of zeros in the last word. */
  function Padding(n: nat): (p: nat)
    ensures p < 5 && (n + p) % 5 == 0
  {
    if n % 5 == 0 then 0 else 5 - n % 5
  }

  lemma {:induction false} FirstWordBack(bs: seq<byte>)
    ensures WordChars(FirstWord(bs)) == if |bs| < 5 then Masked(bs) + Zeros(5 - |bs|) else Masked(bs[..5])
  {
    hide WordChars, PackChars;
    CharsBack(ByteAt(bs, 0), ByteAt(bs, 1), ByteAt(bs, 2), ByteAt(bs, 3), ByteAt(bs, 4));
    var x := [ByteAt(bs, 0) % 128, ByteAt(bs, 1) % 128, ByteAt(bs, 2) % 128, ByteAt(bs, 3) % 128, ByteAt(bs, 4) % 128];
    if |bs| < 5 {
      assert x == Masked(bs) + Zeros(5 - |bs|);
    } else {
      assert x == Masked(bs[..5]);
    }
  }

  lemma {:induction false} PaddingSmall(n: nat)
    requires 0 < n < 5
    ensures Padding(n) == 5 - n
  {
  }

  lemma {:induction false} PaddingStep(n: nat)
    ensures Padding(n + 5) == Padding(n) && Padding(0) == 0
  {
  }

  lemma {:induction false} ShortBack(bs: seq<byte>)
    requires 0 < |bs| < 5
    ensures CharsOf(WordsOf(bs)) == Masked(bs) + Zeros(Padding(|bs|))
  {
    FirstWordBack(bs);
    var w := FirstWord(bs);
    PaddingSmall(|bs|);
    assert WordsOf(bs) == [w];
    hide WordChars, FirstWord, WordsOf, Zeros, Padding, Masked;
    assert CharsOf([w]) == WordChars(w) + CharsOf([]);
  }

  /** Packing and unpacking take the eighth bits and add the zeros, and nothing else. */
  lemma {:induction false} CharsOfWords(bs: seq<byte>)
    ensures CharsOf(WordsOf(bs)) == Masked(bs) + Zeros(Padding(|bs|))
  {
    if bs == [] {
      PaddingStep(0);
      assert Zeros(0) == [] && Masked(bs) == [];
    } else if |bs| < 5 {
      ShortBack(bs);
    } else {
      var rest := bs[5..];
      CharsOfWords(rest);
      PaddingStep(|rest|);
      WordsCons(bs);
      FirstWordBack(bs);
      hide WordChars, FirstWord, WordsOf, CharsOf, Zeros, Padding, Masked;
      assert bs == bs[..5] + rest;
      MaskedAppend(bs[..5], rest);
      Associate(Masked(bs[..5]), Masked(rest), Zeros(Padding(|bs|)));
    }
  }

  lemma {:induction false} WordsCons(bs: seq<byte>)
    requires |bs| >= 5
    ensures CharsOf(WordsOf(bs)) == WordChars(FirstWord(bs)) + CharsOf(WordsOf(bs[5..]))
  {
    var ws := WordsOf(bs);
    assert ws[0] == FirstWord(bs) && ws[1..] == WordsOf(bs[5..]);
    hide WordChars, FirstWord;
  }

  // ---------------------------------------------------------------- bytes on the tape

  function PackWord(w: word): (bs: seq<byte>)
    ensures |bs| == 5
  {
    [w / 0x1000_0000 % 256, w / 0x10_0000 % 256, w / 0x1000 % 256, w / 16 % 256, w % 16]
  }

  /** The halves of a word, from its five bytes. */
  function Left(b0: int, b1: int, b2: int): int {
    b0 * 1024 + b1 * 4 + b2 / 64
  }

  function Right(b2: int, b3: int, b4: int): int {
    b2 % 64 * 4096 + b3 * 16 + b4 % 16
  }

  lemma {:induction false} LowByte(k: int, d: int)
    requires 0 <= d < 256
    ensures (256 * k + d) % 256 == d && (256 * k + d) / 256 == k
  {
  }

  lemma {:induction false} Quotients(w: int, a: int, b: int, c: int, d: int, e: int)
    requires 0 <= b < 256 && 0 <= c < 256 && 0 <= d < 256 && 0 <= e < 16
    requires w == a * 0x1000_0000 + b * 0x10_0000 + c * 0x1000 + d * 16 + e
    ensures w / 16 == a * 0x100_0000 + b * 0x1_0000 + c * 0x100 + d && w % 16 == e
    ensures w / 0x1000 == a * 0x1_0000 + b * 0x100 + c
    ensures w / 0x10_0000 == a * 0x100 + b && w / 0x1000_0000 == a
  {
  }

  lemma {:induction false} BytesOf(w: word, a: int, b: int, c: int, d: int, e: int)
    requires 0 <= a < 256 && 0 <= b < 256 && 0 <= c < 256 && 0 <= d < 256 && 0 <= e < 16
    requires w == a * 0x1000_0000 + b * 0x10_0000 + c * 0x1000 + d * 16 + e
    ensures PackWord(w) == [a, b, c, d, e]
  {
    Quotients(w, a, b, c, d, e);
    LowByte(0, a);
    LowByte(a, b);
    LowByte(a * 256 + b, c);
    LowByte(a * 0x1_0000 + b * 0x100 + c, d);
  }

  lemma {:induction false} Spread(w: word) returns (a: int, b: int, c: int, d: int, e: int)
    ensures 0 <= a < 256 && 0 <= b < 256 && 0 <= c < 256 && 0 <= d < 256 && 0 <= e < 16
    ensures w == a * 0x1000_0000 + b * 0x10_0000 + c * 0x1000 + d * 16 + e
  {
    e := w % 16;
    var x := w / 16;
    d := x % 256;
    var y := x / 256;
    c := y % 256;
    var z := y / 256;
    b := z % 256;
    a := z / 256;
  }

  lemma {:induction false} HalvesBack(w: word, a: int, b: int, c: int, d: int, e: int)
    requires 0 <= c < 256 && 0 <= d < 256 && 0 <= e < 16
    requires w == a * 0x1000_0000 + b * 0x10_0000 + c * 0x1000 + d * 16 + e
    ensures Left(a, b, c) == w / W18 && Right(c, d, e) == w % W18
  {
    var l, r := Left(a, b, c), Right(c, d, e);
    assert w == l * W18 + r && 0 <= r < W18;
    hide Left, Right;
    HalvesOf(l, r);
  }

  /** unpackheader and unpackdata read what writetape wrote. */
  lemma {:induction false} WordBack(w: word)
    ensures var b := PackWord(w); Left(b[0], b[1], b[2]) == w / W18 && Right(b[2], b[3], b[4]) == w % W18
  {
    var a, b, c, d, e := Spread(w);
    hide PackWord, Left, Right;
    BytesOf(w, a, b, c, d, e);
    HalvesBack(w, a, b, c, d, e);
  }

  // ---------------------------------------------------------------- records of a file

  /** What a record says of itself, and its 512 words of data. The file's own data are the `size`
      words from `lnd` on. */
  datatype Record = Record(sof: bool, eof: bool, lnd: nat, size: nat, data: seq<word>) {
    predicate Valid() {
      |data| == DATA && lnd + size <= DATA
    }

    function Words(): (ws: seq<word>)
      requires Valid()
      ensures |ws| == size
    {
      data[lnd..lnd + size]
    }
  }

  function Blank(n: nat): (z: seq<word>)
    ensures |z| == n
  {
    seq(n, i => 0)
  }

  /** The data area with some words at its start. */
  function Area(ws: seq<word>): (d: seq<word>)
    requires |ws| <= DATA
    ensures |d| == DATA
  {
    ws + Blank(DATA - |ws|)
  }

  function Chunk(s: seq<byte>): (c: seq<byte>)
    ensures |c| <= BLOCK && (s != [] ==> c != [])
  {
    if |s| <= BLOCK then s else s[..BLOCK]
  }

  function After(s: seq<byte>): (rest: seq<byte>)
    ensures s != [] ==> |rest| < |s|
  {
    s[|Chunk(s)|..]
  }

  function DataRecord(s: seq<byte>): (r: Record)
    ensures r.Valid()
  {
    var c := Chunk(s);
    Record(false, After(s) == [], 0, (|c| + 4) / 5, Area(WordsOf(c)))
  }

  /** The records after the first, 2560 bytes each. */
  function DataRecords(s: seq<byte>): (rs: seq<Record>)
    requires s != []
    decreases |s|
  {
    [DataRecord(s)] + if After(s) == [] then [] else DataRecords(After(s))
  }

  /** The records that wr_file makes of a file. With less than half a block of data, all goes
      into the first record, behind the names and attributes. The end of the file is marked
      there for up to half a block. */
  function FileRecords(s: seq<byte>, names: seq<word>): (rs: seq<Record>)
    requires |names| == NAMES
  {
    if |s| < BLOCK / 2 then
      [Record(true, true, NAMES, (|s| + 4) / 5, Area(names + WordsOf(s)))]
    else
      [Record(true, |s| == BLOCK / 2, NAMES, 0, Area(names))] + DataRecords(s)
  }

  /** A data record has the first 2560 bytes, or all there are; then it says that it is the last. */
  lemma {:induction false} RecordLayout(s: seq<byte>)
    requires s != []
    ensures
      var r, c := DataRecord(s), if |s| <= 2560 then s else s[..2560];
      && !r.sof && (r.eof <==> |s| <= 2560) && r.lnd == 0 && r.size == (|c| + 4) / 5 <= 512
      && r.data == WordsOf(c) + Blank(512 - r.size)
  {
    hide WordsOf;
  }

  /** There is a data record for each 2560 bytes, and one for what is left. */
  lemma {:induction false} DataLayout(s: seq<byte>, i: nat)
    requires s != [] && 2560 * i < |s|
    ensures |DataRecords(s)| == (|s| + 2559) / 2560 > i
    ensures DataRecords(s)[i] == DataRecord(s[2560 * i..])
    decreases |s|
  {
    var rest := After(s);
    hide DataRecord;
    if rest != [] {
      assert rest == s[2560..];
      DataLayout(rest, if i > 0 then i - 1 else 0);
      assert i > 0 ==> rest[2560 * (i - 1)..] == s[2560 * i..];
    }
    assert i == 0 ==> s[2560 * i..] == s;
  }

  /** All of a small file is in its first record, behind the names; a larger one has data records,
      and its first record is marked as the last if it is just half a block. */
  lemma {:induction false} FileLayout(s: seq<byte>, names: seq<word>)
    requires |names| == NAMES
    ensures
      var rs := FileRecords(s, names);
      && rs != [] && rs[0].Valid() && rs[0].sof && (rs[0].eof <==> |s| <= 1280) && rs[0].lnd == 256
      && (|s| < 1280 ==> |rs| == 1 && rs[0].size == (|s| + 4) / 5 && rs[0].data == names + WordsOf(s) + Blank(256 - rs[0].size))
      && (|s| >= 1280 ==> rs[1..] == DataRecords(s) && rs[0].size == 0 && rs[0].data == names + Blank(256))
  {
    hide WordsOf, DataRecords;
  }

  /** What writebuffer drops at the end of a file: up to four zeros. */
  function Strip(bs: seq<byte>, n: nat): (r: seq<byte>)
    ensures |r| <= |bs|
    decreases n
  {
    if n == 0 || bs == [] then bs
    else Strip(if bs[|bs| - 1] == 0 then bs[..|bs| - 1] else bs, n - 1)
  }

  /** What doextract makes of the records of a file, up to the one that ends it. A last record
      without data has no last byte to look at. */
  function Extracted(rs: seq<Record>): Option<seq<byte>>
    requires forall r :: r in rs ==> r.Valid()
  {
    if rs == [] then None
    else
      var d := CharsOf(rs[0].Words());
      if rs[0].eof then (if d == [] then None else Some(Strip(d, 4)))
      else
        match Extracted(rs[1..])
        case None => None
        case Some(rest) => Some(d + rest)
  }

  // ---------------------------------------------------------------- the round trip

  lemma {:induction false} StripNothing(bs: seq<byte>, n: nat)
    requires bs != [] && bs[|bs| - 1] != 0
    ensures Strip(bs, n) == bs
    decreases n
  {
    if n > 0 {
      StripNothing(bs, n - 1);
    }
  }

  lemma {:induction false} StripZeros(bs: seq<byte>, p: nat, n: nat)
    requires p <= n
    ensures Strip(bs + Zeros(p), n) == Strip(bs, n - p)
    decreases p
  {
    if p > 0 {
      var z := bs + Zeros(p);
      assert z[..|z| - 1] == bs + Zeros(p - 1);
      StripZeros(bs, p - 1, n - 1);
    } else {
      assert bs + Zeros(0) == bs;
    }
  }

  /** Stripping gives back exactly what was padded when that ends in another byte, or when there
      are no more zeros to take. */
  lemma {:induction false} StripPadding(bs: seq<byte>, p: nat)
    requires bs != [] && p <= 4
    ensures Strip(bs + Zeros(p), 4) == bs <==> bs[|bs| - 1] != 0 || p == 4
  {
    StripZeros(bs, p, 4);
    if bs[|bs| - 1] != 0 {
      StripNothing(bs, 4 - p);
    } else if p < 4 {
      assert |Strip(bs, 4 - p)| < |bs|;
    }
  }

  /** The last byte is not stripped. */
  predicate EndsWell(s: seq<byte>) {
    s != [] && (s[|s| - 1] % 128 != 0 || |s| % 5 == 1)
  }

  /** What a caller can check of a file before it is saved. */
  predicate Restorable(s: seq<byte>) {
    EndsWell(s) && |s| != BLOCK / 2
  }

  lemma {:induction false} AreaWords(ws: seq<word>, lnd: nat)
    requires lnd <= |ws| <= DATA
    ensures Area(ws)[lnd..|ws|] == ws[lnd..]
  {
  }

  lemma {:induction false} PaddingFour(n: nat)
    ensures Padding(n) == 4 <==> n % 5 == 1
  {
  }

  /** The last record of a file. */
  lemma {:induction false} LastRecord(r: Record, c: seq<byte>)
    requires r.Valid() && r.eof && c != [] && r.Words() == WordsOf(c)
    ensures Extracted([r]).Some?
    ensures Extracted([r]) == Some(Masked(c)) <==> EndsWell(c)
  {
    CharsOfWords(c);
    StripPadding(Masked(c), Padding(|c|));
    PaddingFour(|c|);
    hide Strip, Padding, CharsOf, WordsOf;
  }

  lemma {:induction false} DataRecordsValid(s: seq<byte>)
    requires s != []
    ensures forall r :: r in DataRecords(s) ==> r.Valid()
    decreases |s|
  {
    if After(s) != [] {
      DataRecordsValid(After(s));
    }
    hide DataRecord, After;
  }

  lemma {:induction false} OneRecord(s: seq<byte>)
    ensures s == Chunk(s) + After(s)
    ensures DataRecord(s).Words() == WordsOf(Chunk(s)) && DataRecord(s).eof == (After(s) == [])
    ensures After(s) != [] ==> |Chunk(s)| == BLOCK
    ensures After(s) != [] ==> (EndsWell(s) <==> EndsWell(After(s)))
  {
    AreaWords(WordsOf(Chunk(s)), 0);
    assert DataRecord(s).Words() == WordsOf(Chunk(s)) && DataRecord(s).eof == (After(s) == []);
    hide WordsOf, Area, DataRecord;
    if After(s) != [] {
      SameRemainder(|After(s)|);
    }
  }

  lemma {:induction false} SameRemainder(n: nat)
    ensures (n + BLOCK) % 5 == n % 5
  {
  }

  lemma {:induction false} MoreRecords(r: Record, rs: seq<Record>)
    requires r.Valid() && !r.eof && forall x :: x in rs ==> x.Valid()
    ensures forall x :: x in [r] + rs ==> x.Valid()
    ensures Extracted([r] + rs) == match Extracted(rs) case None => None case Some(v) => Some(CharsOf(r.Words()) + v)
  {
    assert ([r] + rs)[1..] == rs && ([r] + rs)[0] == r;
    hide CharsOf;
  }

  lemma {:induction false} SameRest(c: seq<byte>, a: seq<byte>, b: seq<byte>)
    ensures c + a == c + b <==> a == b
  {
    if c + a == c + b {
      assert (c + a)[|c|..] == a && (c + b)[|c|..] == b;
    }
  }

  lemma {:induction false} DataRoundTrip(s: seq<byte>)
    requires s != []
    ensures forall r :: r in DataRecords(s) ==> r.Valid()
    ensures Extracted(DataRecords(s)).Some?
    ensures Extracted(DataRecords(s)) == Some(Masked(s)) <==> EndsWell(s)
    decreases |s|
  {
    DataRecordsValid(s);
    OneRecord(s);
    var c, rest, r := Chunk(s), After(s), DataRecord(s);
    hide Chunk, After, DataRecord, CharsOf, WordsOf, EndsWell, Masked;
    if rest == [] {
      assert s == c && DataRecords(s) == [r];
      LastRecord(r, c);
    } else {
      FullChunk(c);
      MaskedAppend(c, rest);
      assert DataRecords(s) == [r] + DataRecords(rest);
      DataRoundTrip(rest);
      hide DataRecords, Extracted;
      MoreRecords(r, DataRecords(rest));
      SameRest(Masked(c), Extracted(DataRecords(rest)).value, Masked(rest));
    }
  }

  lemma {:induction false} NoPadding(k: nat)
    ensures Padding(5 * k) == 0
  {
  }

  lemma {:induction false} FullChunk(c: seq<byte>)
    requires |c| == BLOCK
    ensures CharsOf(WordsOf(c)) == Masked(c)
  {
    hide CharsOf, WordsOf, Padding;
    CharsOfWords(c);
    NoPadding(512);
    assert Masked(c) + Zeros(0) == Masked(c);
  }

  /** A file comes back without its eighth bits exactly when it is restorable. */
  lemma {:induction false} CharsRoundTrip(s: seq<byte>, names: seq<word>)
    requires |names| == NAMES
    ensures forall r :: r in FileRecords(s, names) ==> r.Valid()
    ensures Extracted(FileRecords(s, names)) == Some(Masked(s)) <==> Restorable(s)
  {
    var rs := FileRecords(s, names);
    hide Masked;
    if |s| < BLOCK / 2 {
      AreaWords(names + WordsOf(s), NAMES);
      assert rs[0].Words() == WordsOf(s);
      if s != [] {
        LastRecord(rs[0], s);
      }
    } else {
      DataRoundTrip(s);
      var r := rs[0];
      assert r.Words() == [] && rs == [r] + DataRecords(s);
      assert r.eof ==> Extracted(rs) == None;
      hide DataRecords, Extracted;
      if !r.eof {
        MoreRecords(r, DataRecords(s));
        assert CharsOf([]) == [] && [] + Extracted(DataRecords(s)).value == Extracted(DataRecords(s)).value;
      }
    }
  }

  lemma {:induction false} CharsSevenBit(ws: seq<word>)
    ensures SevenBit(CharsOf(ws))
  {
    if ws != [] {
      CharsSevenBit(ws[1..]);
    }
  }

  lemma {:induction false} StripSevenBit(bs: seq<byte>, n: nat)
    requires SevenBit(bs)
    ensures SevenBit(Strip(bs, n))
    decreases n
  {
    if n > 0 && bs != [] {
      StripSevenBit(if bs[|bs| - 1] == 0 then bs[..|bs| - 1] else bs, n - 1);
    }
  }

  /** No eighth bit comes off the tape. */
  lemma {:induction false} ExtractedSevenBit(rs: seq<Record>)
    requires forall r :: r in rs ==> r.Valid()
    ensures Extracted(rs).Some? ==> SevenBit(Extracted(rs).value)
  {
    if rs != [] {
      var d := CharsOf(rs[0].Words());
      CharsSevenBit(rs[0].Words());
      StripSevenBit(d, 4);
      ExtractedSevenBit(rs[1..]);
      hide CharsOf, Strip;
    }
  }

  /** A file comes back as it was exactly when it is restorable and has no eighth bits. */
  lemma {:induction false} FileRoundTrip(s: seq<byte>, names: seq<word>)
    requires |names| == NAMES
    ensures forall r :: r in FileRecords(s, names) ==> r.Valid()
    ensures Extracted(FileRecords(s, names)) == Some(s) <==> Restorable(s) && SevenBit(s)
  {
    hide *;
    CharsRoundTrip(s, names);
    ExtractedSevenBit(FileRecords(s, names));
    MaskedSame(s);
  }

  // ---------------------------------------------------------------- line ends

  const LF: byte := 10
  const CR: byte := 13

  /** A file with every line feed made a carriage return and a line feed. */
  function Expand(s: seq<byte>): seq<byte> {
    if s == [] then [] else (if s[0] == LF then [CR, LF] else [s[0]]) + Expand(s[1..])
  }

  lemma {:induction false} ExpandAppend(a: seq<byte>, b: seq<byte>)
    ensures Expand(a + b) == Expand(a) + Expand(b)
  {
    if a == [] {
      assert a + b == b;
    } else {
      ExpandAppend(a[1..], b);
      assert (a + b)[1..] == a[1..] + b && (a + b)[0] == a[0];
      var h := if a[0] == LF then [CR, LF] else [a[0]];
      Associate(h, Expand(a[1..]), Expand(b));
    }
  }

  lemma {:induction false} ExpandOne(c: byte)
    ensures Expand([]) == [] && Expand([c]) == if c == 10 then [13, 10] else [c]
  {
    assert [c][1..] == [];
  }

  lemma {:induction false} ExpandSevenBit(s: seq<byte>)
    ensures SevenBit(Expand(s)) <==> SevenBit(s)
  {
    if s != [] {
      ExpandSevenBit(s[1..]);
      var h := if s[0] == LF then [CR, LF] else [s[0]];
      SevenBitAppend(h, Expand(s[1..]));
      SevenBitAppend([s[0]], s[1..]);
      assert [s[0]] + s[1..] == s;
    }
  }

  lemma {:induction false} SevenBitAppend(a: seq<byte>, b: seq<byte>)
    ensures SevenBit(a + b) <==> SevenBit(a) && SevenBit(b)
  {
    if SevenBit(a + b) {
      assert forall i :: 0 <= i < |a| ==> a[i] == (a + b)[i];
      assert forall i :: 0 <= i < |b| ==> b[i] == (a + b)[|a| + i];
    }
  }

  /** The length that openread counts. */
  lemma {:induction false} ExpandLength(s: seq<byte>)
    ensures |Expand(s)| == |s| + multiset(s)[LF]
  {
    if s != [] {
      ExpandLength(s[1..]);
      assert s == [s[0]] + s[1..];
    }
  }

  /** An expanded file comes back with its line ends expanded, under the same condition, of
      which an end with a line feed is one case. */
  lemma {:induction false} AsciiRoundTrip(s: seq<byte>, names: seq<word>)
    requires |names| == NAMES
    ensures forall r :: r in FileRecords(Expand(s), names) ==> r.Valid()
    ensures Extracted(FileRecords(Expand(s), names)) == Some(Expand(s)) <==> Restorable(Expand(s)) && SevenBit(s)
    ensures s != [] ==> Expand(s)[|Expand(s)| - 1] == s[|s| - 1]
  {
    hide *;
    ExpandSevenBit(s);
    FileRoundTrip(Expand(s), names);
    if s != [] {
      ExpandLast(s);
    }
  }

  lemma {:induction false} ExpandLast(s: seq<byte>)
    requires s != []
    ensures Expand(s) != [] && Expand(s)[|Expand(s)| - 1] == s[|s| - 1]
  {
    var init, last := s[..|s| - 1], s[|s| - 1];
    assert s == init + [last];
    ExpandAppend(init, [last]);
    var h := if last == LF then [CR, LF] else [last];
    assert Expand([last]) == h + Expand([]) == h;
    hide Expand;
  }

  // ---------------------------------------------------------------- times

  const DAY := 86400
  const EPOCH := 40587

  /** time2udt, for a local time that is not negative: days, and 2^18 parts of a day. */
  function ToUdt(t: nat): nat {
    (t / DAY + EPOCH) * W18 + t % DAY * 2048 / 675
  }

  /** udt2time */
  function FromUdt(udt: nat): int {
    (udt / W18 % W18 - EPOCH) * DAY + udt % W18 * 675 / 2048
  }

  lemma {:induction false} Seconds(s: nat)
    requires s < DAY
    ensures s * 2048 / 675 < W18
    ensures s * 2048 / 675 * 675 / 2048 == if s % 675 == 0 then s else s - 1
  {
    var q, r := s * 2048 / 675, s * 2048 % 675;
    assert s * 2048 == q * 675 + r;
    if s % 675 == 0 {
      var k := s / 675;
      assert q == k * 2048 && r == 0;
    } else {
      assert r != 0 by {
        if r == 0 {
          Coprime(s, q);
        }
      }
    }
  }

  lemma {:induction false} Coprime(s: nat, q: nat)
    requires s * 2048 == q * 675
    ensures s % 675 == 0
  {
    // 587 is the inverse of 2048 modulo 675.
    assert s == 675 * (q * 587 - s * 1781);
  }

  /** A time comes back to the second exactly when it is a multiple of 675 seconds into its day;
      any other comes back one second early. */
  lemma {:induction false} TimeRoundTrip(t: nat)
    requires t / DAY + EPOCH < W18
    ensures FromUdt(ToUdt(t)) == if t % DAY % 675 == 0 then t else t - 1
  {
    Seconds(t % DAY);
    HalvesOf(t / DAY + EPOCH, t % DAY * 2048 / 675);
  }

  /** The tape form of a time: the left half counts days, with 40587 for the first of 1970; the right
      half is how many of 2^18 parts of the day have gone. */
  lemma {:induction false} UdtHalves(t: nat)
    ensures ToUdt(t) / 0x4_0000 == t / 86400 + 40587
    ensures ToUdt(t) % 0x4_0000 * 86400 <= t % 86400 * 0x4_0000 < (ToUdt(t) % 0x4_0000 + 1) * 86400
  {
    Seconds(t % DAY);
    HalvesOf(t / DAY + EPOCH, t % DAY * 2048 / 675);
    var q := t % DAY * 2048 / 675;
    assert q * 675 <= t % DAY * 2048 < (q + 1) * 675;
  }
}
