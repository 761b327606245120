/** The program that writes files to a BACKUP tape (backwr.c), in ANSI mode. */
module TapeWriter {
  import opened Bytes
  import opened Common
  import opened Words
  import opened Tape

  const T_FILE := 4
  const GF_EOF := 0x2_0000
  const GF_SOF := 0x4000

  /** The bytes that writetape makes of words. */
  function Packed(ws: seq<word>): (bs: seq<byte>)
    ensures |bs| == 5 * |ws|
  {
    if ws == [] then [] else Packed(ws[..|ws| - 1]) + PackWord(ws[|ws| - 1])
  }

  /** A step of checksumdata. */
  function AddIn(sum: nat, w: word): (r: nat)
    ensures r < W36
  {
    if Tsts(sum + w) then ((sum + w) * 2 + 1) % W36 else (sum + w) * 2 % W36
  }

  function Checksum(ws: seq<word>): (r: nat)
    ensures r < W36
  {
    if ws == [] then 0 else AddIn(Checksum(ws[..|ws| - 1]), ws[|ws| - 1])
  }

  /** The step is an addition of 36 bits and a rotation to the left. */
  lemma {:induction false} AddInRotates(sum: nat, w: word)
    requires sum < W36
    ensures var s := (sum + w) % W36; AddIn(sum, w) == s % W35 * 2 + s / W35
  {
    var x := sum + w;
    var s := if x < W36 then x else x - W36;
    assert x % W36 == s;
    assert Tsts(x) <==> s >= W35;
    hide Tsts;
    DoubleWraps(x, s);
  }

  /** The checksum takes in every word: it is added, and the sum of 36 bits rotated to the left by one. */
  lemma {:induction false} ChecksumMore(ws: seq<word>, w: word)
    ensures Checksum([]) == 0
    ensures var s := (Checksum(ws) + w) % 0x10_0000_0000; Checksum(ws + [w]) == s % 0x8_0000_0000 * 2 + s / 0x8_0000_0000
  {
    AddInRotates(Checksum(ws), w);
    hide AddIn;
    assert (ws + [w])[..|ws|] == ws;
  }

  lemma {:induction false} DoubleWraps(x: int, s: int)
    requires 0 <= s < W36 && (x == s || x == s + W36)
    ensures s < W35 ==> 2 * x % W36 == 2 * s && s % W35 == s && s / W35 == 0
    ensures s >= W35 ==> (2 * x + 1) % W36 == 2 * (s - W35) + 1 && s % W35 == s - W35 && s / W35 == 1
  {
  }

  ghost function Flags(r: Record): nat {
    (if r.eof then GF_EOF else 0) + if r.sof then GF_SOF else 0
  }

  /** The words of a record say what the record says of itself. */
  ghost predicate Matches(ws: seq<word>, r: Record) {
    && |ws| == RECORD
    && ws[0] == T_FILE && ws[3] == Flags(r) * W18 && ws[5] == r.size && ws[6] == r.lnd
    && ws[HEADER..] == r.data
  }

  /** The header in numbers: the kind of record, the flags for the first and the last of a file, the
      number of data words and where they start. */
  lemma {:induction false} HeaderWords(ws: seq<word>, r: Record)
    requires Matches(ws, r)
    ensures |ws| == 544 && ws[0] == 4 && ws[5] == r.size && ws[6] == r.lnd && ws[32..] == r.data
    ensures ws[3] == (if r.sof then 0x4000 else 0) * 0x4_0000 + (if r.eof then 0x2_0000 else 0) * 0x4_0000
  {
  }

  // ---------------------------------------------------------------- reading the file

  class DiskReader {
    const file: seq<byte>
    const ascii: bool
    var at: nat
    const buffer: array<byte>
    var bufpos: nat
    var bufcount: nat
    var lfflag: bool
    const diskbuffer: array<byte>
    var diskcount: nat

    ghost predicate Valid()
      reads this
    {
      && at <= |file| && buffer.Length == 512 && diskbuffer.Length == BLOCK && buffer != diskbuffer
      && bufpos <= bufcount <= 512 && diskcount <= BLOCK
      && (!ascii ==> !lfflag && bufpos == bufcount)
    }

    /** What is still to be read, with expanded line ends in ASCII mode. */
    ghost function Input(): seq<byte>
      requires Valid()
      reads this, buffer
    {
      if ascii then (if lfflag then [LF] else []) + Expand(buffer[bufpos..bufcount]) + Expand(file[at..])
      else file[at..]
    }

    constructor (file: seq<byte>, ascii: bool)
      ensures Valid() && Input() == (if ascii then Expand(file) else file) && fresh(buffer) && fresh(diskbuffer)
      ensures this.ascii == ascii
    {
      this.file, this.ascii := file, ascii;
      at, bufpos, bufcount, lfflag, diskcount := 0, 0, 0, false, 0;
      var b := new byte[512](i => 0);
      var d := new byte[BLOCK](i => 0);
      buffer, diskbuffer := b, d;
      new;
      assert Expand([]) == [] && file[0..] == file;
      hide Expand;
    }

    /** fread, which gives all that is asked for while there is any. */
    method Read(dst: array<byte>, max: nat) returns (n: nat)
      requires at <= |file| && max <= dst.Length
      modifies this`at, dst
      ensures at <= |file| && n == (if |file| - old(at) < max then |file| - old(at) else max)
      ensures at == old(at) + n && dst[..n] == file[old(at)..at] && dst[n..] == old(dst[n..])
    {
      n := if |file| - at < max then |file| - at else max;
      forall k | 0 <= k < n {
        dst[k] := file[at + k];
      }
      at := at + n;
    }

    /** The inner loop of aread: the next byte. */
    method NextByte() returns (b: byte)
      requires Valid() && ascii && (bufpos < bufcount || lfflag)
      modifies this`bufpos, this`lfflag
      ensures Valid() && old(Input()) == [b] + Input()
      ensures 2 * (bufcount - bufpos) + (if lfflag then 1 else 0) < old(2 * (bufcount - bufpos) + if lfflag then 1 else 0)
    {
      ghost var bs, tail := buffer[bufpos..bufcount], Expand(file[at..]);
      NextInput(lfflag, bs, tail);
      assert bufpos < bufcount ==> bs[1..] == buffer[bufpos + 1..bufcount] && bs[0] == buffer[bufpos];
      hide Expand;
      if lfflag {
        lfflag := false;
        b := LF;
      } else {
        b := buffer[bufpos];
        bufpos := bufpos + 1;
        if b == LF {
          lfflag := true;
          b := CR;
        }
      }
    }

    /** The inner loop of aread: bytes go to the disk buffer until that or the other is done. */
    method Drain(start: nat, maxcount: nat) returns (count: nat)
      requires Valid() && ascii && start < maxcount <= BLOCK
      modifies this`bufpos, this`lfflag, diskbuffer
      ensures Valid() && count <= maxcount && (count < maxcount ==> bufpos == bufcount && !lfflag)
      ensures diskbuffer[..count] + Input() == old(diskbuffer[..start] + Input())
    {
      count := start;
      ghost var all := diskbuffer[..start] + Input();
      hide Expand, Input;
      while count < maxcount && (bufpos < bufcount || lfflag)
        invariant Valid() && count <= maxcount && all == diskbuffer[..count] + Input()
        decreases 2 * (bufcount - bufpos) + if lfflag then 1 else 0
      {
        ghost var sofar := diskbuffer[..count];
        var b := NextByte();
        Associate(sofar, [b], Input());
        PutByte(count, b);
        count := count + 1;
      }
    }

    /** The next part of the file in the buffer of aread. */
    method Refill()
      requires Valid() && ascii && bufpos == bufcount && !lfflag
      modifies this`at, this`bufpos, this`bufcount, buffer
      ensures Valid() && Input() == old(Input()) && bufpos == 0
      ensures bufcount == 0 ==> Input() == []
      ensures at >= old(at) && (bufcount > 0 ==> at > old(at))
    {
      ghost var rest := file[at..];
      assert buffer[bufpos..bufcount] == [];
      hide Expand;
      bufcount := Read(buffer, 512);
      bufpos := 0;
      assert buffer[0..bufcount] == buffer[..bufcount];
      CutRest(file, at - bufcount, at);
      assert bufcount == 0 ==> rest == [];
      RefillInput(rest, buffer[..bufcount], file[at..]);
    }

    /** aread: up to `maxcount` bytes, whatever the parts are in which the file is read. */
    method Aread(maxcount: nat) returns (count: nat)
      requires Valid() && ascii && 0 < maxcount <= BLOCK
      modifies this`at, this`bufpos, this`bufcount, this`lfflag, buffer, diskbuffer
      ensures Valid() && count <= maxcount && (count < maxcount ==> Input() == [])
      ensures old(Input()) == diskbuffer[..count] + Input()
    {
      count := 0;
      ghost var input := Input();
      hide Expand, Input;
      while true
        invariant Valid() && count < maxcount && input == diskbuffer[..count] + Input()
        decreases |file| - at
      {
        count := Drain(count, maxcount);
        if count >= maxcount {
          return;
        }
        Refill();
        if bufcount == 0 {
          return;
        }
      }
    }

    /** readdisk: the next chunk of the file, and zeros. */
    method ReadDisk()
      requires Valid()
      modifies this`at, this`bufpos, this`bufcount, this`lfflag, this`diskcount, buffer, diskbuffer
      ensures Valid() && diskbuffer[..diskcount] == Chunk(old(Input())) && Input() == After(old(Input()))
      ensures forall i :: diskcount <= i < BLOCK ==> diskbuffer[i] == 0
    {
      ghost var input := Input();
      if ascii {
        diskcount := Aread(BLOCK);
      } else {
        diskcount := Read(diskbuffer, BLOCK);
      }
      hide Expand;
      ghost var c := diskbuffer[..diskcount];
      assert input == c + Input();
      assert c == Chunk(input) && Input() == After(input);
      ZeroFrom(diskcount);
    }

    method ZeroFrom(n: nat)
      requires n <= BLOCK == diskbuffer.Length
      modifies diskbuffer
      ensures diskbuffer[..n] == old(diskbuffer[..n]) && forall i :: n <= i < BLOCK ==> diskbuffer[i] == 0
    {
      for i := n to BLOCK
        invariant forall k :: n <= k < i ==> diskbuffer[k] == 0
        invariant diskbuffer[..n] == old(diskbuffer[..n])
      {
        diskbuffer[i] := 0;
      }
    }

    method PutByte(count: nat, b: byte)
      requires count < diskbuffer.Length
      modifies diskbuffer
      ensures diskbuffer[..count + 1] == old(diskbuffer[..count]) + [b]
    {
      diskbuffer[count] := b;
    }
  }

  lemma {:induction false} CutRest(s: seq<byte>, i: nat, j: nat)
    requires i <= j <= |s|
    ensures s[i..] == s[i..j] + s[j..]
  {
  }

  /** The first byte of what is to come, in the cases of the inner loop of aread. */
  lemma {:induction false} NextInput(lfflag: bool, bs: seq<byte>, tail: seq<byte>)
    ensures lfflag ==> [LF] + Expand(bs) + tail == [LF] + ([] + Expand(bs) + tail)
    ensures bs != [] && bs[0] == LF ==> [] + Expand(bs) + tail == [CR] + ([LF] + Expand(bs[1..]) + tail)
    ensures bs != [] && bs[0] != LF ==> [] + Expand(bs) + tail == [bs[0]] + ([] + Expand(bs[1..]) + tail)
  {
    if bs != [] {
      var h := if bs[0] == LF then [CR, LF] else [bs[0]];
      assert Expand(bs) == h + Expand(bs[1..]);
      hide Expand;
      assert [CR, LF] == [CR] + [LF];
    }
  }

  lemma {:induction false} RefillInput(rest: seq<byte>, a: seq<byte>, b: seq<byte>)
    requires rest == a + b
    ensures [] + Expand([]) + Expand(rest) == [] + Expand(a) + Expand(b)
    ensures rest == [] ==> [] + Expand(a) + Expand(b) == []
  {
    ExpandAppend(a, b);
    assert Expand([]) == [];
    assert rest == [] ==> a == [] && b == [];
    hide Expand;
  }

  // ---------------------------------------------------------------- writing the tape

  /** The first words of a record, in which it says of itself. */
  ghost predicate Headed(ws: seq<word>, flags: int, size: int, lnd: int) {
    |ws| == RECORD && ws[0] == T_FILE && ws[3] == flags && ws[5] == size && ws[6] == lnd
  }

  class Writer {
    const rec: array<word>
    var record: nat
    var tape: seq<seq<byte>>
    ghost var words: seq<seq<word>>
    ghost var records: seq<Record>

    /** The tape has the bytes of the records, which are numbered from 1 on. */
    ghost predicate Written()
      reads this
    {
      && rec.Length == RECORD
      && |tape| == |words| == |records|
      && (forall i :: 0 <= i < |tape| ==> tape[i] == Packed(words[i]) && Matches(words[i], records[i]) && records[i].Valid())
      && forall i :: 0 <= i < |words| ==> words[i][1] == (i + 1) % 0x4_0000
    }

    ghost predicate Valid()
      reads this
    {
      Written() && record == |tape| + 1
    }

    /** A record is begun, and has its number. */
    ghost predicate Begun()
      reads this, rec
    {
      Written() && record == |tape| + 2 && rec[1] == (|tape| + 1) % 0x4_0000
    }

    constructor ()
      ensures Valid() && records == [] && fresh(rec)
    {
      rec := new word[RECORD](i => 0);
      record, tape, words, records := 1, [], [], [];
    }

    /** setup_general, for a file record. */
    method SetupGeneral()
      requires rec.Length == RECORD
      modifies this`record, rec
      ensures Headed(rec[..], 0, 0, 0) && rec[HEADER..] == Blank(DATA)
      ensures rec[1] == old(record) % 0x4_0000 && record == old(record) + 1
    {
      for i := 0 to RECORD
        invariant record == old(record) && forall k :: 0 <= k < i ==> rec[k] == 0
      {
        rec[i] := 0;
      }
      rec[0] := T_FILE;
      rec[1] := record % W18;
      record := record + 1;
      rec[2] := 1;
      rec[3] := 0;
    }

    /** mkheadpath: the checksum and the path go behind the other fields. */
    method MakeHeadPath(path: seq<word>, sum: word)
      requires rec.Length == RECORD && |path| <= 18
      modifies rec
      ensures rec[..7] == old(rec[..7]) && rec[HEADER..] == old(rec[HEADER..])
      ensures rec[12] == sum && rec[14..14 + |path|] == path
    {
      for i := 0 to |path|
        invariant rec[..7] == old(rec[..7]) && rec[HEADER..] == old(rec[HEADER..])
        invariant rec[14..14 + i] == path[..i]
      {
        rec[14 + i] := path[i];
      }
      rec[12] := sum;
    }

    /** checksumdata */
    method ChecksumData(start: nat, count: nat) returns (sum: word)
      requires start + count <= rec.Length
      ensures sum == Checksum(rec[start..start + count])
    {
      sum := 0;
      for i := 0 to count
        invariant sum == Checksum(rec[start..start + i])
      {
        assert rec[start..start + i + 1] == rec[start..start + i] + [rec[start + i]];
        sum := AddIn(sum, rec[start + i]);
      }
    }

    /** checksumbuffer: the checksum of the record, in which its own word counts as zero. */
    method ChecksumBuffer()
      requires rec.Length == RECORD
      modifies rec
      ensures rec[..] == old(rec[..])[4 := Checksum(old(rec[..])[4 := 0])]
    {
      hide Checksum;
      rec[4] := 0;
      var sum := ChecksumData(0, RECORD);
      assert rec[0..0 + RECORD] == rec[..];
      rec[4] := sum;
    }

    /** The loop of writetape: five bytes of each word. */
    method PackRecord() returns (raw: seq<byte>)
      requires rec.Length == RECORD
      ensures raw == Packed(rec[..])
    {
      raw := [];
      hide PackWord;
      for i := 0 to RECORD
        invariant raw == Packed(rec[..i])
      {
        assert rec[..i + 1] == rec[..i] + [rec[i]];
        raw := raw + PackWord(rec[i]);
      }
      assert rec[..RECORD] == rec[..];
    }

    /** writetape */
    method WriteTape(ghost r: Record)
      requires Begun() && r.Valid() && Matches(rec[..], r)
      modifies this`tape, this`words, this`records, rec
      ensures Valid() && records == old(records) + [r] && words == old(words) + [rec[..]]
      ensures rec[..] == old(rec[..])[4 := Checksum(old(rec[..])[4 := 0])]
    {
      ghost var was := rec[..];
      hide Matches, Checksum;
      ChecksumBuffer();
      StillMatches(was, r, rec[4]);
      var raw := PackRecord();
      tape, words, records := tape + [raw], words + [rec[..]], records + [r];
    }

    /** A round of copy2tape: five bytes go into a word. */
    method CopyWord(at: nat, d: array<byte>, i: nat)
      requires at < rec.Length && i + 5 <= d.Length
      modifies rec
      ensures rec[..] == old(rec[..])[at := PackedAt(d[..], i)]
    {
      rec[at] := PackChars(d[i], d[i + 1], d[i + 2], d[i + 3], d[i + 4]);
    }

    /** copy2tape, in ANSI format: five bytes to a word. */
    method Copy2Tape(ptr: nat, d: array<byte>, bytes: nat)
      requires rec.Length == RECORD && HEADER <= ptr && ptr + (bytes + 4) / 5 <= RECORD && bytes <= d.Length == BLOCK
      requires forall i :: bytes <= i < BLOCK ==> d[i] == 0
      modifies rec
      ensures rec[..] == old(Spliced(rec[..], ptr, WordsOf(d[..bytes])))[5 := (bytes + 4) / 5]
    {
      ghost var was, bs, ds := rec[..], d[..bytes], d[..];
      assert bs == ds[..|bs|] && Zeroed(ds, |bs|);
      NothingCopied(was, ptr, bs);
      hide PackedAt, Zeroed, WordsFrom, WordsOf, Spliced;
      ghost var done: seq<word> := [];
      var i, k := 0, 0;
      while i < bytes
        invariant i == 5 * k && k <= (bytes + 4) / 5 && |done| == k
        invariant done + WordsFrom(bs, i) == WordsOf(bs)
        invariant rec[..] == Spliced(was, ptr, done)
      {
        WordCopied(was, ptr, done, bs, ds, i);
        CopyWord(ptr + k, d, i);
        done := done + [PackedAt(ds, i)];
        i, k := i + 5, k + 1;
      }
      AllCopied(done, bs, i);
      rec[5] := (bytes + 4) / 5;
    }

    /** The names and attributes, which are not modelled themselves, go to the start of the data. */
    method PlaceNames(names: seq<word>)
      requires rec.Length == RECORD && |names| == NAMES
      modifies rec
      ensures rec[..HEADER] == old(rec[..HEADER]) && rec[HEADER..] == names + old(rec[HEADER + NAMES..])
    {
      for i := 0 to NAMES
        invariant rec[..HEADER] == old(rec[..HEADER]) && rec[HEADER + i..] == old(rec[HEADER + i..])
        invariant rec[HEADER..HEADER + i] == names[..i]
      {
        rec[HEADER + i] := names[i];
      }
      assert rec[HEADER..] == rec[HEADER..HEADER + NAMES] + rec[HEADER + NAMES..];
    }

    /** The start of the first record of a file: all but the data. */
    method StartFile(names: seq<word>, path: seq<word>, flags: int) returns (sum: word)
      requires rec.Length == RECORD && |names| == NAMES && |path| <= 18 && 0 <= flags < W36
      modifies this`record, rec
      ensures Headed(rec[..], flags, 0, NAMES) && rec[HEADER..] == Area(names) && sum == Checksum(names[..128])
      ensures rec[1] == old(record) % 0x4_0000 && record == old(record) + 1 && rec[12] == sum
    {
      SetupGeneral();
      rec[3] := flags;
      assert Headed(rec[..], flags, 0, 0);
      PlaceNames(names);
      assert rec[..7] == rec[..HEADER][..7];
      sum := ChecksumData(HEADER, 128);
      ghost var data := rec[HEADER..];
      assert data[..128] == names[..128];
      assert rec[HEADER..HEADER + 128] == data[..128];
      rec[6] := NAMES;
      ghost var head := rec[..7];
      assert head == rec[..][..7];
      MakeHeadPath(path, sum);
      KeepHead(head, rec[..], flags, 0, NAMES);
    }

    /** The start of another record of a file. */
    method StartData(path: seq<word>, sum: word, offset: nat)
      requires rec.Length == RECORD && |path| <= 18
      modifies this`record, rec
      ensures Headed(rec[..], 0, 0, 0) && rec[HEADER..] == Blank(DATA)
      ensures rec[1] == old(record) % 0x4_0000 && record == old(record) + 1
      ensures rec[12] == sum && rec[13] == offset % 0x10_0000_0000
    {
      SetupGeneral();
      ghost var head := rec[..7];
      MakeHeadPath(path, sum);
      rec[13] := offset % W36;
      assert rec[..7] == head && head == rec[..][..7];
      KeepHead(head, rec[..], 0, 0, 0);
    }

    /** The disk buffer has a chunk of a file, and the reader what comes after it. */
    ghost predicate Loaded(disk: DiskReader, s: seq<byte>)
      reads disk, disk.buffer, disk.diskbuffer
    {
      && disk.Valid()
      && disk.diskbuffer[..disk.diskcount] == Chunk(s) && disk.Input() == After(s)
      && forall i :: disk.diskcount <= i < BLOCK ==> disk.diskbuffer[i] == 0
    }

    /** A record with a chunk of the file, but for the flags. */
    method FillRecord(disk: DiskReader, path: seq<word>, sum: word, offset: nat, ghost s: seq<byte>)
      requires rec.Length == RECORD && Loaded(disk, s) && s != [] && |path| <= 18
      modifies this`record, rec
      ensures Matches(rec[..][3 := if After(s) == [] then GF_EOF * W18 else 0], DataRecord(s))
      ensures Loaded(disk, s)
      ensures rec[1] == old(record) % 0x4_0000 && record == old(record) + 1
      ensures rec[12] == sum && rec[13] == offset % 0x10_0000_0000
    {
      StartData(path, sum, offset);
      ghost var was := rec[..];
      Copy2Tape(HEADER, disk.diskbuffer, disk.diskcount);
      DataMatches(was, rec[..], s);
    }

    /** The flags of a record, which goes to the tape then. */
    method FlagRecord(flags: word, ghost r: Record)
      requires Begun() && r.Valid() && Matches(rec[..][3 := flags], r)
      modifies this`tape, this`words, this`records, rec
      ensures Valid() && records == old(records) + [r] && words == old(words) + [rec[..]]
      ensures rec[12] == old(rec[12]) && rec[13] == old(rec[13])
    {
      hide Matches;
      rec[3] := flags;
      WriteTape(r);
    }

    /** The next chunk comes into the disk buffer. */
    method NextChunk(disk: DiskReader, ghost s: seq<byte>)
      requires Loaded(disk, s)
      modifies disk`at, disk`bufpos, disk`bufcount, disk`lfflag, disk`diskcount, disk.buffer, disk.diskbuffer
      ensures Loaded(disk, After(s)) && (disk.diskcount == 0 <==> After(s) == [])
    {
      disk.ReadDisk();
      ghost var c := Chunk(After(s));
      assert |c| == disk.diskcount && (After(s) == [] <==> c == []);
    }

    /** A round of the loop of wr_file: a record, and the next chunk. */
    method WriteChunk(disk: DiskReader, path: seq<word>, sum: word, offset: nat, ghost s: seq<byte>)
      requires Valid() && Loaded(disk, s) && s != [] && |path| <= 18
      modifies this`record, this`tape, this`words, this`records, rec
      modifies disk`at, disk`bufpos, disk`bufcount, disk`lfflag, disk`diskcount, disk.buffer, disk.diskbuffer
      ensures Valid() && Loaded(disk, After(s)) && records == old(records) + [DataRecord(s)]
      ensures disk.diskcount == 0 <==> After(s) == []
      ensures words == old(words) + [rec[..]] && rec[12] == sum && rec[13] == offset % 0x10_0000_0000
    {
      DataValid(s);
      hide Loaded, After, DataRecord, Matches;
      FillRecord(disk, path, sum, offset, s);
      ghost var filled := rec[..];
      NextChunk(disk, s);
      assert rec[..] == filled;
      FlagRecord(if disk.diskcount == 0 then GF_EOF * W18 else 0, DataRecord(s));
    }

    /** The first record of a file, with the data if there are few. */
    method FillFirst(d: array<byte>, n: nat, names: seq<word>, path: seq<word>, ghost s: seq<byte>) returns (sum: word)
      requires rec.Length == RECORD && |names| == NAMES && |path| <= 18 && n <= d.Length == BLOCK && d[..n] == Chunk(s)
      requires forall i :: n <= i < BLOCK ==> d[i] == 0
      modifies this`record, rec
      ensures Matches(rec[..], FileRecords(s, names)[0]) && FileRecords(s, names)[0].Valid()
      ensures rec[1] == old(record) % 0x4_0000 && record == old(record) + 1
      ensures sum == Checksum(names[..128]) == rec[12]
    {
      hide FileRecords, Headed, WordsOf, Spliced, Area, Checksum, Matches;
      sum := StartFile(names, path, if n <= BLOCK / 2 then (GF_SOF + GF_EOF) * W18 else GF_SOF * W18);
      ChunkLength(s);
      ghost var was := rec[..];
      if n < BLOCK / 2 {
        Copy2Tape(HEADER + NAMES, d, n);
        SplicedBefore(was, HEADER + NAMES, WordsOf(s));
        FirstMatches(was, rec[..], s, names);
      } else {
        EmptyMatches(rec[..], s, names);
      }
    }

    /** It goes to the tape. */
    method WriteFirst(d: array<byte>, n: nat, names: seq<word>, path: seq<word>, ghost s: seq<byte>) returns (sum: word)
      requires Valid() && |names| == NAMES && |path| <= 18 && n <= d.Length == BLOCK && d[..n] == Chunk(s)
      requires forall i :: n <= i < BLOCK ==> d[i] == 0
      modifies this`record, this`tape, this`words, this`records, rec
      ensures Valid() && records == old(records) + [FileRecords(s, names)[0]] && words == old(words) + [rec[..]]
      ensures sum == Checksum(names[..128]) == rec[12]
    {
      hide FileRecords, DataRecords, Chunk, Checksum, Matches;
      FirstAndRest(s, names);
      sum := FillFirst(d, n, names, path, s);
      WriteTape(FileRecords(s, names)[0]);
    }

    /** wr_file, for a file that was opened. */
    method WriteFile(disk: DiskReader, names: seq<word>, path: seq<word>)
      requires Valid() && disk.Valid() && |names| == NAMES && |path| <= 18
      modifies this`record, this`tape, this`words, this`records, rec
      modifies disk`at, disk`bufpos, disk`bufcount, disk`lfflag, disk`diskcount, disk.buffer, disk.diskbuffer
      ensures Valid() && records == old(records) + FileRecords(old(disk.Input()), names)
      ensures |old(words)| < |words| && old(words) <= words
      ensures Placed(words[..|old(words)| + 1], words, Checksum(names[..128]))
    {
      ghost var s := disk.Input();
      ghost var rs := FileRecords(s, names);
      FirstAndRest(s, names);
      if |s| >= BLOCK / 2 {
        Associate(records, [rs[0]], DataRecords(s));
      }
      ghost var was := words;
      hide FileRecords, DataRecords, Chunk, After, Expand, Placed, Checksum;
      disk.ReadDisk();
      var n := disk.diskcount;
      var sum := WriteFirst(disk.diskbuffer, n, names, path, s);
      ghost var mid := words;
      NonePlaced(mid, sum);
      if n >= BLOCK / 2 {
        WriteData(disk, path, sum, s);
      }
      PlacedBehind(was, mid, words, sum);
    }

    /** The loop of wr_file. */
    method WriteData(disk: DiskReader, path: seq<word>, sum: word, ghost s: seq<byte>)
      requires Valid() && Loaded(disk, s) && s != [] && |path| <= 18
      modifies this`record, this`tape, this`words, this`records, rec
      modifies disk`at, disk`bufpos, disk`bufcount, disk`lfflag, disk`diskcount, disk.buffer, disk.diskbuffer
      ensures Valid() && records == old(records) + DataRecords(s) && Placed(old(words), words, sum)
    {
      hide Loaded, After, DataRecord, DataRecords, RecordsFrom, Placed;
      var more, offset: nat := true, 0;
      ghost var t, all, was := s, records + RecordsFrom(s), words;
      RecordsAll(s);
      NonePlaced(was, sum);
      while more
        invariant Valid() && Loaded(disk, t) && (more <==> t != [])
        invariant all == records + RecordsFrom(t)
        invariant Placed(was, words, sum) && (more ==> offset == 512 * (|words| - |was|))
        decreases |t|
      {
        RecordsNext(t);
        Associate(records, [DataRecord(t)], RecordsFrom(After(t)));
        var n := WordCount(disk, t);
        PlacedNext(was, words, sum, offset);
        WriteChunk(disk, path, sum, offset, t);
        offset := offset + n;
        t := After(t);
        more := disk.diskcount != 0;
      }
      assert records + [] == records;
    }

    method WordCount(disk: DiskReader, ghost s: seq<byte>) returns (n: nat)
      requires Loaded(disk, s)
      ensures n == (|Chunk(s)| + 4) / 5 && (After(s) != [] ==> n == 512)
    {
      n := (disk.diskcount + 4) / 5;
    }
  }

  /** The words of records that were put behind others: each has the checksum of the names, and says
      where in the file its data start, in words. */
  ghost predicate Placed(was: seq<seq<word>>, now: seq<seq<word>>, sum: word) {
    && was <= now
    && forall i :: |was| <= i < |now| ==> |now[i]| == 544 && now[i][12] == sum && now[i][13] == 512 * (i - |was|) % 0x10_0000_0000
  }

  lemma {:induction false} PlacedNext(was: seq<seq<word>>, now: seq<seq<word>>, sum: word, offset: nat)
    requires Placed(was, now, sum) && offset == 512 * (|now| - |was|)
    ensures forall ws: seq<word> :: |ws| == RECORD && ws[12] == sum && ws[13] == offset % 0x10_0000_0000 ==> Placed(was, now + [ws], sum)
  {
  }

  lemma {:induction false} RecordsAll(s: seq<byte>)
    ensures s != [] ==> RecordsFrom(s) == DataRecords(s)
    ensures RecordsFrom([]) == []
  {
  }

  lemma {:induction false} NonePlaced(was: seq<seq<word>>, sum: word)
    ensures Placed(was, was, sum)
  {
  }

  lemma {:induction false} PlacedBehind(was: seq<seq<word>>, mid: seq<seq<word>>, now: seq<seq<word>>, sum: word)
    requires was <= mid && |mid| == |was| + 1 && Placed(mid, now, sum)
    ensures was <= now && |was| < |now| && Placed(now[..|was| + 1], now, sum)
  {
    assert now[..|was| + 1] == mid;
  }

  ghost function RecordsFrom(s: seq<byte>): seq<Record> {
    if s == [] then [] else DataRecords(s)
  }

  /** All of a small file is in its first record; the others follow. */
  lemma {:induction false} FirstAndRest(s: seq<byte>, names: seq<word>)
    requires |names| == NAMES
    ensures |Chunk(s)| < BLOCK / 2 <==> |s| < BLOCK / 2
    ensures var rs := FileRecords(s, names); rs == [rs[0]] + (if |s| < BLOCK / 2 then [] else DataRecords(s))
  {
  }

  lemma {:induction false} RecordsNext(s: seq<byte>)
    requires s != []
    ensures RecordsFrom(s) == [DataRecord(s)] + RecordsFrom(After(s))
  {
    hide DataRecord, After;
  }

  /** The record does not say what its checksum is. */
  lemma {:induction false} StillMatches(ws: seq<word>, r: Record, sum: word)
    requires Matches(ws, r)
    ensures Matches(ws[4 := sum], r)
  {
    assert ws[4 := sum][HEADER..] == ws[HEADER..];
  }

  lemma {:induction false} DataMatches(was: seq<word>, ws: seq<word>, s: seq<byte>)
    requires Headed(was, 0, 0, 0) && was[HEADER..] == Blank(DATA)
    requires var c := Chunk(s); ws == Spliced(was, HEADER, WordsOf(c))[5 := (|c| + 4) / 5]
    ensures |ws| == RECORD && Matches(ws[3 := if After(s) == [] then GF_EOF * W18 else 0], DataRecord(s))
  {
    var c := Chunk(s);
    var n := |WordsOf(c)|;
    assert was[HEADER + n..] == was[HEADER..][n..] == Blank(DATA - n);
    hide WordsOf, Chunk;
  }

  lemma {:induction false} FirstMatches(was: seq<word>, ws: seq<word>, s: seq<byte>, names: seq<word>)
    requires |names| == NAMES && |s| < BLOCK / 2
    requires Headed(was, (GF_SOF + GF_EOF) * W18, 0, NAMES) && was[HEADER..] == Area(names)
    requires ws == Spliced(was, HEADER + NAMES, WordsOf(s))[5 := (|s| + 4) / 5]
    ensures Matches(ws, FileRecords(s, names)[0]) && FileRecords(s, names)[0].Valid()
  {
    var n := |WordsOf(s)|;
    assert was[HEADER..HEADER + NAMES] == was[HEADER..][..NAMES] == names;
    assert was[HEADER + NAMES + n..] == was[HEADER..][NAMES + n..] == Blank(DATA - NAMES - n);
    hide WordsOf;
  }

  lemma {:induction false} EmptyMatches(ws: seq<word>, s: seq<byte>, names: seq<word>)
    requires |names| == NAMES && |s| >= BLOCK / 2 && ws != []
    requires Headed(ws, if |s| == BLOCK / 2 then (GF_SOF + GF_EOF) * W18 else GF_SOF * W18, 0, NAMES)
    requires ws[HEADER..] == Area(names)
    ensures Matches(ws, FileRecords(s, names)[0]) && FileRecords(s, names)[0].Valid()
  {
    hide DataRecords;
  }

  lemma {:induction false} KeepHead(head: seq<word>, ws: seq<word>, flags: int, size: int, lnd: int)
    requires |ws| == RECORD && head == ws[..7]
    requires head[0] == T_FILE && head[3] == flags && head[5] == size && head[6] == lnd
    ensures Headed(ws, flags, size, lnd)
  {
  }

  /** The words from `at` on replaced by others. */
  ghost function Spliced(ws: seq<word>, at: nat, new_: seq<word>): (r: seq<word>)
    requires at + |new_| <= |ws|
    ensures |r| == |ws|
  {
    ws[..at] + new_ + ws[at + |new_|..]
  }

  lemma {:induction false} SplicedBefore(ws: seq<word>, at: nat, new_: seq<word>)
    requires at + |new_| <= |ws|
    ensures forall k :: 0 <= k < at ==> Spliced(ws, at, new_)[k] == ws[k]
  {
  }

  lemma {:induction false} ChunkLength(s: seq<byte>)
    ensures |Chunk(s)| < BLOCK ==> Chunk(s) == s
    ensures |Chunk(s)| <= BLOCK / 2 <==> |s| <= BLOCK / 2
  {
  }

  lemma {:induction false} SpliceNext(ws: seq<word>, at: nat, done: seq<word>, w: word)
    requires at + |done| < |ws|
    ensures Spliced(ws, at, done + [w]) == Spliced(ws, at, done)[at + |done| := w]
  {
  }

  ghost predicate Zeroed(d: seq<byte>, n: nat) {
    forall k :: n <= k < |d| ==> d[k] == 0
  }

  ghost function WordsFrom(bs: seq<byte>, i: nat): seq<word> {
    WordsOf(if i < |bs| then bs[i..] else [])
  }

  /** The word that five bytes make. */
  ghost function PackedAt(d: seq<byte>, i: nat): word
    requires i + 5 <= |d|
  {
    PackChars(d[i], d[i + 1], d[i + 2], d[i + 3], d[i + 4])
  }

  lemma {:induction false} NothingCopied(ws: seq<word>, at: nat, bs: seq<byte>)
    requires at <= |ws|
    ensures Spliced(ws, at, []) == ws && [] + WordsFrom(bs, 0) == WordsOf(bs)
  {
    assert bs[0..] == bs;
    hide WordsOf;
  }

  lemma {:induction false} AllCopied(done: seq<word>, bs: seq<byte>, i: nat)
    requires i >= |bs| && done + WordsFrom(bs, i) == WordsOf(bs)
    ensures done == WordsOf(bs)
  {
    assert WordsFrom(bs, i) == [];
    hide *;
  }

  /** One more word is in its place. */
  lemma {:induction false} WordCopied(was: seq<word>, ptr: nat, done: seq<word>, bs: seq<byte>, d: seq<byte>, i: nat)
    requires i < |bs| <= |d| && bs == d[..|bs|] && i + 5 <= |d| && Zeroed(d, |bs|) && ptr + |done| < |was|
    ensures var more := done + [PackedAt(d, i)];
      && Spliced(was, ptr, more) == Spliced(was, ptr, done)[ptr + |done| := PackedAt(d, i)]
      && done + WordsFrom(bs, i) == more + WordsFrom(bs, i + 5)
  {
    hide *;
    var w := PackedAt(d, i);
    NextWord(bs, d, i);
    SpliceNext(was, ptr, done, w);
    Associate(done, [w], WordsFrom(bs, i + 5));
  }

  lemma {:induction false} DataValid(s: seq<byte>)
    requires s != []
    ensures DataRecord(s).Valid()
  {
  }

  lemma {:induction false} NextWord(bs: seq<byte>, d: seq<byte>, i: nat)
    requires i < |bs| <= |d| && bs == d[..|bs|] && i + 5 <= |d| && Zeroed(d, |bs|)
    ensures WordsFrom(bs, i) == [PackedAt(d, i)] + WordsFrom(bs, i + 5)
  {
    assert FirstWord(bs[i..]) == PackedAt(d, i);
    hide PackedAt, FirstWord;
    if i + 5 < |bs| {
      assert bs[i..][5..] == bs[i + 5..];
    } else if i + 5 == |bs| {
      assert bs[i..][5..] == [];
    }
  }
}
