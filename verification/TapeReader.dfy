/** The program that extracts files from a BACKUP tape (backup.c). */
module TapeReader {
  import opened Bytes
  import opened Common
  import opened Words
  import opened Tape
  import opened TapeWriter

  lemma {:induction false} PackedAt(ws: seq<word>, i: nat)
    requires i < |ws|
    ensures Packed(ws)[5 * i..5 * i + 5] == PackWord(ws[i])
  {
    hide PackWord;
    var n := |ws| - 1;
    var a := Packed(ws[..n]);
    assert Packed(ws) == a + PackWord(ws[n]);
    if i < n {
      PackedAt(ws[..n], i);
      hide Packed;
      assert (a + PackWord(ws[n]))[5 * i..5 * i + 5] == a[5 * i..5 * i + 5];
    }
  }

  /** The halves of the i-th word of a record, from its bytes. */
  function LeftAt(raw: seq<byte>, i: nat): int
    requires 5 * i + 5 <= |raw|
  {
    Left(raw[5 * i], raw[5 * i + 1], raw[5 * i + 2])
  }

  function RightAt(raw: seq<byte>, i: nat): int
    requires 5 * i + 5 <= |raw|
  {
    Right(raw[5 * i + 2], raw[5 * i + 3], raw[5 * i + 4])
  }

  /** The reader's halves are those of the writer's word. */
  lemma {:induction false} HalvesAt(ws: seq<word>, i: nat)
    requires i < |ws|
    ensures LeftAt(Packed(ws), i) == ws[i] / W18 && RightAt(Packed(ws), i) == ws[i] % W18
  {
    PackedAt(ws, i);
    WordBack(ws[i]);
    var raw, b := Packed(ws), PackWord(ws[i]);
    hide Packed, PackWord, Left, Right;
    assert raw[5 * i..5 * i + 5][0] == b[0] && raw[5 * i..5 * i + 5][1] == b[1] && raw[5 * i..5 * i + 5][2] == b[2];
    assert raw[5 * i..5 * i + 5][3] == b[3] && raw[5 * i..5 * i + 5][4] == b[4];
  }

  class Extractor {
    const rawdata: array<byte>
    const headlh: array<int>
    const headrh: array<int>
    const datalh: array<int>
    const datarh: array<int>
    var destination: seq<byte>

    ghost predicate Valid()
      reads this
    {
      && rawdata.Length == 5 * RECORD && headlh.Length == headrh.Length == HEADER && datalh.Length == datarh.Length == DATA
      && headlh != headrh && datalh != datarh && headlh != datalh && headlh != datarh && headrh != datalh && headrh != datarh
    }

    constructor ()
      ensures Valid() && fresh(rawdata) && fresh(headlh) && fresh(headrh) && fresh(datalh) && fresh(datarh)
    {
      rawdata := new byte[5 * RECORD](i => 0);
      var a := new int[HEADER](i => 0);
      var b := new int[HEADER](i => 0);
      headlh, headrh := a, b;
      var c := new int[DATA](i => 0);
      var d := new int[DATA](i => 0);
      datalh, datarh := c, d;
      destination := [];
    }

    /** The words in `lh` and `rh` are the words of a record from `start` on. */
    ghost predicate Unpacked(lh: array<int>, rh: array<int>, ws: seq<word>, start: nat)
      requires lh.Length == rh.Length && start + lh.Length <= |ws|
      reads lh, rh
    {
      forall i :: 0 <= i < lh.Length ==> lh[i] == ws[start + i] / W18 && rh[i] == ws[start + i] % W18
    }

    /** unpackheader and unpackdata */
    method Unpack(lh: array<int>, rh: array<int>, start: nat, ghost ws: seq<word>)
      requires lh != rh && lh.Length == rh.Length && |ws| == RECORD && start + lh.Length <= RECORD
      requires rawdata.Length == 5 * RECORD && rawdata[..] == Packed(ws)
      modifies lh, rh
      ensures Unpacked(lh, rh, ws, start)
    {
      for i := 0 to lh.Length
        invariant forall k :: 0 <= k < i ==> lh[k] == ws[start + k] / W18 && rh[k] == ws[start + k] % W18
      {
        var p := 5 * (start + i);
        HalvesAt(ws, start + i);
        assert rawdata[..][p] == rawdata[p];
        hide Packed, Left, Right;
        var c := rawdata[p + 2];
        lh[i] := Left(rawdata[p], rawdata[p + 1], c);
        rh[i] := Right(c, rawdata[p + 3], rawdata[p + 4]);
      }
    }

    /** readblock, of a whole record. */
    method ReadBlock(raw: seq<byte>, ghost ws: seq<word>)
      requires Valid() && |ws| == RECORD && raw == Packed(ws)
      modifies rawdata, headlh, headrh
      ensures rawdata[..] == raw && Unpacked(headlh, headrh, ws, 0)
    {
      forall k | 0 <= k < |raw| {
        rawdata[k] := raw[k];
      }
      assert rawdata[..] == raw;
      Unpack(headlh, headrh, 0, ws);
    }

    /** writebuffer without -8: the characters of the data words, less what is stripped at the
        end of the file. With no characters there it looks at the byte before its buffer. */
    method WriteBuffer(ghost ws: seq<word>, ghost r: Record) returns (defined: bool, bytes: seq<byte>)
      requires Valid() && Matches(ws, r) && r.Valid()
      requires Unpacked(headlh, headrh, ws, 0) && Unpacked(datalh, datarh, ws, HEADER)
      ensures defined <==> !(r.eof && r.size == 0)
      ensures defined ==> bytes == if r.eof then Strip(CharsOf(r.Words()), 4) else CharsOf(r.Words())
    {
      HeadFields(ws, r);
      var lnd, size, eof := headrh[6], headrh[5], headlh[3] / GF_EOF % 2 == 1;
      DataWords(ws, r);
      hide Matches, Strip, CharsOf;
      var buffer := new byte[5 * DATA](i => 0);
      FillBuffer(buffer, lnd, size, r.Words());
      var bufpos := 5 * size;
      if !eof {
        return true, buffer[..bufpos];
      }
      if bufpos == 0 {
        return false, [];
      }
      var n := StripBuffer(buffer, bufpos);
      return true, buffer[..n];
    }

    /** The loop of writebuffer over the words. */
    method FillBuffer(buffer: array<byte>, lnd: nat, size: nat, ghost words: seq<word>)
      requires buffer.Length == 5 * DATA && datalh.Length == datarh.Length == DATA && lnd + size <= DATA && |words| == size
      requires forall i :: 0 <= i < size ==> datalh[lnd + i] == words[i] / W18 && datarh[lnd + i] == words[i] % W18
      modifies buffer
      ensures buffer[..5 * size] == CharsOf(words)
    {
      assert words[..0] == [] && words[..size] == words;
      for k := 0 to size
        invariant buffer[..5 * k] == CharsOf(words[..k])
      {
        ghost var sofar := buffer[..5 * k];
        CharsOfNext(words, k);
        var cs := Chars(datalh[lnd + k], datarh[lnd + k]);
        hide Chars, CharsOf;
        forall j | 0 <= j < 5 {
          buffer[5 * k + j] := cs[j];
        }
        assert buffer[..5 * k + 5] == sofar + cs;
      }
    }

    /** The loop that strips zeros. */
    method StripBuffer(buffer: array<byte>, count: nat) returns (bufpos: nat)
      requires 5 <= count <= buffer.Length
      ensures bufpos <= count && buffer[..bufpos] == Strip(buffer[..count], 4)
    {
      bufpos := count;
      for index := 1 to 5
        invariant count - (index - 1) <= bufpos <= count
        invariant Strip(buffer[..bufpos], 5 - index) == Strip(buffer[..count], 4)
      {
        assert buffer[..bufpos][..bufpos - 1] == buffer[..bufpos - 1];
        if buffer[bufpos - 1] == 0 {
          bufpos := bufpos - 1;
        }
      }
    }

    /** doextract, for one file that was asked for: the records from its first to the one that
        ends it. */
    method Extract(tape: seq<seq<byte>>, ghost words: seq<seq<word>>, ghost records: seq<Record>) returns (result: Option<seq<byte>>)
      requires Valid() && |tape| == |words| == |records|
      requires forall i :: 0 <= i < |tape| ==> tape[i] == Packed(words[i]) && Matches(words[i], records[i]) && records[i].Valid()
      requires forall i :: 0 <= i < |tape| ==> (records[i].sof <==> i == 0)
      modifies this`destination, rawdata, headlh, headrh, datalh, datarh
      ensures result == Extracted(records)
    {
      var extracting := false;
      destination := [];
      PrefixedNothing(Extracted(records));
      assert records[0..] == records && Extracted([]) == None;
      hide Packed, Matches, Extracted, CharsOf, Strip;
      for k := 0 to |tape|
        invariant Valid() && (extracting <==> k > 0)
        invariant Extracted(records) == Prefixed(destination, Extracted(records[k..]))
      {
        ghost var ws, r := words[k], records[k];
        ReadBlock(tape[k], ws);
        HeadFields(ws, r);
        if headrh[0] == T_FILE {
          if headlh[3] / GF_SOF % 2 == 1 {
            extracting := true;
          }
          if extracting {
            Unpack(datalh, datarh, HEADER, ws);
            var defined, bytes := WriteBuffer(ws, r);
            ExtractedNext(records, k);
            PrefixedMore(destination, bytes, Extracted(records[k + 1..]));
            if !defined {
              return None;
            }
            destination := destination + bytes;
            if headlh[3] / GF_EOF % 2 == 1 {
              return Some(destination);
            }
          }
        }
      }
      assert records[|tape|..] == [];
      return None;
    }
  }

  lemma {:induction false} PrefixedNothing(o: Option<seq<byte>>)
    ensures Prefixed([], o) == o
  {
    if o.Some? {
      assert [] + o.value == o.value;
    }
  }

  lemma {:induction false} PrefixedMore(a: seq<byte>, b: seq<byte>, o: Option<seq<byte>>)
    ensures Prefixed(a, Prefixed(b, o)) == Prefixed(a + b, o)
  {
    if o.Some? {
      Associate(a, b, o.value);
    }
  }

  ghost function Prefixed(d: seq<byte>, o: Option<seq<byte>>): Option<seq<byte>> {
    match o
    case None => None
    case Some(v) => Some(d + v)
  }

  lemma {:induction false} CharsOfNext(ws: seq<word>, k: nat)
    requires k < |ws|
    ensures CharsOf(ws[..k + 1]) == CharsOf(ws[..k]) + Chars(ws[k] / W18, ws[k] % W18)
    decreases k
  {
    if k > 0 {
      assert ws[..k + 1][1..] == ws[1..][..k] && ws[..k][1..] == ws[1..][..k - 1];
      CharsOfNext(ws[1..], k - 1);
      hide WordChars, Chars;
      Associate(WordChars(ws[0]), CharsOf(ws[1..][..k - 1]), Chars(ws[k] / W18, ws[k] % W18));
    }
  }

  /** The fields that the reader looks at. */
  lemma {:induction false} HeadFields(ws: seq<word>, r: Record)
    requires Matches(ws, r) && r.Valid()
    ensures ws[0] % W18 == T_FILE && ws[5] % W18 == r.size && ws[6] % W18 == r.lnd
    ensures ws[3] / W18 / GF_EOF % 2 == (if r.eof then 1 else 0) && ws[3] / W18 / GF_SOF % 2 == (if r.sof then 1 else 0)
  {
  }

  lemma {:induction false} DataWords(ws: seq<word>, r: Record)
    requires Matches(ws, r) && r.Valid()
    ensures forall i :: 0 <= i < r.size ==> ws[HEADER + (r.lnd + i)] == r.Words()[i]
  {
  }

  lemma {:induction false} ExtractedNext(records: seq<Record>, k: nat)
    requires k < |records| && forall r :: r in records ==> r.Valid()
    ensures var r := records[k];
      && var d := CharsOf(r.Words());
      && (d == [] <==> r.size == 0)
      && Extracted(records[k..]) ==
        if !r.eof then Prefixed(d, Extracted(records[k + 1..])) else if d == [] then None else Some(Strip(d, 4))
  {
    assert records[k..][1..] == records[k + 1..];
  }

  /** A file is saved and extracted again: the result is what was read, with expanded line ends
      in ASCII mode and without the eighth bits, exactly when that is restorable. */
  method SaveAndRestore(file: seq<byte>, ascii: bool, names: seq<word>, path: seq<word>) returns (result: Option<seq<byte>>)
    requires |names| == NAMES && |path| <= 18
    ensures var s := if ascii then Expand(file) else file;
      && (result == Some(Masked(s)) <==> Restorable(s))
      && (result == Some(s) <==> Restorable(s) && SevenBit(file))
  {
    hide Masked, Restorable, SevenBit, Extracted, Expand, FileRecords, Packed, Matches;
    ghost var s := if ascii then Expand(file) else file;
    ExpandSevenBit(file);
    FileRoundTrip(s, names);
    CharsRoundTrip(s, names);
    FirstOnly(s, names);
    var disk := new DiskReader(file, ascii);
    var writer := new Writer();
    writer.WriteFile(disk, names, path);
    assert writer.records == FileRecords(s, names);
    var extractor := new Extractor();
    result := extractor.Extract(writer.tape, writer.words, writer.records);
  }

  lemma {:induction false} LaterRecords(s: seq<byte>)
    requires s != []
    ensures forall r :: r in DataRecords(s) ==> !r.sof
    decreases |s|
  {
    assert !DataRecord(s).sof;
    hide DataRecord, After;
    if After(s) != [] {
      LaterRecords(After(s));
    }
  }

  lemma {:induction false} FirstOnly(s: seq<byte>, names: seq<word>)
    requires |names| == NAMES
    ensures var rs := FileRecords(s, names); forall i :: 0 <= i < |rs| ==> (rs[i].sof <==> i == 0)
  {
    if |s| >= BLOCK / 2 {
      LaterRecords(s);
      hide DataRecords;
    }
  }
}
