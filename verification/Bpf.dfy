/** The three packet buffers of a packet filter descriptor (bpf.c): the tap fills one, a reader
    empties another, and the third is free. */
module Bpf {
  import opened Bytes
  import opened Common

  const HEADER := 18
  const ULONG := 0x1_0000_0000

  /** A captured packet: its time stamp, its length on the wire, and the bytes kept. */
  datatype Packet = Packet(stamp: seq<byte>, datalen: nat, data: seq<byte>) {
    predicate Valid() {
      |stamp| == 8 && datalen < B32 && |data| < B32
    }
  }

  // ---------------------------------------------------------------- records in a buffer

  /** BPF_WORDALIGN */
  function WordAlign(n: nat): (r: nat)
    ensures n <= r < n + 4 && r % 4 == 0
  {
    (n + 3) / 4 * 4
  }

  lemma {:induction false} AlignIs(n: nat)
    ensures WordAlign(n) == (n + 3) / 4 * 4
  {
  }

  function Header(p: Packet, hdrlen: nat): (r: seq<byte>)
    requires p.Valid()
    ensures |r| == HEADER
  {
    p.stamp + Put4(|p.data|) + Put4(p.datalen) + Put2(hdrlen)
  }

  /** The record of `p` is in `b` at `pos`. */
  ghost predicate RecordAt(b: seq<byte>, pos: nat, hdrlen: nat, p: Packet) {
    && p.Valid() && HEADER <= hdrlen < 65536 && pos + hdrlen + |p.data| <= |b|
    && b[pos..pos + HEADER] == Header(p, hdrlen)
    && b[pos + hdrlen..pos + hdrlen + |p.data|] == p.data
  }

  function After(pos: nat, hdrlen: nat, p: Packet): (r: nat)
    ensures pos <= r && (pos % 4 == 0 ==> r % 4 == 0)
  {
    pos + WordAlign(hdrlen + |p.data|)
  }

  lemma {:induction false} AlignAdd(pos: nat, hdrlen: nat, p: Packet)
    requires pos % 4 == 0
    ensures After(pos, hdrlen, p) == WordAlign(pos + hdrlen + |p.data|)
  {
    var k, n := pos / 4, hdrlen + |p.data| + 3;
    assert (4 * k + n) / 4 == k + n / 4;
  }

  /** From `pos` on, the first `len` bytes of the buffer hold the records of `ps`, each at a
      word boundary. */
  ghost predicate Chain(b: seq<byte>, pos: nat, hdrlen: nat, ps: seq<Packet>, len: nat)
    decreases |ps|
  {
    if ps == [] then pos == WordAlign(len)
    else
      && RecordAt(b, pos, hdrlen, ps[0]) && pos + hdrlen + |ps[0].data| <= len
      && Chain(b, After(pos, hdrlen, ps[0]), hdrlen, ps[1..], len)
  }

  ghost predicate Holds(b: seq<byte>, len: nat, hdrlen: nat, ps: seq<Packet>) {
    len <= |b| && Chain(b, 0, hdrlen, ps, len)
  }

  /** A record behind the others, at the next word boundary. */
  lemma {:induction false} ChainAppend(b: seq<byte>, b': seq<byte>, pos: nat, hdrlen: nat, ps: seq<Packet>, len: nat, p: Packet)
    requires Chain(b, pos, hdrlen, ps, len) && pos % 4 == 0
    requires len <= |b| && len <= |b'| && b[..len] == b'[..len]
    requires RecordAt(b', WordAlign(len), hdrlen, p)
    ensures Chain(b', pos, hdrlen, ps + [p], WordAlign(len) + hdrlen + |p.data|)
    decreases |ps|
  {
    hide RecordAt, WordAlign, After;
    if ps == [] {
      AlignAdd(pos, hdrlen, p);
      assert [] + [p] == [p] && [p][1..] == [];
      var len' := pos + hdrlen + |p.data|;
      assert Chain(b', After(pos, hdrlen, p), hdrlen, [], len');
    } else {
      RecordFrame(b, b', pos, hdrlen, ps[0], len);
      ChainAppend(b, b', After(pos, hdrlen, ps[0]), hdrlen, ps[1..], len, p);
      assert (ps + [p])[1..] == ps[1..] + [p];
    }
  }

  lemma {:induction false} RecordFrame(b: seq<byte>, b': seq<byte>, pos: nat, hdrlen: nat, p: Packet, len: nat)
    requires RecordAt(b, pos, hdrlen, p) && pos + hdrlen + |p.data| <= len
    requires len <= |b| && len <= |b'| && b[..len] == b'[..len]
    ensures RecordAt(b', pos, hdrlen, p)
  {
    assert b[pos..pos + HEADER] == b[..len][pos..pos + HEADER];
    assert b'[pos..pos + HEADER] == b'[..len][pos..pos + HEADER];
    assert b[pos + hdrlen..pos + hdrlen + |p.data|] == b[..len][pos + hdrlen..pos + hdrlen + |p.data|];
    assert b'[pos + hdrlen..pos + hdrlen + |p.data|] == b'[..len][pos + hdrlen..pos + hdrlen + |p.data|];
  }

  /** The records depend on the first `len` bytes only. */
  lemma {:induction false} ChainFrame(b: seq<byte>, b': seq<byte>, pos: nat, hdrlen: nat, ps: seq<Packet>, len: nat)
    requires Chain(b, pos, hdrlen, ps, len)
    requires len <= |b| && len <= |b'| && b[..len] == b'[..len]
    ensures Chain(b', pos, hdrlen, ps, len)
    decreases |ps|
  {
    hide RecordAt, After;
    if ps != [] {
      RecordFrame(b, b', pos, hdrlen, ps[0], len);
      ChainFrame(b, b', After(pos, hdrlen, ps[0]), hdrlen, ps[1..], len);
    }
  }

  lemma {:induction false} NothingHeld(b: seq<byte>, hdrlen: nat)
    ensures Holds(b, 0, hdrlen, [])
  {
  }

  lemma {:induction false} OneMoreHeld(b: seq<byte>, b': seq<byte>, len: nat, hdrlen: nat, ps: seq<Packet>, p: Packet)
    requires Holds(b, len, hdrlen, ps) && |b| == |b'| && WordAlign(len) + hdrlen + |p.data| <= |b|
    requires b[..WordAlign(len)] == b'[..WordAlign(len)] && RecordAt(b', WordAlign(len), hdrlen, p)
    ensures Holds(b', WordAlign(len) + hdrlen + |p.data|, hdrlen, ps + [p])
  {
    hide Chain, RecordAt, WordAlign;
    assert b[..len] == b[..WordAlign(len)][..len] && b'[..len] == b'[..WordAlign(len)][..len];
    ChainAppend(b, b', 0, hdrlen, ps, len, p);
  }

  // ---------------------------------------------------------------- the descriptor

  /** What became of the packets: those captured are delivered to the reader, or in the hold
      or the store buffer. */
  datatype Log = Log(captured: seq<Packet>, delivered: seq<Packet>, held: seq<Packet>, stored: seq<Packet>, filtered: nat)

  datatype Phase = Idle | Checking | Asleep | Copying

  datatype Errno = NoError | Invalid | Interrupted | WouldBlock | Fault

  class Descriptor {
    var sbuf: array<byte>
    var hbuf: array?<byte>
    var fbuf: array?<byte>
    var slen: nat
    var hlen: nat
    const bufsize: nat
    const hdrlen: nat
    var rtout: nat
    var rdStart: nat
    var immediate: bool
    var rcount: nat
    var dcount: nat
    /** Where a reader is: before or after its sleep, or in the middle of uiomove. */
    var phase: Phase

    ghost var log: Log

    ghost predicate Slots()
      reads this
    {
      && HEADER <= hdrlen <= bufsize && hdrlen < 65536 && bufsize < B32
      && sbuf.Length == bufsize && slen <= bufsize && hlen <= bufsize
      && (hbuf == null <==> fbuf != null)
      && (hbuf != null ==> hbuf != sbuf && hbuf.Length == bufsize)
      && (fbuf != null ==> fbuf != sbuf && fbuf.Length == bufsize)
    }

    ghost predicate Valid()
      reads this, sbuf, hbuf, fbuf
    {
      && Slots()
      && Holds(sbuf[..], slen, hdrlen, log.stored)
      && (if hbuf == null then log.held == [] && hlen == 0 else Holds(hbuf[..], hlen, hdrlen, log.held))
      && log.captured == log.delivered + log.held + log.stored
      && (phase == Copying ==> hbuf != null)
    }

    /** Every packet that was received is accounted for. */
    ghost predicate Counted()
      reads this
    {
      rcount == |log.captured| + log.filtered + dcount
    }

    /** After bpf_allocbufs. */
    constructor (bufsize: nat, hdrlen: nat, rtout: nat, immediate: bool)
      requires HEADER <= hdrlen <= bufsize < B32 && hdrlen < 65536 && rtout < ULONG
      ensures Valid() && Counted() && phase == Idle && log.captured == [] && fresh(sbuf) && fbuf != null && fresh(fbuf)
    {
      this.bufsize, this.hdrlen, this.rtout, this.immediate := bufsize, hdrlen, rtout, immediate;
      var f := new byte[bufsize](i => 0);
      var s := new byte[bufsize](i => 0);
      fbuf, sbuf, hbuf := f, s, null;
      slen, hlen, rdStart, rcount, dcount, phase := 0, 0, 0, 0, 0, Idle;
      log := Log([], [], [], [], 0);
    }

    /** ROTATE_BUFFERS: never while the hold slot is occupied. */
    method Rotate()
      requires Valid() && fbuf != null
      modifies this`sbuf, this`hbuf, this`fbuf, this`slen, this`hlen, this`log
      ensures Valid() && hbuf == old(sbuf) && sbuf == old(fbuf) && slen == 0
      ensures log == old(log).(held := old(log.stored), stored := [])
    {
      ghost var b, f := sbuf[..], fbuf[..];
      NothingHeld(f, hdrlen);
      assert log.delivered + log.held + log.stored == log.delivered + log.stored + [];
      hide Holds;
      hbuf := sbuf;
      hlen := slen;
      sbuf := fbuf;
      slen := 0;
      fbuf := null;
      log := log.(held := log.stored, stored := []);
      assert hbuf[..] == b && sbuf[..] == f;
    }

    /** The header and the bytes of a packet go into the store buffer at `curlen`. */
    method Store(curlen: nat, p: Packet)
      requires p.Valid() && HEADER <= hdrlen < 65536 && curlen + hdrlen + |p.data| <= sbuf.Length
      modifies sbuf
      ensures RecordAt(sbuf[..], curlen, hdrlen, p)
      ensures sbuf[..curlen] == old(sbuf[..curlen])
    {
      var h := Header(p, hdrlen);
      forall k | 0 <= k < HEADER {
        sbuf[curlen + k] := h[k];
      }
      assert sbuf[curlen..curlen + HEADER] == h;
      forall k | 0 <= k < |p.data| {
        sbuf[curlen + hdrlen + k] := p.data[k];
      }
      assert sbuf[curlen..curlen + HEADER] == h;
    }

    /** The number of bytes that a packet takes, with its header. */
    function Size(pktlen: nat, snaplen: nat): (n: nat)
      requires hdrlen <= bufsize
      ensures hdrlen <= n <= bufsize && n <= hdrlen + pktlen
    {
      var n := hdrlen + if snaplen < pktlen then snaplen else pktlen;
      if n > bufsize then bufsize else n
    }

    lemma {:induction false} SizeIs(pktlen: nat, snaplen: nat)
      requires hdrlen <= bufsize
      ensures var n := if snaplen < pktlen then snaplen else pktlen;
        Size(pktlen, snaplen) - hdrlen == if n < bufsize - hdrlen then n else bufsize - hdrlen
    {
    }

    /** What is kept of a packet. */
    function Kept(pkt: seq<byte>, snaplen: nat, stamp: seq<byte>): Packet
      requires hdrlen <= bufsize
    {
      Packet(stamp, |pkt|, pkt[..Size(|pkt|, snaplen) - hdrlen])
    }

    /** The packet itself, when there is room. */
    method Append(curlen: nat, p: Packet)
      requires Valid() && p.Valid() && curlen == WordAlign(slen) && curlen + hdrlen + |p.data| <= bufsize
      modifies this`slen, this`log, sbuf
      ensures Valid() && log == old(log).(captured := old(log.captured) + [p], stored := old(log.stored) + [p])
    {
      hide Holds, RecordAt, WordAlign;
      ghost var b := sbuf[..];
      Store(curlen, p);
      assert b[..curlen] == sbuf[..][..curlen];
      OneMoreHeld(b, sbuf[..], slen, hdrlen, log.stored, p);
      assert log.captured + [p] == log.delivered + log.held + (log.stored + [p]);
      slen := curlen + hdrlen + |p.data|;
      log := log.(captured := log.captured + [p], stored := log.stored + [p]);
    }

    /** bpf_catchpacket, for a packet `pkt` of which `snaplen` bytes are wanted. */
    method CatchPacket(pkt: seq<byte>, snaplen: nat, stamp: seq<byte>, ticks: nat) returns (wakeup: bool)
      requires Valid() && |stamp| == 8 && |pkt| < B32
      modifies this`sbuf, this`hbuf, this`fbuf, this`slen, this`hlen, this`log
      modifies this`dcount, this`rdStart, sbuf, fbuf
      ensures Valid() && log.delivered == old(log.delivered) && log.filtered == old(log.filtered)
      ensures
        var n := if snaplen < |pkt| then snaplen else |pkt|;
        var k := if n < bufsize - hdrlen then n else bufsize - hdrlen;
        var p := Packet(stamp, |pkt|, pkt[..k]);
        var fits := (old(slen) + 3) / 4 * 4 + hdrlen + k <= bufsize;
        var late := old(rdStart) != 0 && (rtout + old(rdStart)) % 0x1_0000_0000 < ticks;
        if !fits && old(fbuf) == null then
          log == old(log) && dcount == old(dcount) + 1 && rdStart == old(rdStart) && !wakeup
        else
          && log.captured == old(log.captured) + [p] && dcount == old(dcount)
          && (wakeup <==> immediate || !fits || (old(fbuf) != null && late))
          && if !fits then log.held == old(log.stored) && log.stored == [p] && rdStart == old(rdStart)
             else if old(fbuf) != null && late then log.held == old(log.stored) + [p] && log.stored == [] && rdStart == 0
             else log.held == old(log.held) && log.stored == old(log.stored) + [p] && rdStart == old(rdStart)
      ensures old(hbuf) != null ==> hbuf == old(hbuf) && hlen == old(hlen) && log.held == old(log.held) && hbuf[..] == old(hbuf[..])
      ensures old(hbuf) == null && hbuf != null ==> wakeup
    {
      hide Holds, Size, WordAlign;
      SizeIs(|pkt|, snaplen);
      AlignIs(slen);
      var fits, captured := Capture(Kept(pkt, snaplen, stamp), Size(|pkt|, snaplen));
      if !captured {
        dcount := dcount + 1;
        return false;
      }
      wakeup := immediate || !fits;
      var late := RotateLate(ticks);
      if late {
        wakeup := true;
      }
    }

    /** Its first part: the packet goes behind those stored, or into the free buffer, or nowhere. */
    method Capture(p: Packet, totlen: nat) returns (fits: bool, captured: bool)
      requires Valid() && p.Valid() && hdrlen + |p.data| == totlen <= bufsize
      modifies this`sbuf, this`hbuf, this`fbuf, this`slen, this`hlen, this`log, sbuf, fbuf
      ensures Valid() && (fits <==> WordAlign(old(slen)) + totlen <= bufsize) && (captured <==> fits || old(fbuf) != null)
      ensures !captured ==> log == old(log) && fbuf == old(fbuf)
      ensures captured && fits ==>
        log == old(log).(captured := old(log.captured) + [p], stored := old(log.stored) + [p]) && fbuf == old(fbuf)
      ensures captured && !fits ==>
        log == old(log).(captured := old(log.captured) + [p], held := old(log.stored), stored := [p]) && fbuf == null
      ensures old(hbuf) != null ==> hbuf == old(hbuf) && hlen == old(hlen) && hbuf[..] == old(hbuf[..])
      ensures old(hbuf) == null && fits ==> hbuf == null
    {
      hide Holds, WordAlign;
      var curlen := WordAlign(slen);
      fits := curlen + totlen <= bufsize;
      captured := true;
      if !fits {
        if fbuf == null {
          captured := false;
          return;
        }
        Rotate();
        assert [] + [p] == [p];
        curlen := 0;
      }
      Append(curlen, p);
    }

    /** The end of bpf_catchpacket: a read that began longer ago than its timeout gets what is there. */
    method RotateLate(ticks: nat) returns (late: bool)
      requires Valid()
      modifies this`sbuf, this`hbuf, this`fbuf, this`slen, this`hlen, this`log, this`rdStart
      ensures Valid()
      ensures late <==> old(fbuf) != null && old(rdStart) != 0 && (rtout + old(rdStart)) % 0x1_0000_0000 < ticks
      ensures late ==> rdStart == 0 && log == old(log).(held := old(log.stored), stored := []) && hbuf == old(sbuf)
      ensures !late ==> rdStart == old(rdStart) && log == old(log) && slen == old(slen)
      ensures !late ==> sbuf == old(sbuf) && hbuf == old(hbuf) && fbuf == old(fbuf) && hlen == old(hlen)
    {
      hide Holds;
      late := false;
      if rdStart != 0 && (rtout + rdStart) % ULONG < ticks {
        if fbuf != null {
          rdStart := 0;
          Rotate();
          late := true;
        }
      }
    }

    /** bpf_tap, for this descriptor: `snaplen` is what its filter says. */
    method Tap(pkt: seq<byte>, snaplen: nat, stamp: seq<byte>, ticks: nat) returns (wakeup: bool)
      requires Valid() && Counted() && |stamp| == 8 && |pkt| < B32
      modifies this`sbuf, this`hbuf, this`fbuf, this`slen, this`hlen, this`log
      modifies this`dcount, this`rcount, this`rdStart, sbuf, fbuf
      ensures Valid() && Counted() && rcount == old(rcount) + 1 && log.delivered == old(log.delivered)
      ensures old(hbuf) != null ==> hbuf == old(hbuf) && hlen == old(hlen) && log.held == old(log.held) && hbuf[..] == old(hbuf[..])
      ensures snaplen == 0 ==> log.captured == old(log.captured) && dcount == old(dcount)
      ensures snaplen != 0 ==>
        var n := if snaplen < |pkt| then snaplen else |pkt|;
        var k := if n < bufsize - hdrlen then n else bufsize - hdrlen;
        if old(fbuf) == null && (old(slen) + 3) / 4 * 4 + hdrlen + k > bufsize
        then log.captured == old(log.captured) && dcount == old(dcount) + 1
        else log.captured == old(log.captured) + [Packet(stamp, |pkt|, pkt[..k])] && dcount == old(dcount)
      ensures old(hbuf) == null && hbuf != null ==> wakeup
    {
      hide Holds, Kept, Size;
      wakeup := false;
      rcount := rcount + 1;
      if snaplen != 0 {
        wakeup := CatchPacket(pkt, snaplen, stamp, ticks);
      } else {
        log := log.(filtered := log.filtered + 1);
      }
    }

    // -------------------------------------------------------------- the reader

    /** The start of bpfread. */
    method StartRead(resid: nat, ticks: nat) returns (error: Errno)
      requires Valid() && phase == Idle
      modifies this`rdStart, this`phase
      ensures Valid()
      ensures error == (if resid == bufsize then NoError else Invalid)
      ensures phase == (if resid == bufsize then Checking else Idle)
      ensures rdStart == if resid != bufsize then old(rdStart) else if rtout != 0xFFFF_FFFF && old(rdStart) == 0 then ticks else 0
    {
      if resid != bufsize {
        return Invalid;
      }
      if rtout != ULONG - 1 && rdStart == 0 {
        rdStart := ticks;
      } else {
        rdStart := 0;
      }
      phase := Checking;
      return NoError;
    }

    /** The loop of bpfread up to its sleep, or past it when there is nothing to wait for. With
        nothing to take, a read sleeps. One that is not to block does not, unless its start and its
        timeout, added up, come before now. */
    method Check(ticks: nat) returns (done: bool)
      requires Valid() && phase == Checking
      modifies this`sbuf, this`hbuf, this`fbuf, this`slen, this`hlen, this`log, this`phase
      ensures Valid() && (done <==> phase == Idle) && (phase == Asleep ==> hbuf == null)
      ensures log.captured == old(log.captured) && log.delivered == old(log.delivered) && log.filtered == old(log.filtered)
      ensures done ==> old(hbuf) == null && old(slen) == 0
      ensures old(hbuf) != null ==> phase == Copying && hbuf == old(hbuf) && hlen == old(hlen) && log.held == old(log.held)
      ensures old(hbuf) == null && immediate && old(slen) != 0 ==> phase == Copying && log.held == old(log.stored)
      ensures old(hbuf) == null && !(immediate && old(slen) != 0) ==>
        phase == if rtout != 0xFFFF_FFFF || (rdStart + rtout) % 0x1_0000_0000 < ticks then Asleep
          else if old(slen) == 0 then Idle else Copying
      ensures phase == Asleep || done ==> log == old(log) && slen == old(slen)
      ensures old(hbuf) == null && phase == Copying ==> log.held == old(log.stored)
    {
      hide Holds;
      done := false;
      if hbuf != null {
        phase := Copying;
      } else if immediate && slen != 0 {
        Rotate();
        phase := Copying;
      } else if rtout != ULONG - 1 || (rdStart + rtout) % ULONG < ticks {
        phase := Asleep;
      } else {
        done := Awake(WouldBlock);
      }
    }

    /** The loop of bpfread after its sleep. */
    method Awake(error: Errno) returns (done: bool)
      requires Valid() && phase in {Checking, Asleep}
      modifies this`sbuf, this`hbuf, this`fbuf, this`slen, this`hlen, this`log, this`phase
      ensures Valid() && (done <==> phase == Idle)
      ensures log.captured == old(log.captured) && log.delivered == old(log.delivered) && log.filtered == old(log.filtered)
      ensures error == Interrupted ==> done && log.held == old(log.held) && log.stored == old(log.stored)
      ensures error == WouldBlock ==> (done <==> old(hbuf) == null && old(slen) == 0) && (!done ==> phase == Copying)
      ensures error == WouldBlock && old(hbuf) == null && !done ==> log.held == old(log.stored)
      ensures done ==> log == old(log) && slen == old(slen)
      ensures error !in {Interrupted, WouldBlock} ==> phase == Checking && log.held == old(log.held) && log.stored == old(log.stored)
      ensures old(hbuf) != null ==> hbuf == old(hbuf) && hlen == old(hlen) && log.held == old(log.held)
    {
      hide Holds;
      done := false;
      if error == Interrupted {
        phase := Idle;
        return true;
      }
      phase := Checking;
      if error == WouldBlock {
        if hbuf == null {
          if slen == 0 {
            phase := Idle;
            return true;
          }
          Rotate();
        }
        phase := Copying;
      }
    }

    /** uiomove: the reader gets the bytes of the hold buffer. */
    method Copy() returns (data: seq<byte>)
      requires Valid() && phase == Copying
      ensures data == hbuf[..hlen] && Holds(data, |data|, hdrlen, log.held)
    {
      data := hbuf[..hlen];
      ChainFrame(hbuf[..], data, 0, hdrlen, log.held, hlen);
    }

    /** The end of bpfread. */
    method FinishRead()
      requires Valid() && phase == Copying
      modifies this`hbuf, this`fbuf, this`hlen, this`phase, this`log
      ensures Valid() && phase == Idle && hbuf == null && fbuf == old(hbuf)
      ensures log == old(log).(delivered := old(log.delivered + log.held), held := [])
    {
      fbuf := hbuf;
      hbuf := null;
      hlen := 0;
      phase := Idle;
      log := log.(delivered := log.delivered + log.held, held := []);
    }

    /** bpf_reset_d, when no reader is copying. */
    method Reset()
      requires Valid() && phase != Copying
      modifies this`hbuf, this`fbuf, this`slen, this`hlen, this`rcount, this`dcount
      modifies this`log
      ensures Valid() && Counted() && rcount == 0 && log.captured == [] && hbuf == null && slen == 0
    {
      hide Holds;
      ghost var b := sbuf[..];
      NothingHeld(b, hdrlen);
      if hbuf != null {
        fbuf := hbuf;
        hbuf := null;
      }
      slen := 0;
      hlen := 0;
      rcount := 0;
      dcount := 0;
      log := Log([], [], [], [], 0);
      assert sbuf[..] == b;
    }
  }

  // ---------------------------------------------------------------- the consumer

  lemma {:induction false} HeaderParts(p: Packet, hdrlen: nat)
    requires p.Valid()
    ensures Header(p, hdrlen)[..8] == p.stamp && Header(p, hdrlen)[8..12] == Put4(|p.data|)
    ensures Header(p, hdrlen)[12..16] == Put4(p.datalen) && Header(p, hdrlen)[16..18] == Put2(hdrlen)
  {
    hide Put2, Put4;
  }

  lemma {:induction false} RecordHeader(b: seq<byte>, pos: nat, hdrlen: nat, p: Packet)
    requires RecordAt(b, pos, hdrlen, p)
    ensures p.Valid() && hdrlen < 65536 && pos + HEADER <= |b| && b[pos..pos + HEADER] == Header(p, hdrlen)
  {
  }

  /** A record in bytes: the time stamp, the captured length, the length on the wire and the header
      length, each with its low byte first, and the data after as many bytes as the header takes. */
  lemma {:induction false} RecordBytes(b: seq<byte>, pos: nat, hdrlen: nat, p: Packet)
    requires RecordAt(b, pos, hdrlen, p)
    ensures pos + hdrlen + |p.data| <= |b| && b[pos + hdrlen..pos + hdrlen + |p.data|] == p.data && 18 <= hdrlen
    ensures b[pos..pos + 8] == p.stamp
    ensures |p.data| == b[pos + 8] + 0x100 * (b[pos + 9] as int) + 0x1_0000 * (b[pos + 10] as int) + 0x100_0000 * (b[pos + 11] as int)
    ensures p.datalen == b[pos + 12] + 0x100 * (b[pos + 13] as int) + 0x1_0000 * (b[pos + 14] as int) + 0x100_0000 * (b[pos + 15] as int)
    ensures hdrlen == b[pos + 16] + 0x100 * (b[pos + 17] as int)
  {
    hide Header, Put4, Put2;
    HeaderFields(b, pos, hdrlen, p);
    HeaderParts(p, hdrlen);
    SliceOfSlice(b, pos, pos + HEADER, 0, 8);
    SliceOfSlice(b, pos, pos + HEADER, 12, 16);
    Get4Put4(b, pos + 12, p.datalen);
  }

  /** The header length and the packet length that a record gives. */
  lemma {:induction false} HeaderFields(b: seq<byte>, pos: nat, hdrlen: nat, p: Packet)
    requires RecordAt(b, pos, hdrlen, p)
    ensures pos + HEADER <= |b| && Get4(b, pos + 8) == |p.data| && Get2(b, pos + 16) == hdrlen
  {
    hide RecordAt, Header, Put2, Put4, Get2, Get4;
    RecordHeader(b, pos, hdrlen, p);
    HeaderParts(p, hdrlen);
    SliceOfSlice(b, pos, pos + HEADER, 8, 12);
    SliceOfSlice(b, pos, pos + HEADER, 16, 18);
    Get4Put4(b, pos + 8, |p.data|);
    Get2Put2(b, pos + 16, hdrlen);
  }

  /** The read buffer of eth_bpf.h. */
  class Consumer {
    const buffer: array<byte>
    var bufpos: nat
    var buflen: nat

    constructor (bufsiz: nat)
      ensures fresh(buffer) && buffer.Length == bufsiz && bufpos == buflen == 0
    {
      buffer := new byte[bufsiz](i => 0);
      bufpos, buflen := 0, 0;
    }

    /** What is left of the buffer holds the records of `ps`. */
    ghost predicate Has(hdrlen: nat, ps: seq<Packet>)
      reads this, buffer
    {
      buflen <= buffer.Length && Chain(buffer[..], bufpos, hdrlen, ps, buflen)
    }

    /** A read from the descriptor. */
    method Load(data: seq<byte>, ghost hdrlen: nat, ghost ps: seq<Packet>)
      requires |data| <= buffer.Length && Holds(data, |data|, hdrlen, ps)
      modifies this, buffer
      ensures Has(hdrlen, ps)
    {
      forall k | 0 <= k < |data| {
        buffer[k] := data[k];
      }
      bufpos, buflen := 0, |data|;
      assert data[..|data|] == buffer[..][..|data|];
      ChainFrame(data, buffer[..], 0, hdrlen, ps, |data|);
    }

    lemma {:induction false} FirstRecord(hdrlen: nat, ps: seq<Packet>)
      requires Has(hdrlen, ps) && bufpos < buflen
      ensures buflen <= buffer.Length && ps != [] && bufpos + HEADER <= buffer.Length
      ensures Get4(buffer[..], bufpos + 8) == |ps[0].data| && Get2(buffer[..], bufpos + 16) == hdrlen
      ensures bufpos + hdrlen + |ps[0].data| <= buffer.Length
      ensures Slice(buffer[..], bufpos + hdrlen, bufpos + hdrlen + |ps[0].data|) == ps[0].data
      ensures Chain(buffer[..], bufpos + WordAlign(hdrlen + |ps[0].data|), hdrlen, ps[1..], buflen)
    {
      hide Chain, WordAlign, Get2, Get4, Slice;
      ThisRecord(buffer[..], bufpos, hdrlen, ps, buflen);
    }

    /** One record. */
    method Take(ghost hdrlen: nat, ghost ps: seq<Packet>) returns (packet: seq<byte>)
      requires Has(hdrlen, ps) && bufpos < buflen
      modifies this`bufpos
      ensures ps != [] && packet == ps[0].data && Has(hdrlen, ps[1..])
    {
      hide Has, Chain, WordAlign, Get2, Get4, Slice;
      FirstRecord(hdrlen, ps);
      var b := buffer[..];
      var h := Get2(b, bufpos + 16);
      var caplen := Get4(b, bufpos + 8);
      assert h == hdrlen && caplen == |ps[0].data|;
      packet := Slice(b, bufpos + h, bufpos + h + caplen);
      Skip(h + caplen, hdrlen, ps[1..]);
    }

    method Skip(n: nat, ghost hdrlen: nat, ghost ps: seq<Packet>)
      requires buflen <= buffer.Length && Chain(buffer[..], bufpos + WordAlign(n), hdrlen, ps, buflen)
      modifies this`bufpos
      ensures Has(hdrlen, ps)
    {
      hide Chain, WordAlign;
      bufpos := bufpos + WordAlign(n);
    }

    /** The walk of eth_read over one buffer: the first packet that passes the check. */
    method Walk(check: seq<byte> -> bool, ghost hdrlen: nat, ghost ps: seq<Packet>)
        returns (found: bool, packet: seq<byte>, ghost k: nat)
      requires Has(hdrlen, ps)
      modifies this`bufpos
      ensures k <= |ps| && forall i :: 0 <= i < k ==> !check(ps[i].data)
      ensures found <==> k < |ps|
      ensures found ==> packet == ps[k].data && check(packet) && Has(hdrlen, ps[k + 1..])
    {
      found, packet, k := false, [], 0;
      assert ps[0..] == ps;
      while bufpos < buflen
        invariant k <= |ps| && Has(hdrlen, ps[k..])
        invariant forall i :: 0 <= i < k ==> !check(ps[i].data)
        decreases |ps| - k
      {
        hide Has;
        packet := Take(hdrlen, ps[k..]);
        assert ps[k..][1..] == ps[k + 1..];
        if check(packet) {
          found := true;
          return;
        }
        k := k + 1;
      }
    }

    /** The read in eth_read: what the descriptor holds becomes what the walk is to find. */
    method Fetch(d: Descriptor)
      requires d.Valid() && d.phase == Copying && d.bufsize <= buffer.Length && buffer != d.sbuf && buffer != d.hbuf
      modifies this, buffer, d`hbuf, d`fbuf, d`hlen, d`phase, d`log
      ensures d.Valid() && d.phase == Idle && Has(d.hdrlen, old(d.log.held))
      ensures d.log == old(d.log).(delivered := old(d.log.delivered + d.log.held), held := [])
    {
      ghost var ps := d.log.held;
      var data := d.Copy();
      assert |data| <= buffer.Length;
      hide Holds, Chain, Has;
      Load(data, d.hdrlen, ps);
      d.FinishRead();
    }

    /** eth_read until the buffer is used up. */
    method WalkAll(check: seq<byte> -> bool, ghost hdrlen: nat, ghost ps: seq<Packet>) returns (packets: seq<seq<byte>>)
      requires Has(hdrlen, ps)
      modifies this`bufpos
      ensures packets == Wanted(ps, check)
    {
      packets := [];
      ghost var rest := ps;
      var found := true;
      hide Has, Wanted;
      while found
        invariant if found then packets + Wanted(rest, check) == Wanted(ps, check) else packets == Wanted(ps, check)
        invariant found ==> Has(hdrlen, rest)
        decreases found, |rest|
      {
        var packet;
        ghost var k;
        found, packet, k := Walk(check, hdrlen, rest);
        WantedSkip(rest, check, k);
        if found {
          WantedNext(packets, rest, check, k);
          packets := packets + [packet];
          rest := rest[k + 1..];
        }
      }
    }

    /** From the tap to the reader: the packets that were captured and are wanted, whole and in
        order. */
    method ReadAll(d: Descriptor, check: seq<byte> -> bool) returns (packets: seq<seq<byte>>)
      requires d.Valid() && d.phase == Copying && d.bufsize <= buffer.Length && buffer != d.sbuf && buffer != d.hbuf
      modifies this, buffer, d`hbuf, d`fbuf, d`hlen, d`phase, d`log
      ensures d.Valid() && d.phase == Idle && packets == Wanted(old(d.log.held), check)
      ensures d.log == old(d.log).(delivered := old(d.log.delivered + d.log.held), held := [])
    {
      ghost var ps := d.log.held;
      hide Has, Wanted, Holds;
      Fetch(d);
      packets := WalkAll(check, d.hdrlen, ps);
    }
  }

  function Slice(b: seq<byte>, i: nat, j: nat): seq<byte>
    requires i <= j <= |b|
  {
    b[i..j]
  }

  /** The packets that pass the check. */
  function Wanted(ps: seq<Packet>, check: seq<byte> -> bool): seq<seq<byte>> {
    if ps == [] then [] else (if check(ps[0].data) then [ps[0].data] else []) + Wanted(ps[1..], check)
  }

  lemma {:induction false} WantedSkip(ps: seq<Packet>, check: seq<byte> -> bool, k: nat)
    requires k <= |ps| && forall i :: 0 <= i < k ==> !check(ps[i].data)
    ensures Wanted(ps, check) == Wanted(ps[k..], check) && (k == |ps| ==> Wanted(ps, check) == [])
  {
    if k > 0 {
      WantedSkip(ps[1..], check, k - 1);
      assert ps[1..][k - 1..] == ps[k..];
    } else {
      assert ps[0..] == ps;
    }
  }

  lemma {:induction false} WantedNext(done: seq<seq<byte>>, ps: seq<Packet>, check: seq<byte> -> bool, k: nat)
    requires k < |ps| && check(ps[k].data)
    ensures done + Wanted(ps[k..], check) == (done + [ps[k].data]) + Wanted(ps[k + 1..], check)
  {
    assert ps[k..][1..] == ps[k + 1..];
  }

  lemma {:induction false} ThisRecord(b: seq<byte>, pos: nat, hdrlen: nat, ps: seq<Packet>, len: nat)
    requires Chain(b, pos, hdrlen, ps, len) && pos < len
    ensures ps != [] && pos + HEADER <= |b| && Get4(b, pos + 8) == |ps[0].data| && Get2(b, pos + 16) == hdrlen
    ensures pos + hdrlen + |ps[0].data| <= |b| && Slice(b, pos + hdrlen, pos + hdrlen + |ps[0].data|) == ps[0].data
    ensures Chain(b, pos + WordAlign(hdrlen + |ps[0].data|), hdrlen, ps[1..], len)
  {
    HeaderFields(b, pos, hdrlen, ps[0]);
    hide Get4, Get2, Header;
  }
}
