/** An end of the tunnel (stuk3.c): the buffers, their counts and the two cipher states. */
module TunnelPeer {
  import opened Arc4
  import opened Bytes
  import opened Common
  import opened Tunnel

  const SALT := 8
  const KEYMAX := 248

  /** The salt and the part of the key that is used. */
  function FullKey(key: seq<byte>, salt: seq<byte>): (r: seq<byte>)
    requires |salt| == SALT
    ensures |r| == 8 + (if |key| < 248 then |key| else 248)
    ensures forall i :: 0 <= i < |r| ==> r[i] == if i < 8 then salt[i] else key[i - 8]
  {
    salt + (if |key| > KEYMAX then key[..KEYMAX] else key)
  }

  class Peer {
    const keyed: bool
    const key: seq<byte>
    var rxsalt: seq<byte>
    var txsalt: seq<byte>
    const fullkey: array<byte>
    var keylen: nat
    const txs: Stream
    const rxs: Stream
    const tcibuf: array<byte>
    const tcobuf: array<byte>
    var tcipos: nat
    var tcopos: nat
    var tcocount: nat

    ghost predicate Valid()
      reads this
    {
      && txs != rxs && txs.s.Length == 256 && rxs.s.Length == 256 && fullkey.Length == 256
      && tcibuf.Length == 4 + MAXBUF && tcobuf.Length == 4 + MAXBUF
      && tcibuf != tcobuf && txs.s != rxs.s
      && tcibuf != txs.s && tcibuf != rxs.s && tcobuf != txs.s && tcobuf != rxs.s
      && fullkey !in {tcibuf, tcobuf, txs.s, rxs.s}
      && tcipos <= 4 + MAXBUF && tcopos + tcocount <= 4 + MAXBUF
    }

    ghost function TheSender(): (s: Sender)
      requires Valid()
      reads this, txs, txs.s, tcobuf
      ensures s.txs.Valid()
    {
      Sender(keyed, txs.State(), tcobuf[tcopos..tcopos + tcocount])
    }

    ghost function TheReceiver(): (r: Receiver)
      requires Valid()
      reads this, rxs, rxs.s, tcibuf
      ensures r.rxs.Valid()
    {
      Receiver(keyed, rxs.State(), tcibuf[..tcipos])
    }

    /** Just `bs` is to be sent, ciphered from the state `c` on if there is a key. */
    ghost predicate Holds(c: Cipher, bs: seq<byte>)
      requires Valid() && c.Valid()
      reads this, txs, txs.s, tcobuf
    {
      && tcopos == 0 && tcocount == |bs|
      && tcobuf[..tcocount] == (if keyed then Crypt(c, bs) else bs)
      && txs.State() == if keyed then Advance(c, |bs|) else c
    }

    constructor (keyed: bool, key: seq<byte>)
      ensures Valid() && TheReceiver().buffer == [] && TheSender().pending == []
      ensures this.keyed == keyed && this.key == key
      ensures fresh(txs) && fresh(rxs) && fresh(txs.s) && fresh(rxs.s) && fresh(tcibuf) && fresh(tcobuf) && fresh(fullkey)
    {
      this.keyed, this.key := keyed, key;
      rxsalt, txsalt, keylen := [], [], 0;
      var t := new Stream();
      var r := new Stream();
      txs, rxs := t, r;
      var i := new byte[4 + MAXBUF](n => 0);
      var o := new byte[4 + MAXBUF](n => 0);
      tcibuf, tcobuf := i, o;
      fullkey := new byte[256](n => 0);
      tcipos, tcopos, tcocount := 0, 0, 0;
    }

    // -------------------------------------------------------------- authentication

    /** setupkey */
    method SetupKey(salt: seq<byte>)
      requires |salt| == SALT && fullkey.Length == 256
      modifies this`keylen, fullkey
      ensures keylen == 8 + (if |key| < 248 then |key| else 248)
      ensures fullkey[..8] == salt && fullkey[8..keylen] == key[..keylen - 8]
    {
      for i := 0 to SALT
        invariant fullkey[..i] == salt[..i]
      {
        fullkey[i] := salt[i];
      }
      var j := if |key| > KEYMAX then KEYMAX else |key|;
      for i := 0 to j
        invariant fullkey[..SALT + i] == salt + key[..i]
      {
        fullkey[i + SALT] := key[i];
      }
      keylen := j + SALT;
    }

    /** A cipher state from a salt. */
    method SetupStream(st: Stream, salt: seq<byte>)
      requires |salt| == SALT && fullkey.Length == 256 && st.s.Length == 256 && fullkey != st.s
      modifies this`keylen, fullkey, st, st.s
      ensures st.State() == Scheduling(FullKey(key, salt), 256)
    {
      SetupKey(salt);
      assert fullkey[..keylen] == fullkey[..8] + fullkey[8..keylen] == FullKey(key, salt);
      st.Init(fullkey[..keylen]);
    }

    /** The middle of do_auth, when the salts are exchanged: unless they are the same, both
        cipher states are set up, and 8 bytes of the outgoing key stream are the proof. */
    method Prove() returns (ok: bool, proof: seq<byte>)
      requires Valid() && |rxsalt| == SALT && |txsalt| == SALT
      modifies this`keylen, fullkey, txs, rxs, txs.s, rxs.s
      ensures Valid() && (ok <==> rxsalt != txsalt)
      ensures ok ==> proof == KeyStream(Scheduling(FullKey(key, txsalt), 256), SALT)
      ensures ok ==> TheSender().txs == Advance(Scheduling(FullKey(key, txsalt), 256), SALT)
      ensures ok ==> TheReceiver().rxs == Scheduling(FullKey(key, rxsalt), 256)
    {
      hide Scheduling, KeyStream, Advance;
      if txsalt == rxsalt {
        return false, [];
      }
      SetupStream(txs, txsalt);
      SetupStream(rxs, rxsalt);
      proof := txs.GetBytes(SALT);
      ok := true;
    }

    /** The end of do_auth: the peer's proof must be the start of the incoming key stream. */
    method Check(proof: seq<byte>) returns (ok: bool)
      requires Valid() && |proof| == SALT
      modifies rxs, rxs.s
      ensures Valid()
      ensures ok <==> proof == KeyStream(old(TheReceiver().rxs), SALT)
      ensures ok ==> TheReceiver().rxs == Advance(old(TheReceiver().rxs), SALT)
    {
      hide KeyStream, Advance;
      ok := rxs.Expect(proof);
    }

    // -------------------------------------------------------------- the loop of work

    /** encr and the two lines before it: what is in the output buffer becomes pending. */
    method Encrypt(ghost d: seq<byte>)
      requires Valid() && tcocount == |d| + 4 && tcopos == 0 && tcobuf[..tcocount] == Frame(d)
      modifies txs, txs.s, tcobuf
      ensures Valid() && TheSender() == Queued(old(TheSender()), d) && Holds(old(txs.State()), Frame(d))
    {
      assert tcobuf[0..0 + tcocount] == Frame(d);
      if keyed {
        txs.Apply(tcobuf, 0, tcocount);
      }
    }

    method PutDummy()
      requires tcobuf.Length >= 4
      modifies tcobuf
      ensures tcobuf[..4] == [0, 0, 0, 0] == Frame([])
    {
      tcobuf[0], tcobuf[1], tcobuf[2], tcobuf[3] := 0, 0, 0, 0;
    }

    /** The dummy frame after a timeout. */
    method Timeout()
      requires Valid()
      modifies this`tcopos, this`tcocount, txs, txs.s, tcobuf
      ensures Valid() && TheSender() == Padded(old(TheSender()))
      ensures if old(tcocount) == 0 then Holds(old(txs.State()), [0, 0, 0, 0]) else TheSender() == old(TheSender())
    {
      if tcocount == 0 {
        PutDummy();
        tcopos := 0;
        tcocount := 4;
        Encrypt([]);
      }
    }

    /** A send on the connection, which takes `ret` bytes. */
    method Send(ret: nat) returns (data: seq<byte>)
      requires Valid() && ret <= tcocount
      modifies this`tcopos, this`tcocount
      ensures Valid() && TheSender() == Sent(old(TheSender()), ret)
      ensures data == old(TheSender().pending[..ret]) == tcobuf[old(tcopos)..old(tcopos) + ret]
      ensures tcopos == old(tcopos) + ret && tcocount == old(tcocount) - ret
    {
      SliceOfSlice(tcobuf[..], tcopos, tcopos + tcocount, 0, ret);
      SliceOfSlice(tcobuf[..], tcopos, tcopos + tcocount, ret, tcocount);
      data := tcobuf[tcopos..tcopos + ret];
      tcopos := tcopos + ret;
      tcocount := tcocount - ret;
    }

    /** A datagram and its header are put at the start of the output buffer. */
    method PutFrame(d: seq<byte>)
      requires |d| + 4 <= tcobuf.Length
      modifies tcobuf
      ensures tcobuf[..|d| + 4] == [0, 0, |d| / 256 % 256, |d| % 256] + d == Frame(d)
    {
      tcobuf[0], tcobuf[1] := 0, 0;
      tcobuf[2], tcobuf[3] := |d| / 256 % 256, |d| % 256;
      forall k | 0 <= k < |d| {
        tcobuf[4 + k] := d[k];
      }
    }

    /** A datagram comes in. */
    method Input(d: seq<byte>)
      requires Valid() && |d| <= MAXBUF
      modifies this`tcopos, this`tcocount, txs, txs.s, tcobuf
      ensures Valid() && TheSender() == Taken(old(TheSender()), d)
      ensures old(tcocount) == 0 && d != [] ==> Holds(old(txs.State()), [0, 0, |d| / 256 % 256, |d| % 256] + d)
      ensures old(tcocount) > 0 || d == [] ==> TheSender() == old(TheSender())
    {
      hide Frame;
      if tcocount == 0 && |d| > 0 {
        PutFrame(d);
        tcopos := 0;
        tcocount := |d| + 4;
        Encrypt(d);
      }
    }

    /** Bytes are put behind those that are there. */
    method Store(data: seq<byte>)
      requires tcipos + |data| <= tcibuf.Length
      modifies tcibuf
      ensures tcibuf[..tcipos] == old(tcibuf[..tcipos]) && tcibuf[tcipos..tcipos + |data|] == data
    {
      forall k | 0 <= k < |data| {
        tcibuf[tcipos + k] := data[k];
      }
    }

    /** Bytes come in on the connection, and are deciphered in place. */
    method Fill(data: seq<byte>)
      requires Valid() && |data| <= 4 + MAXBUF - tcipos
      modifies this`tcipos, rxs, rxs.s, tcibuf
      ensures Valid() && tcibuf[..tcipos] == Filled(old(TheReceiver()), data)
      ensures rxs.State() == Moved(keyed, old(rxs.State()), |data|)
    {
      ghost var pos := tcipos;
      hide Crypt, Advance;
      Store(data);
      if keyed {
        rxs.Apply(tcibuf, tcipos, |data|);
      }
      tcipos := tcipos + |data|;
      assert tcibuf[..tcipos] == tcibuf[..pos] + tcibuf[pos..tcipos];
    }

    /** Bytes come in on the connection, no more than there is room for. */
    method Receive(data: seq<byte>) returns (emitted: seq<seq<byte>>)
      requires Valid() && |data| <= 4 + MAXBUF - tcipos
      modifies this`tcipos, rxs, rxs.s, tcibuf
      ensures Valid() && TheReceiver() == Received(old(TheReceiver()), data)
      ensures emitted == Emitted(old(TheReceiver()), data)
      ensures emitted == Datagrams(old(tcibuf[..tcipos]) + (if keyed then Crypt(old(rxs.State()), data) else data))
    {
      hide Moved, Datagrams, Remainder, Crypt, Advance;
      Fill(data);
      emitted := Deframe();
    }

    /** The first `n` bytes leave the input buffer. */
    method Drop(n: nat)
      requires Valid() && n <= tcipos
      modifies this`tcipos, tcibuf
      ensures Valid() && tcipos == old(tcipos) - n && tcibuf[..tcipos] == old(tcibuf[..tcipos])[n..]
    {
      ghost var b := tcibuf[..tcipos];
      tcipos := tcipos - n;
      forall k | 0 <= k < tcipos {
        tcibuf[k] := tcibuf[n + k];
      }
      assert forall k :: 0 <= k < tcipos ==> tcibuf[k] == b[n + k];
    }

    /** A round of the loop that takes frames out, when the first frame is there. */
    method TakeFrame(len: nat) returns (ds: seq<seq<byte>>)
      requires Valid() && !Partial(tcibuf[..tcipos]) && len == FrameLength(tcibuf[..tcipos])
      modifies this`tcipos, tcibuf
      ensures Valid() && tcipos < old(tcipos)
      ensures ds + Datagrams(tcibuf[..tcipos]) == Datagrams(old(tcibuf[..tcipos]))
      ensures Remainder(tcibuf[..tcipos]) == Remainder(old(tcibuf[..tcipos]))
    {
      ghost var b := tcibuf[..tcipos];
      OneDatagram(b, b[4..len + 4]);
      hide Datagrams, Remainder, FrameLength;
      ds := [];
      if len > 0 {
        assert tcibuf[..][0..tcipos] == b;
        SliceOfSlice(tcibuf[..], 0, tcipos, 4, len + 4);
        ds := [tcibuf[4..len + 4]];
      }
      Drop(len + 4);
    }

    /** The loop that takes frames out of the input buffer. */
    method Deframe() returns (emitted: seq<seq<byte>>)
      requires Valid()
      modifies this`tcipos, tcibuf
      ensures Valid() && tcibuf[..tcipos] == Remainder(old(tcibuf[..tcipos]))
      ensures emitted == Datagrams(old(tcibuf[..tcipos]))
    {
      hide Datagrams, Remainder;
      emitted := [];
      while tcipos >= 4
        invariant Valid()
        invariant emitted + Datagrams(tcibuf[..tcipos]) == Datagrams(old(tcibuf[..tcipos]))
        invariant Remainder(tcibuf[..tcipos]) == Remainder(old(tcibuf[..tcipos]))
        decreases tcipos
      {
        var high: int := tcibuf[2];
        var len := high * 256 + tcibuf[3];
        if len > tcipos - 4 {
          break;
        }
        var ds := TakeFrame(len);
        emitted := emitted + ds;
      }
      Taking(tcibuf[..tcipos]);
    }
  }

  /** Two ends with the same key, each of which has the salt of the other, believe each other
      and end up in lock step in both directions, unless they chose the same salt. */
  method Handshake(a: Peer, b: Peer) returns (ok: bool)
    requires a != b && a.Valid() && b.Valid() && a.keyed && b.keyed && a.key == b.key
    requires {a.fullkey, a.txs.s, a.rxs.s, a.tcibuf, a.tcobuf} !! {b.fullkey, b.txs.s, b.rxs.s, b.tcibuf, b.tcobuf}
    requires {a.txs, a.rxs} !! {b.txs, b.rxs}
    requires |a.rxsalt| == SALT && |b.rxsalt| == SALT && a.txsalt == b.rxsalt && b.txsalt == a.rxsalt
    modifies a`keylen, a.fullkey, a.txs, a.rxs, a.txs.s, a.rxs.s
    modifies b`keylen, b.fullkey, b.txs, b.rxs, b.txs.s, b.rxs.s
    ensures a.Valid() && b.Valid() && (ok <==> a.rxsalt != b.rxsalt)
    ensures ok ==> a.TheSender().txs == b.TheReceiver().rxs && b.TheSender().txs == a.TheReceiver().rxs
  {
    hide Scheduling, Advance, KeyStream;
    var oka, pa := a.Prove();
    var okb, pb := b.Prove();
    if !oka || !okb {
      return false;
    }
    oka := a.Check(pb);
    okb := b.Check(pa);
    return oka && okb;
  }
}
