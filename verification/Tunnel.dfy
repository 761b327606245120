/** The tunnel that carries datagrams over a byte stream (stuk3.c). */
module Tunnel {
  import opened Arc4
  import opened Bytes
  import opened Common

  const MAXBUF := 65536

  // ---------------------------------------------------------------- framing

  /** A datagram after its header, of which two bytes give the length modulo 2^16. */
  function Frame(d: seq<byte>): (r: seq<byte>)
    ensures |r| == |d| + 4
  {
    [0, 0, |d| / 256 % 256, |d| % 256] + d
  }

  function FrameLength(b: seq<byte>): (n: nat)
    requires |b| >= 4
    ensures n <= 65535
  {
    var high: int := b[2];
    high * 256 + b[3]
  }

  /** The first frame is not all there. */
  predicate Partial(b: seq<byte>) {
    |b| < 4 || FrameLength(b) > |b| - 4
  }

  /** The datagrams that the receiver takes out of its buffer; empty frames give none. */
  function Datagrams(b: seq<byte>): (r: seq<seq<byte>>)
    decreases |b|
  {
    if Partial(b) then [] else
      var n := FrameLength(b);
      (if n == 0 then [] else [b[4..n + 4]]) + Datagrams(b[n + 4..])
  }

  /** What it keeps. */
  function Remainder(b: seq<byte>): (r: seq<byte>)
    ensures Partial(r) && |r| <= |b|
    decreases |b|
  {
    if Partial(b) then b else Remainder(b[FrameLength(b) + 4..])
  }

  /** The stream that a sequence of frames makes. */
  function Encoded(fs: seq<seq<byte>>): seq<byte> {
    if fs == [] then [] else Frame(fs[0]) + Encoded(fs[1..])
  }

  /** The frames that are not dummies. */
  function Proper(fs: seq<seq<byte>>): seq<seq<byte>> {
    if fs == [] then [] else (if fs[0] == [] then [] else [fs[0]]) + Proper(fs[1..])
  }

  /** All lengths fit into the header. */
  predicate Fitting(fs: seq<seq<byte>>) {
    forall i :: 0 <= i < |fs| ==> |fs[i]| <= 65535
  }

  lemma {:induction false} EncodedAppend(fs: seq<seq<byte>>, d: seq<byte>)
    ensures Encoded(fs + [d]) == Encoded(fs) + Frame(d)
    ensures Proper(fs + [d]) == Proper(fs) + (if d == [] then [] else [d])
  {
    if fs != [] {
      EncodedAppend(fs[1..], d);
      assert (fs + [d])[1..] == fs[1..] + [d];
      hide Frame;
    }
  }

  /** The receiver takes whole frames off the front of a stream, however much of it is there. */
  lemma {:induction false} TakeFrames(fs: seq<seq<byte>>, b: seq<byte>, later: seq<byte>) returns (k: nat)
    requires Fitting(fs) && Encoded(fs) == b + later
    ensures k <= |fs| && Datagrams(b) + Proper(fs[k..]) == Proper(fs)
    ensures Encoded(fs[k..]) == Remainder(b) + later
    decreases |fs|
  {
    hide *;
    if Partial(b) {
      k := 0;
      NothingTaken(fs, b);
    } else {
      FirstFrame(fs, b, later);
      var k' := TakeFrames(fs[1..], b[|fs[0]| + 4..], later);
      k := k' + 1;
      assert fs[1..][k'..] == fs[k..];
      OneTaken(fs, b, fs[k..]);
    }
  }

  lemma {:induction false} NothingTaken(fs: seq<seq<byte>>, b: seq<byte>)
    requires Partial(b)
    ensures Datagrams(b) + Proper(fs) == Proper(fs) && Remainder(b) == b
  {
    hide Partial, Proper;
    assert Datagrams(b) == [];
  }

  lemma {:induction false} OneDatagram(b: seq<byte>, d: seq<byte>)
    requires !Partial(b) && FrameLength(b) == |d| && |d| + 4 <= |b| && b[4..|d| + 4] == d
    ensures Datagrams(b) == (if d == [] then [] else [d]) + Datagrams(b[|d| + 4..])
    ensures Remainder(b) == Remainder(b[|d| + 4..])
  {
    hide Partial, FrameLength;
  }

  lemma {:induction false} ProperFirst(fs: seq<seq<byte>>)
    requires fs != []
    ensures Proper(fs) == (if fs[0] == [] then [] else [fs[0]]) + Proper(fs[1..])
  {
  }

  lemma {:induction false} OneTaken(fs: seq<seq<byte>>, b: seq<byte>, more: seq<seq<byte>>)
    requires fs != [] && !Partial(b) && FrameLength(b) == |fs[0]| && b[4..|fs[0]| + 4] == fs[0]
    requires |fs[0]| + 4 <= |b| && Datagrams(b[|fs[0]| + 4..]) + Proper(more) == Proper(fs[1..])
    ensures Datagrams(b) + Proper(more) == Proper(fs)
    ensures Remainder(b) == Remainder(b[|fs[0]| + 4..])
  {
    hide *;
    var first, rest := if fs[0] == [] then [] else [fs[0]], b[|fs[0]| + 4..];
    OneDatagram(b, fs[0]);
    ProperFirst(fs);
    Associate(first, Datagrams(rest), Proper(more));
  }

  lemma {:induction false} FirstFrame(fs: seq<seq<byte>>, b: seq<byte>, later: seq<byte>)
    requires Fitting(fs) && Encoded(fs) == b + later && !Partial(b)
    ensures fs != [] && |b| >= |fs[0]| + 4 && FrameLength(b) == |fs[0]| && b[4..|fs[0]| + 4] == fs[0]
    ensures Fitting(fs[1..]) && Encoded(fs[1..]) == b[|fs[0]| + 4..] + later
  {
    assert fs != [];
    var f := Frame(fs[0]);
    assert b + later == f + Encoded(fs[1..]);
    assert b[2] == (b + later)[2] == f[2] && b[3] == (b + later)[3] == f[3];
    var n := |fs[0]|;
    assert b[..n + 4] == (b + later)[..n + 4] == f;
    assert b[n + 4..] + later == (b + later)[n + 4..];
    assert b[4..n + 4] == f[4..];
  }

  /** The header is two zeros and the length, the high byte first. */
  lemma {:induction false} FrameBytes(d: seq<byte>)
    ensures Frame(d)[..4] == [0, 0, |d| / 256 % 256, |d| % 256] && Frame(d)[4..] == d
  {
  }

  /** Four bytes, and as many more as the last two of them say, make a frame. */
  lemma {:induction false} Taking(b: seq<byte>)
    ensures Partial(b) <==> |b| < 4 || |b| < 4 + 256 * (b[2] as int) + b[3]
    ensures Partial(b) ==> Datagrams(b) == [] && Remainder(b) == b
    ensures !Partial(b) ==>
      var n := 256 * (b[2] as int) + b[3];
      && Datagrams(b) == (if n > 0 then [b[4..4 + n]] else []) + Datagrams(b[4 + n..])
      && Remainder(b) == Remainder(b[4 + n..])
  {
  }

  lemma {:induction false} DatagramsShort(b: seq<byte>)
    ensures forall d :: d in Datagrams(b) ==> 1 <= |d| <= 65535
    decreases |b|
  {
    if !Partial(b) {
      DatagramsShort(b[FrameLength(b) + 4..]);
    }
  }

  lemma {:induction false} HeaderLength(d: seq<byte>)
    ensures FrameLength(Frame(d)) == |d| % 65536
  {
    var h: seq<byte> := [0, 0, |d| / 256 % 256, |d| % 256];
    assert (h + d)[2] == h[2] && (h + d)[3] == h[3];
    Low2(|d|);
  }

  /** A datagram comes out of its frame exactly when its length fits into the header. The
      receive buffer would hold one byte more. */
  lemma {:induction false} FrameRoundTrip(d: seq<byte>)
    requires d != []
    ensures Datagrams(Frame(d)) == [d] <==> |d| <= 65535
  {
    var f := Frame(d);
    HeaderLength(d);
    assert f[4..] == d;
    hide Frame, FrameLength;
    if |d| <= 65535 {
      assert f[4..|d| + 4] == d && f[|d| + 4..] == [];
    } else {
      DatagramsShort(f);
      assert d !in Datagrams(f);
    }
  }

  // ---------------------------------------------------------------- one direction of the tunnel

  /** What a peer keeps for the way out: `pending` is ciphered and not yet sent. */
  datatype Sender = Sender(keyed: bool, txs: Cipher, pending: seq<byte>)

  /** What a peer keeps for the way in: `buffer` is deciphered and not yet taken. */
  datatype Receiver = Receiver(keyed: bool, rxs: Cipher, buffer: seq<byte>)

  function Coded(keyed: bool, c: Cipher, bs: seq<byte>): (r: seq<byte>)
    requires c.Valid()
    ensures |r| == |bs|
  {
    if keyed then Crypt(c, bs) else bs
  }

  function Moved(keyed: bool, c: Cipher, n: nat): (r: Cipher)
    requires c.Valid()
    ensures r.Valid()
  {
    if keyed then Advance(c, n) else c
  }

  function Queued(s: Sender, d: seq<byte>): Sender
    requires s.txs.Valid()
  {
    s.(txs := Moved(s.keyed, s.txs, |Frame(d)|), pending := Coded(s.keyed, s.txs, Frame(d)))
  }

  /** A peer with nothing to send builds a dummy frame on a timeout. */
  function Padded(s: Sender): Sender
    requires s.txs.Valid()
  {
    if s.pending == [] then Queued(s, []) else s
  }

  /** A datagram is lost while the one before it is not sent. */
  predicate Accepts(s: Sender, d: seq<byte>) {
    s.pending == [] && d != []
  }

  function Taken(s: Sender, d: seq<byte>): Sender
    requires s.txs.Valid()
  {
    if Accepts(s, d) then Queued(s, d) else s
  }

  function Sent(s: Sender, n: nat): Sender
    requires n <= |s.pending|
  {
    s.(pending := s.pending[n..])
  }

  function Filled(r: Receiver, data: seq<byte>): seq<byte>
    requires r.rxs.Valid()
  {
    r.buffer + Coded(r.keyed, r.rxs, data)
  }

  function Received(r: Receiver, data: seq<byte>): Receiver
    requires r.rxs.Valid()
  {
    r.(rxs := Moved(r.keyed, r.rxs, |data|), buffer := Remainder(Filled(r, data)))
  }

  function Emitted(r: Receiver, data: seq<byte>): seq<seq<byte>>
    requires r.rxs.Valid()
  {
    Datagrams(Filled(r, data))
  }

  /** A sender, the bytes on the connection, and the receiver at its other end, with the
      datagrams that went in and came out so far. */
  datatype Link = Link(tx: Sender, wire: seq<byte>, rx: Receiver, accepted: seq<seq<byte>>, emitted: seq<seq<byte>>)

  datatype Step = Timeout | Datagram(d: seq<byte>) | Transmit(n: nat) | Deliver(n: nat)

  /** The connection takes any number of bytes of what is pending, and gives any number
      that the receive buffer has room for. */
  ghost predicate Enabled(l: Link, step: Step) {
    match step
    case Timeout => true
    case Datagram(d) => |d| <= 65535
    case Transmit(n) => n <= |l.tx.pending|
    case Deliver(n) => 0 < n <= |l.wire| && |l.rx.buffer| + n <= 4 + MAXBUF
  }

  ghost function After(l: Link, step: Step): (l': Link)
    requires Enabled(l, step) && l.tx.txs.Valid() && l.rx.rxs.Valid()
    ensures l'.tx.txs.Valid() && l'.rx.rxs.Valid()
  {
    match step
    case Timeout => l.(tx := Padded(l.tx))
    case Datagram(d) =>
      l.(tx := Taken(l.tx, d), accepted := if Accepts(l.tx, d) then l.accepted + [d] else l.accepted)
    case Transmit(n) => l.(tx := Sent(l.tx, n), wire := l.wire + l.tx.pending[..n])
    case Deliver(n) =>
      l.(rx := Received(l.rx, l.wire[..n]), wire := l.wire[n..], emitted := l.emitted + Emitted(l.rx, l.wire[..n]))
  }

  /** `todo` are the frames that the receiver has not taken yet. */
  ghost predicate Carries(l: Link, todo: seq<seq<byte>>) {
    && l.tx.txs.Valid() && l.rx.rxs.Valid() && l.tx.keyed == l.rx.keyed
    && var flight := l.wire + l.tx.pending;
    && l.tx.txs == Moved(l.rx.keyed, l.rx.rxs, |flight|)
    && Encoded(todo) == l.rx.buffer + Coded(l.rx.keyed, l.rx.rxs, flight)
    && Partial(l.rx.buffer) && Fitting(todo)
    && l.accepted == l.emitted + Proper(todo)
  }

  /** Both ends have the same cipher state and nothing was sent. */
  ghost predicate Fresh(l: Link) {
    && l.tx.txs.Valid() && l.tx.txs == l.rx.rxs && l.tx.keyed == l.rx.keyed
    && l.tx.pending == l.wire == l.rx.buffer == [] && l.accepted == l.emitted == []
  }

  ghost predicate IsRun(ls: seq<Link>, steps: seq<Step>) {
    && |ls| == |steps| + 1 && Fresh(ls[0])
    && forall i :: 0 <= i < |steps| ==>
      ls[i].tx.txs.Valid() && ls[i].rx.rxs.Valid() && Enabled(ls[i], steps[i]) && ls[i + 1] == After(ls[i], steps[i])
  }

  lemma {:induction false} CodedAppend(keyed: bool, c: Cipher, a: seq<byte>, b: seq<byte>)
    requires c.Valid()
    ensures Coded(keyed, c, a + b) == Coded(keyed, c, a) + Coded(keyed, Moved(keyed, c, |a|), b)
    ensures Moved(keyed, c, |a| + |b|) == Moved(keyed, Moved(keyed, c, |a|), |b|)
  {
    hide Crypt, Advance;
    CryptAppend(c, a, b);
    AdvanceAdd(c, |a|, |b|);
  }

  lemma {:induction false} CodedTwice(keyed: bool, c: Cipher, bs: seq<byte>)
    requires c.Valid()
    ensures Coded(keyed, c, Coded(keyed, c, bs)) == bs
  {
    CryptTwice(c, bs);
  }

  /** What is ciphered in step joins what is on its way. */
  lemma {:induction false} FlightGrows(keyed: bool, c: Cipher, flight: seq<byte>, f: seq<byte>)
    requires c.Valid()
    ensures var c' := Moved(keyed, c, |flight|);
      && Coded(keyed, c, flight + Coded(keyed, c', f)) == Coded(keyed, c, flight) + f
      && Moved(keyed, c, |flight| + |f|) == Moved(keyed, c', |f|)
  {
    var c' := Moved(keyed, c, |flight|);
    CodedAppend(keyed, c, flight, Coded(keyed, c', f));
    CodedTwice(keyed, c', f);
  }

  lemma {:induction false} MoreFrames(fs: seq<seq<byte>>, d: seq<byte>)
    requires Fitting(fs) && |d| <= 65535
    ensures Encoded(fs + [d]) == Encoded(fs) + Frame(d) && Fitting(fs + [d])
    ensures Proper(fs + [d]) == Proper(fs) + Proper([d])
  {
    EncodedAppend(fs, d);
    assert Proper([d]) == if d == [] then [] else [d];
  }

  lemma {:induction false} QueueCarries(l: Link, todo: seq<seq<byte>>, d: seq<byte>)
    requires Carries(l, todo) && l.tx.pending == [] && |d| <= 65535
    ensures Carries(l.(tx := Queued(l.tx, d), accepted := l.accepted + Proper([d])), todo + [d])
  {
    hide Coded, Moved, Encoded, Proper, Partial, Frame, Fitting;
    assert l.wire + l.tx.pending == l.wire;
    FlightGrows(l.rx.keyed, l.rx.rxs, l.wire, Frame(d));
    MoreFrames(todo, d);
    Associate(l.rx.buffer, Coded(l.rx.keyed, l.rx.rxs, l.wire), Frame(d));
    Associate(l.emitted, Proper(todo), Proper([d]));
  }

  /** A stream is deciphered in two pieces, behind what there is already. */
  lemma {:induction false} CodedPieces(keyed: bool, c: Cipher, buffer: seq<byte>, data: seq<byte>, rest: seq<byte>)
    requires c.Valid()
    ensures var c' := Moved(keyed, c, |data|);
      && buffer + Coded(keyed, c, data + rest) == buffer + Coded(keyed, c, data) + Coded(keyed, c', rest)
      && Moved(keyed, c, |data + rest|) == Moved(keyed, c', |rest|)
  {
    hide *;
    CodedAppend(keyed, c, data, rest);
    Associate(buffer, Coded(keyed, c, data), Coded(keyed, Moved(keyed, c, |data|), rest));
  }

  /** The stream is cut where the delivery ends. */
  lemma {:induction false} DeliveredStream(l: Link, todo: seq<seq<byte>>, n: nat)
    requires Carries(l, todo) && n <= |l.wire|
    ensures
      var c, rest := Moved(l.rx.keyed, l.rx.rxs, n), l.wire[n..] + l.tx.pending;
      && c.Valid() && l.tx.txs == Moved(l.rx.keyed, c, |rest|)
      && Encoded(todo) == Filled(l.rx, l.wire[..n]) + Coded(l.rx.keyed, c, rest)
  {
    hide Coded, Moved, Encoded, Proper, Partial, Fitting;
    var data, rest := l.wire[..n], l.wire[n..] + l.tx.pending;
    CodedPieces(l.rx.keyed, l.rx.rxs, l.rx.buffer, data, rest);
    assert data + rest == l.wire + l.tx.pending by {
      Associate(data, l.wire[n..], l.tx.pending);
      assert data + l.wire[n..] == l.wire;
    }
  }

  lemma {:induction false} DeliverCarries(l: Link, todo: seq<seq<byte>>, n: nat) returns (k: nat)
    requires Carries(l, todo) && Enabled(l, Deliver(n))
    ensures k <= |todo| && Carries(After(l, Deliver(n)), todo[k..])
  {
    hide Coded, Moved, Encoded, Proper, Partial, Datagrams, Remainder, Filled;
    var b := Filled(l.rx, l.wire[..n]);
    DeliveredStream(l, todo, n);
    k := TakeFrames(todo, b, Coded(l.rx.keyed, Moved(l.rx.keyed, l.rx.rxs, n), l.wire[n..] + l.tx.pending));
    Associate(l.emitted, Datagrams(b), Proper(todo[k..]));
  }

  lemma {:induction false} TransmitCarries(l: Link, todo: seq<seq<byte>>, n: nat)
    requires Carries(l, todo) && n <= |l.tx.pending|
    ensures Carries(After(l, Transmit(n)), todo)
  {
    hide Coded, Moved, Encoded, Proper, Partial, Fitting;
    Associate(l.wire, l.tx.pending[..n], l.tx.pending[n..]);
    assert l.tx.pending[..n] + l.tx.pending[n..] == l.tx.pending;
  }

  lemma {:induction false} StepCarries(l: Link, todo: seq<seq<byte>>, step: Step) returns (todo': seq<seq<byte>>)
    requires Carries(l, todo) && Enabled(l, step)
    ensures Carries(After(l, step), todo')
  {
    todo' := todo;
    match step
    case Timeout =>
      if l.tx.pending == [] {
        QueueCarries(l, todo, []);
        assert l.accepted + Proper([[]]) == l.accepted;
        todo' := todo + [[]];
      }
      hide Carries;
    case Datagram(d) =>
      if Accepts(l.tx, d) {
        QueueCarries(l, todo, d);
        assert Proper([d]) == [d];
        todo' := todo + [d];
      }
      hide Carries;
    case Transmit(n) =>
      TransmitCarries(l, todo, n);
      hide Carries;
    case Deliver(n) =>
      var k := DeliverCarries(l, todo, n);
      todo' := todo[k..];
      hide Carries;
  }

  lemma {:induction false} RunCarries(ls: seq<Link>, steps: seq<Step>) returns (todo: seq<seq<byte>>)
    requires IsRun(ls, steps)
    ensures Carries(ls[|steps|], todo)
    decreases |steps|
  {
    if steps == [] {
      todo := [];
      assert [] + [] == Coded(ls[0].rx.keyed, ls[0].rx.rxs, []) == [];
    } else {
      var n := |steps| - 1;
      var todo' := RunCarries(ls[..n + 1], steps[..n]);
      todo := StepCarries(ls[n], todo', steps[n]);
    }
  }

  /** In every run the datagrams that came out are the first of those that went in. They are
      all of them once nothing is on its way. The receive buffer always has room. */
  lemma {:induction false} Safety(ls: seq<Link>, steps: seq<Step>)
    requires IsRun(ls, steps)
    ensures var l := ls[|steps|];
      && l.emitted <= l.accepted
      && |l.rx.buffer| < 4 + MAXBUF
      && (l.tx.pending == [] && l.wire == [] ==> l.emitted == l.accepted && l.rx.buffer == [])
  {
    var todo := RunCarries(ls, steps);
    CarriesSafe(ls[|steps|], todo);
  }

  /** What the invariant says of the datagrams. */
  lemma {:induction false} CarriesSafe(l: Link, todo: seq<seq<byte>>)
    requires Carries(l, todo)
    ensures l.emitted <= l.accepted && |l.rx.buffer| < 4 + MAXBUF
    ensures l.tx.pending == [] && l.wire == [] ==> l.emitted == l.accepted && l.rx.buffer == []
  {
    if l.tx.pending == [] && l.wire == [] {
      assert l.wire + l.tx.pending == [] && Coded(l.rx.keyed, l.rx.rxs, []) == [];
      assert Encoded(todo) == l.rx.buffer;
      if todo != [] {
        WholeFrame(todo);
        assert false;
      }
    }
  }

  /** A stream of whole frames never ends within its first frame. */
  lemma {:induction false} WholeFrame(fs: seq<seq<byte>>)
    requires fs != [] && Fitting(fs)
    ensures !Partial(Encoded(fs))
  {
    HeaderLength(fs[0]);
    var f, b := Frame(fs[0]), Encoded(fs);
    assert b == f + Encoded(fs[1..]) && b[2] == f[2] && b[3] == f[3];
  }

  /** From where nothing is on its way, three steps take a datagram from one end to the other. */
  lemma {:induction false} Progress(l: Link, todo: seq<seq<byte>>, d: seq<byte>) returns (l1: Link, l2: Link, l3: Link)
    requires Carries(l, todo) && l.tx.pending == [] && l.wire == [] && 1 <= |d| <= 65535
    ensures Enabled(l, Datagram(d)) && l1 == After(l, Datagram(d))
    ensures Enabled(l1, Transmit(|d| + 4)) && l2 == After(l1, Transmit(|d| + 4))
    ensures Enabled(l2, Deliver(|d| + 4)) && l3 == After(l2, Deliver(|d| + 4))
    ensures l3.emitted == l.emitted + [d] && l3.accepted == l.accepted + [d]
    ensures l3.tx.pending == [] && l3.wire == [] && l3.rx.buffer == []
  {
    CarriesSafe(l, todo);
    hide Carries, Coded, Moved, Received;
    l1 := After(l, Datagram(d));
    l2 := After(l1, Transmit(|d| + 4));
    l3 := After(l2, Deliver(|d| + 4));
    var todo1 := StepCarries(l, todo, Datagram(d));
    var todo2 := StepCarries(l1, todo1, Transmit(|d| + 4));
    var todo3 := StepCarries(l2, todo2, Deliver(|d| + 4));
    CarriesSafe(l3, todo3);
  }
}
