/** The two ends of the tunnel and the connection between them, from the handshake on (stuk3.c). */
module TunnelEnds {
  import opened Arc4
  import opened Bytes
  import opened Tunnel
  import opened TunnelPeer

  /** Two ends that share nothing. */
  ghost predicate Separate(x: Peer, y: Peer) {
    && x != y
    && {x.fullkey, x.txs.s, x.rxs.s, x.tcibuf, x.tcobuf} !! {y.fullkey, y.txs.s, y.rxs.s, y.tcibuf, y.tcobuf}
    && {x.txs, x.rxs} !! {y.txs, y.rxs}
  }

  /** One direction: the ends are those of the link, which keeps its invariant. */
  ghost predicate Joined(x: Peer, y: Peer, l: Link, todo: seq<seq<byte>>)
    reads x, x.txs, x.txs.s, x.tcobuf, y, y.rxs, y.rxs.s, y.tcibuf
  {
    && x.Valid() && y.Valid() && l.tx == x.TheSender() && l.rx == y.TheReceiver() && Carries(l, todo)
  }

  /** The steps of an end as sender: what it has then, what goes onto the connection, and what it
      accepts. */
  ghost function Outcome(s: Sender, step: Step): (Sender, seq<byte>, seq<seq<byte>>)
    requires s.txs.Valid() && !step.Deliver? && (step.Transmit? ==> step.n <= |s.pending|)
  {
    match step
    case Timeout => (Padded(s), [], [])
    case Datagram(d) => (Taken(s, d), [], if Accepts(s, d) then [d] else [])
    case Transmit(n) => (Sent(s, n), s.pending[..n], [])
  }

  lemma {:induction false} OutcomeAfter(l: Link, step: Step)
    requires l.tx.txs.Valid() && l.rx.rxs.Valid() && Enabled(l, step) && !step.Deliver?
    ensures
      var o := Outcome(l.tx, step);
      After(l, step) == l.(tx := o.0, wire := l.wire + o.1, accepted := l.accepted + o.2)
  {
    assert l.wire + [] == l.wire && l.accepted + [] == l.accepted;
  }

  lemma {:induction false} DeliverAfter(l: Link, n: nat)
    requires l.tx.txs.Valid() && l.rx.rxs.Valid() && Enabled(l, Deliver(n))
    ensures
      var data := l.wire[..n];
      After(l, Deliver(n)) == l.(rx := Received(l.rx, data), wire := l.wire[n..], emitted := l.emitted + Emitted(l.rx, data))
  {
  }

  /** A step of an end as sender. */
  method Outgoing(x: Peer, step: Step) returns (sent: seq<byte>, taken: seq<seq<byte>>)
    requires x.Valid() && !step.Deliver? && (step.Transmit? ==> step.n <= x.tcocount) && (step.Datagram? ==> |step.d| <= MAXBUF)
    modifies x`tcopos, x`tcocount, x.txs, x.txs.s, x.tcobuf
    ensures x.Valid() && x.TheReceiver() == old(x.TheReceiver())
    ensures (x.TheSender(), sent, taken) == Outcome(old(x.TheSender()), step)
  {
    sent, taken := [], [];
    match step
    case Timeout =>
      x.Timeout();
    case Datagram(d) =>
      if x.tcocount == 0 && d != [] {
        taken := [d];
      }
      x.Input(d);
    case Transmit(n) =>
      sent := x.Send(n);
  }

  /** A delivery to an end. */
  method Incoming(y: Peer, data: seq<byte>) returns (given: seq<seq<byte>>)
    requires y.Valid() && |data| <= 4 + MAXBUF - y.tcipos
    modifies y`tcipos, y.rxs, y.rxs.s, y.tcibuf
    ensures y.Valid() && y.TheSender() == old(y.TheSender())
    ensures y.TheReceiver() == Received(old(y.TheReceiver()), data) && given == Emitted(old(y.TheReceiver()), data)
  {
    given := y.Receive(data);
  }

  /** A step of a sender, as a step of its direction. */
  method StepOut(x: Peer, y: Peer, wire: seq<byte>, step: Step, ghost l: Link, ghost todo: seq<seq<byte>>)
      returns (wire': seq<byte>, taken: seq<seq<byte>>, ghost todo': seq<seq<byte>>)
    requires Separate(x, y) && Joined(x, y, l, todo) && l.wire == wire && !step.Deliver? && Enabled(l, step)
    modifies x`tcopos, x`tcocount, x.txs, x.txs.s, x.tcobuf
    ensures Joined(x, y, After(l, step), todo')
    ensures x.TheReceiver() == old(x.TheReceiver()) && y.TheSender() == old(y.TheSender())
    ensures After(l, step).wire == wire' && After(l, step).emitted == l.emitted
    ensures After(l, step).accepted == l.accepted + taken
  {
    todo' := StepCarries(l, todo, step);
    OutcomeAfter(l, step);
    assert |x.TheSender().pending| == x.tcocount;
    hide Carries, Outcome, After;
    var sent;
    sent, taken := Outgoing(x, step);
    wire' := wire + sent;
  }

  /** A delivery, as a step of its direction. */
  method StepIn(x: Peer, y: Peer, wire: seq<byte>, n: nat, ghost l: Link, ghost todo: seq<seq<byte>>)
      returns (wire': seq<byte>, given: seq<seq<byte>>, ghost todo': seq<seq<byte>>)
    requires Separate(x, y) && Joined(x, y, l, todo) && l.wire == wire && Enabled(l, Deliver(n))
    modifies y`tcipos, y.rxs, y.rxs.s, y.tcibuf
    ensures Joined(x, y, After(l, Deliver(n)), todo')
    ensures x.TheReceiver() == old(x.TheReceiver()) && y.TheSender() == old(y.TheSender())
    ensures After(l, Deliver(n)).wire == wire' && After(l, Deliver(n)).accepted == l.accepted
    ensures After(l, Deliver(n)).emitted == l.emitted + given
  {
    todo' := StepCarries(l, todo, Deliver(n));
    assert |y.TheReceiver().buffer| == y.tcipos;
    DeliverAfter(l, n);
    hide Carries, Received, Emitted, After, Enabled;
    given := Incoming(y, wire[..n]);
    wire' := wire[n..];
  }

  /** Whether a step can be done now, as the ends see it. */
  method CanDo(x: Peer, y: Peer, wire: seq<byte>, step: Step, ghost l: Link, ghost todo: seq<seq<byte>>) returns (can: bool)
    requires Joined(x, y, l, todo) && l.wire == wire
    ensures can <==> Enabled(l, step)
    ensures can <==>
      match step
      case Timeout => true
      case Datagram(d) => |d| <= 65535
      case Transmit(n) => n <= x.tcocount
      case Deliver(n) => 1 <= n <= |wire| && y.tcipos + n <= 65540
  {
    assert |x.TheSender().pending| == x.tcocount && |y.TheReceiver().buffer| == y.tcipos;
    match step
    case Timeout => return true;
    case Datagram(d) => return |d| <= 65535;
    case Transmit(n) => return n <= x.tcocount;
    case Deliver(n) => return 0 < n <= |wire| && y.tcipos + n <= 4 + MAXBUF;
  }

  ghost predicate Sound(l: Link) {
    l.tx.txs.Valid() && l.rx.rxs.Valid()
  }

  /** What a step that cannot be done leaves as it is. */
  ghost function Tried(l: Link, step: Step): (r: Link)
    requires Sound(l)
    ensures Sound(r)
  {
    if Enabled(l, step) then After(l, step) else l
  }

  /** A step of one direction, if it can be done now; the other direction has no part in it. */
  method TryStep(x: Peer, y: Peer, wire: seq<byte>, step: Step, ghost l: Link, ghost todo: seq<seq<byte>>)
      returns (wire': seq<byte>, taken: seq<seq<byte>>, given: seq<seq<byte>>, ghost l': Link, ghost todo': seq<seq<byte>>)
    requires Separate(x, y) && Joined(x, y, l, todo) && l.wire == wire
    modifies x`tcopos, x`tcocount, x.txs, x.txs.s, x.tcobuf
    modifies y`tcipos, y.rxs, y.rxs.s, y.tcibuf
    ensures Joined(x, y, l', todo') && l'.wire == wire'
    ensures l'.accepted == l.accepted + taken && l'.emitted == l.emitted + given
    ensures x.TheReceiver() == old(x.TheReceiver()) && y.TheSender() == old(y.TheSender())
    ensures l' == Tried(l, step)
  {
    wire', taken, given, l', todo' := wire, [], [], l, todo;
    var can := CanDo(x, y, wire, step, l, todo);
    if can {
      l' := After(l, step);
      hide Carries, Enabled, After, Separate;
      if step.Deliver? {
        wire', given, todo' := StepIn(x, y, wire, step.n, l, todo);
      } else {
        wire', taken, todo' := StepOut(x, y, wire, step, l, todo);
      }
    }
  }

  /** Both directions, as states of the model. */
  datatype Pair = Pair(ab: Link, ba: Link)

  /** A step at either end, if it can be done. */
  ghost function Either(p: Pair, fromA: bool, step: Step): Pair
    requires Sound(p.ab) && Sound(p.ba)
  {
    if fromA then p.(ab := Tried(p.ab, step)) else p.(ba := Tried(p.ba, step))
  }

  /** The first `n` steps, in their order. */
  ghost function Played(p: Pair, steps: seq<(bool, Step)>, n: nat): (r: Pair)
    requires Sound(p.ab) && Sound(p.ba) && n <= |steps|
    ensures Sound(r.ab) && Sound(r.ba)
  {
    if n == 0 then p else Either(Played(p, steps, n - 1), steps[n - 1].0, steps[n - 1].1)
  }

  lemma {:induction false} PlayedFirst(p: Pair, steps: seq<(bool, Step)>, more: seq<(bool, Step)>, n: nat)
    requires Sound(p.ab) && Sound(p.ba) && n <= |steps|
    ensures Played(p, steps + more, n) == Played(p, steps, n)
    decreases n
  {
    hide Sound, Either;
    if n > 0 {
      PlayedFirst(p, steps, more, n - 1);
    }
  }

  /** The links after a step of the end it names; the other direction stays. */
  lemma {:induction false} EitherWay(p: Pair, fromA: bool, step: Step)
    requires Sound(p.ab) && Sound(p.ba)
    ensures var q, l := Either(p, fromA, step), if fromA then p.ab else p.ba;
      && (if fromA then q.ba == p.ba else q.ab == p.ab)
      && (if fromA then q.ab else q.ba) == if Enabled(l, step) then After(l, step) else l
  {
    hide Enabled, After;
  }

  lemma {:induction false} PlayedNext(p: Pair, steps: seq<(bool, Step)>, fromA: bool, step: Step)
    requires Sound(p.ab) && Sound(p.ba)
    ensures var q, q' := Played(p, steps, |steps|), Played(p, steps + [(fromA, step)], |steps| + 1);
      var l := if fromA then q.ab else q.ba;
      && (if fromA then q'.ba == q.ba else q'.ab == q.ab)
      && (if fromA then q'.ab else q'.ba) == if Enabled(l, step) then After(l, step) else l
  {
    PlayedFirst(p, steps, [(fromA, step)], |steps|);
    EitherWay(Played(p, steps, |steps|), fromA, step);
    hide Enabled, After, Either;
  }

  /** After any steps that leave nothing on its way from an end, a datagram that it then gets
      comes out of the other end, three steps later. */
  lemma {:induction false} Exchange(p: Pair, steps: seq<(bool, Step)>, fromA: bool, todo: seq<seq<byte>>, d: seq<byte>)
    requires Sound(p.ab) && Sound(p.ba) && 1 <= |d| <= 65535
    requires var q := Played(p, steps, |steps|);
      var l := if fromA then q.ab else q.ba;
      Carries(l, todo) && l.tx.pending == [] && l.wire == []
    ensures
      var n, q := |d| + 4, Played(p, steps, |steps|);
      var q' := Played(p, steps + [(fromA, Datagram(d)), (fromA, Transmit(n)), (fromA, Deliver(n))], |steps| + 3);
      var l, l' := if fromA then q.ab else q.ba, if fromA then q'.ab else q'.ba;
      && l'.emitted == l.emitted + [d] && l'.accepted == l.accepted + [d] && l'.tx.pending == l'.wire == []
      && (if fromA then q'.ba == q.ba else q'.ab == q.ab)
  {
    hide *;
    var n, q := |d| + 4, Played(p, steps, |steps|);
    var l1, l2, l3 := Progress(if fromA then q.ab else q.ba, todo, d);
    var s1 := steps + [(fromA, Datagram(d))];
    var s2 := s1 + [(fromA, Transmit(n))];
    PlayedNext(p, steps, fromA, Datagram(d));
    PlayedNext(p, s1, fromA, Transmit(n));
    PlayedNext(p, s2, fromA, Deliver(n));
    assert s2 + [(fromA, Deliver(n))] == steps + [(fromA, Datagram(d)), (fromA, Transmit(n)), (fromA, Deliver(n))];
  }

  /** Both directions, with the datagrams that went in and came out. */
  datatype Traffic = Traffic(inA: seq<seq<byte>>, outB: seq<seq<byte>>, inB: seq<seq<byte>>, outA: seq<seq<byte>>, toB: seq<byte>, toA: seq<byte>)

  ghost predicate Shows(t: Traffic, p: Pair) {
    && p.ab.wire == t.toB && p.ab.accepted == t.inA && p.ab.emitted == t.outB
    && p.ba.wire == t.toA && p.ba.accepted == t.inB && p.ba.emitted == t.outA
  }

  /** Both directions of the ends. */
  ghost predicate Coupled(a: Peer, b: Peer, p: Pair, todo: seq<seq<byte>>, todo': seq<seq<byte>>)
    reads a, a.txs, a.txs.s, a.tcobuf, a.rxs, a.rxs.s, a.tcibuf
    reads b, b.txs, b.txs.s, b.tcobuf, b.rxs, b.rxs.s, b.tcibuf
  {
    Joined(a, b, p.ab, todo) && Joined(b, a, p.ba, todo') && Sound(p.ab) && Sound(p.ba)
  }

  /** What comes out at each end is the first of what went in at the other, and all of it when
      nothing is on its way. */
  ghost predicate Safe(a: Peer, b: Peer, t: Traffic)
    reads a, b
  {
    && t.outB <= t.inA && t.outA <= t.inB
    && (a.tcocount == 0 && t.toB == [] ==> t.outB == t.inA)
    && (b.tcocount == 0 && t.toA == [] ==> t.outA == t.inB)
  }

  /** A step of either end. */
  method StepOf(a: Peer, b: Peer, t: Traffic, fromA: bool, step: Step, ghost p: Pair, ghost todo: seq<seq<byte>>, ghost back: seq<seq<byte>>)
      returns (t': Traffic, ghost todo': seq<seq<byte>>, ghost back': seq<seq<byte>>)
    requires Separate(a, b) && Coupled(a, b, p, todo, back) && Shows(t, p)
    modifies a`tcopos, a`tcocount, a`tcipos, a.txs, a.txs.s, a.tcobuf, a.rxs, a.rxs.s, a.tcibuf
    modifies b`tcopos, b`tcocount, b`tcipos, b.txs, b.txs.s, b.tcobuf, b.rxs, b.rxs.s, b.tcibuf
    ensures Sound(p.ab) && Sound(p.ba)
    ensures Coupled(a, b, Either(p, fromA, step), todo', back') && Shows(t', Either(p, fromA, step))
  {
    assert Separate(b, a);
    hide Carries, Separate, Tried, Sound;
    todo', back' := todo, back;
    var wire, taken, given;
    ghost var l;
    if fromA {
      wire, taken, given, l, todo' := TryStep(a, b, t.toB, step, p.ab, todo);
      t' := t.(toB := wire, inA := t.inA + taken, outB := t.outB + given);
    } else {
      wire, taken, given, l, back' := TryStep(b, a, t.toA, step, p.ba, back);
      t' := t.(toA := wire, inB := t.inB + taken, outA := t.outA + given);
    }
  }

  /** Two ends in lock step with nothing on its way do any steps, in both directions. */
  method Converse(a: Peer, b: Peer, steps: seq<(bool, Step)>, ghost p: Pair) returns (t: Traffic)
    requires Separate(a, b) && a.Valid() && b.Valid() && Fresh(p.ab) && Fresh(p.ba)
    requires p.ab.tx == a.TheSender() && p.ab.rx == b.TheReceiver() && p.ba.tx == b.TheSender() && p.ba.rx == a.TheReceiver()
    modifies a`tcopos, a`tcocount, a`tcipos, a.txs, a.txs.s, a.tcobuf, a.rxs, a.rxs.s, a.tcibuf
    modifies b`tcopos, b`tcocount, b`tcipos, b.txs, b.txs.s, b.tcobuf, b.rxs, b.rxs.s, b.tcibuf
    ensures a.Valid() && b.Valid() && Shows(t, Played(p, steps, |steps|)) && Safe(a, b, t)
  {
    t := Traffic([], [], [], [], [], []);
    ghost var todo: seq<seq<byte>>, back: seq<seq<byte>> := [], [];
    FreshCoupled(a, b, p);
    hide Carries, Separate, Fresh, Sound, Coupled, Shows, Either, Joined;
    for i := 0 to |steps|
      invariant Coupled(a, b, Played(p, steps, i), todo, back) && Shows(t, Played(p, steps, i))
    {
      t, todo, back := StepOf(a, b, t, steps[i].0, steps[i].1, Played(p, steps, i), todo, back);
    }
    CoupledSafe(a, b, t, Played(p, steps, |steps|), todo, back);
  }

  lemma {:induction false} CoupledSafe(a: Peer, b: Peer, t: Traffic, p: Pair, todo: seq<seq<byte>>, back: seq<seq<byte>>)
    requires Coupled(a, b, p, todo, back) && Shows(t, p)
    ensures a.Valid() && b.Valid() && Safe(a, b, t)
  {
    CarriesSafe(p.ab, todo);
    CarriesSafe(p.ba, back);
    hide Carries;
    assert |p.ab.tx.pending| == a.tcocount && |p.ba.tx.pending| == b.tcocount;
  }

  lemma {:induction false} FreshCarries(l: Link)
    requires Fresh(l)
    ensures Carries(l, [])
  {
    assert [] + [] == Coded(l.rx.keyed, l.rx.rxs, []) == [];
  }

  lemma {:induction false} FreshCoupled(a: Peer, b: Peer, p: Pair)
    requires a.Valid() && b.Valid() && Fresh(p.ab) && Fresh(p.ba)
    requires p.ab.tx == a.TheSender() && p.ab.rx == b.TheReceiver() && p.ba.tx == b.TheSender() && p.ba.rx == a.TheReceiver()
    ensures Coupled(a, b, p, [], []) && Shows(Traffic([], [], [], [], [], []), p)
  {
    FreshCarries(p.ab);
    FreshCarries(p.ba);
    hide Carries;
  }

  /** The tunnel from the handshake on: the datagrams that come out, and what is still on its
      way, are those of the model, which starts with the ciphers in lock step. */
  method Session(a: Peer, b: Peer, steps: seq<(bool, Step)>) returns (ok: bool, t: Traffic, ghost p: Pair)
    requires Separate(a, b) && a.Valid() && b.Valid() && a.keyed && b.keyed && a.key == b.key
    requires |a.rxsalt| == SALT && |b.rxsalt| == SALT && a.txsalt == b.rxsalt && b.txsalt == a.rxsalt
    requires a.tcocount == b.tcocount == a.tcipos == b.tcipos == 0
    modifies a, a.fullkey, a.txs, a.txs.s, a.tcobuf, a.rxs, a.rxs.s, a.tcibuf
    modifies b, b.fullkey, b.txs, b.txs.s, b.tcobuf, b.rxs, b.rxs.s, b.tcibuf
    ensures a.Valid() && b.Valid() && (ok <==> old(a.rxsalt) != old(b.rxsalt))
    ensures ok ==> Fresh(p.ab) && Fresh(p.ba) && p.ab.tx.keyed && p.ba.tx.keyed
    ensures ok ==> Shows(t, Played(p, steps, |steps|)) && Safe(a, b, t)
  {
    t := Traffic([], [], [], [], [], []);
    ok := Handshake(a, b);
    p := Pair(Link(a.TheSender(), [], b.TheReceiver(), [], []), Link(b.TheSender(), [], a.TheReceiver(), [], []));
    if ok {
      t := Converse(a, b, steps, p);
    }
  }
}
