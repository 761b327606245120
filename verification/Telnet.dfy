/** The terminal multiplexor's receive side (sim_tmxr.c): Telnet commands are taken out of the
    line buffer in place. */
module Telnet {
  import opened Bytes
  import opened Common

  /** TMXR_MAXBUF, TMXR_GUARD */
  const MAXBUF := 128
  const GUARD := 8

  /** The protocol bytes; the source writes those above 127 as negative chars. */
  const IAC: byte := 255
  const WONT: byte := 252
  const WILL: byte := 251
  const BIN: byte := 0
  const CR: byte := 13

  datatype Sequence = Norm | Iac | Will | Wont | Skip

  /** Where the line is in a Telnet sequence, and whether binary mode is off, so that a CR has a
      character after it that is not data. */
  datatype State = State(tsta: Sequence, dstb: bool)

  const INITIAL := State(Norm, false)

  /** The state table: the next state, and whether the character is kept. */
  function Step(s: State, c: byte): (State, bool) {
    match s.tsta
    case Norm =>
      if c == IAC then (s.(tsta := Iac), false)
      else (if c == CR && s.dstb then s.(tsta := Skip) else s, true)
    case Iac => (s.(tsta := if c == WILL then Will else if c == WONT then Wont else Skip), false)
    case Will => (State(Norm, if c == BIN then false else s.dstb), false)
    case Wont => (State(Norm, if c == BIN then true else s.dstb), false)
    case Skip => (s.(tsta := Norm), false)
  }

  /** The state after some input, and the characters kept of it. */
  function After(s: State, input: seq<byte>): State {
    if input == [] then s else Step(After(s, input[..|input| - 1]), input[|input| - 1]).0
  }

  function Kept(s: State, input: seq<byte>): (r: seq<byte>)
    ensures |r| <= |input|
  {
    if input == [] then [] else
      var was := input[..|input| - 1];
      Kept(s, was) + if Step(After(s, was), input[|input| - 1]).1 then [input[|input| - 1]] else []
  }

  lemma {:induction false} Next(s: State, input: seq<byte>, c: byte)
    ensures After(s, input + [c]) == Step(After(s, input), c).0
    ensures Kept(s, input + [c]) == Kept(s, input) + if Step(After(s, input), c).1 then [c] else []
  {
    assert (input + [c])[..|input|] == input;
  }

  lemma {:induction false} MoveFirst(a: seq<byte>, b: seq<byte>)
    requires b != []
    ensures a + b == (a + [b[0]]) + b[1..]
  {
  }

  lemma {:induction false} FirstWaiting(b: seq<byte>, i: nat, j: nat)
    requires i < j <= |b|
    ensures b[i..j] == [b[i]] + b[i + 1..j]
  {
  }

  lemma {:induction false} MovedDown(b: seq<byte>, b': seq<byte>, i: nat, j: nat)
    requires i <= j < |b| == |b'| && forall k :: i <= k < j ==> b'[k] == b[k + 1]
    ensures b'[i..j] == b[i + 1..j + 1]
  {
  }

  lemma {:induction false} Slices(a: seq<byte>, b: seq<byte>, i: nat, j: nat)
    requires |a| == |b| && i <= j <= |a| && a[..j] == b[..j]
    ensures a[i..j] == b[i..j] && a[..i] == b[..i]
  {
    assert a[i..j] == a[..j][i..] && a[..i] == a[..j][..i];
    assert b[i..j] == b[..j][i..] && b[..i] == b[..j][..i];
  }

  lemma {:induction false} Waiting(b: seq<byte>, b': seq<byte>, i: nat, j: nat, end: nat)
    requires |b| == |b'| && i <= j <= end <= |b| && b[..j] == b'[..j]
    ensures b'[i..end] == b[i..j] + b'[j..end]
  {
    Slices(b, b', i, j);
  }

  /** A buffer being stripped: what was kept of the characters from `j0` on, and what is still to
      be looked at. */
  ghost predicate Stripping(b: seq<byte>, j0: nat, j: nat, end: nat, kept: seq<byte>, rest: seq<byte>) {
    j0 <= j <= end <= |b| && b[j0..j] == kept && b[j..end] == rest
  }

  ghost predicate Progress(b: seq<byte>, j0: nat, j: nat, end: nat, s: State, t: State, done: seq<byte>, rest: seq<byte>) {
    After(s, done) == t && Stripping(b, j0, j, end, Kept(s, done), rest)
  }

  lemma {:induction false} Examined(b: seq<byte>, j0: nat, end: nat, s: State, t: State, done: seq<byte>, rest: seq<byte>)
    requires Progress(b, j0, end, end, s, t, done, rest)
    ensures rest == [] && After(s, done) == t && b[j0..end] == Kept(s, done)
  {
  }

  lemma {:induction false} StripKept(b: seq<byte>, j0: nat, j: nat, end: nat, kept: seq<byte>, rest: seq<byte>)
    requires Stripping(b, j0, j, end, kept, rest) && j < end
    ensures rest != [] && rest[0] == b[j] && Stripping(b, j0, j + 1, end, kept + [b[j]], rest[1..])
  {
    assert b[j0..j + 1] == b[j0..j] + [b[j]];
  }

  lemma {:induction false} StripDropped(b: seq<byte>, b': seq<byte>, j0: nat, j: nat, end: nat, kept: seq<byte>, rest: seq<byte>)
    requires Stripping(b, j0, j, end, kept, rest) && j < end && |b| == |b'|
    requires b[..j] == b'[..j] && b'[j..end - 1] == b[j + 1..end]
    ensures b[..j0] == b'[..j0] && rest != [] && Stripping(b', j0, j, end - 1, kept + [], rest[1..])
  {
    Slices(b, b', j0, j);
  }

  /** However the input is cut, the same is kept of it. */
  lemma {:induction false} Cut(s: State, a: seq<byte>, b: seq<byte>)
    ensures After(s, a + b) == After(After(s, a), b)
    ensures Kept(s, a + b) == Kept(s, a) + Kept(After(s, a), b)
  {
    if b == [] {
      assert a + b == a;
    } else {
      var n := |b| - 1;
      Cut(s, a, b[..n]);
      assert (a + b)[..|a + b| - 1] == a + b[..n];
      var was, t := Kept(s, a), After(s, a);
      var last := if Step(After(t, b[..n]), b[n]).1 then [b[n]] else [];
      assert (was + Kept(t, b[..n])) + last == was + (Kept(t, b[..n]) + last);
    }
  }

  /** In a sequence, the first character is not kept. */
  lemma {:induction false} FirstDropped(s: State, input: seq<byte>)
    requires s.tsta != Norm && input != []
    ensures |Kept(s, input)| < |input|
  {
    if |input| > 1 {
      FirstDropped(s, input[..|input| - 1]);
    } else {
      assert input[..0] == [];
    }
  }

  /** Data without IAC, and without CR unless in binary mode, is kept as it is. */
  lemma {:induction false} Transparent(s: State, data: seq<byte>)
    requires s.tsta == Norm && IAC !in data && (s.dstb ==> CR !in data)
    ensures After(s, data) == s && Kept(s, data) == data
  {
    if data != [] {
      var n := |data| - 1;
      assert data[n] in data;
      assert data == data[..n] + [data[n]];
      Transparent(s, data[..n]);
    }
  }

  /** A command, of whatever kind, leaves no character; only WILL and WONT about binary mode have an
      effect. */
  lemma {:induction false} Command(s: State, verb: byte, option: byte, rest: seq<byte>)
    requires s.tsta == Norm
    ensures
      var t := if option == 0 && verb == 251 then s.(dstb := false)
               else if option == 0 && verb == 252 then s.(dstb := true) else s;
      && After(s, [255, verb, option] + rest) == After(t, rest)
      && Kept(s, [255, verb, option] + rest) == Kept(t, rest)
  {
    var c := [IAC, verb, option];
    Next(s, [], IAC);
    Next(s, [IAC], verb);
    Next(s, [IAC, verb], option);
    assert [] + [IAC] == [IAC] && [IAC] + [verb] == [IAC, verb] && [IAC, verb] + [option] == c;
    Cut(s, c, rest);
    hide Step;
    assert Kept(s, c) == [];
  }

  /** Outside binary mode a carriage return is kept, and the character after it dropped, even an IAC.
      In binary mode it is like any other character. */
  lemma {:induction false} CarriageReturn(s: State, c: byte, rest: seq<byte>)
    requires s.tsta == Norm
    ensures s.dstb ==> After(s, [13, c] + rest) == After(s, rest) && Kept(s, [13, c] + rest) == [13] + Kept(s, rest)
    ensures !s.dstb ==> After(s, [13] + rest) == After(s, rest) && Kept(s, [13] + rest) == [13] + Kept(s, rest)
  {
    Next(s, [], CR);
    Next(s, [CR], c);
    assert [] + [CR] == [CR] && [CR] + [c] == [CR, c];
    Cut(s, [CR, c], rest);
    Cut(s, [CR], rest);
    hide Step;
    assert After(s, []) == s && Kept(s, []) == [];
  }

  /** The code does not take a doubled IAC for data: it drops both and the character after. */
  lemma {:induction false} DoubledIac(s: State, c: byte, rest: seq<byte>)
    requires s.tsta == Norm
    ensures Kept(s, [IAC, IAC, c] + rest) == Kept(s, rest)
  {
    Command(s, IAC, c, rest);
  }

  /** A character with the valid flag, TMXR_VALID. */
  function Valued(c: byte): int {
    var n: int := c;
    0x8000 + n
  }

  datatype Received = Closed | Data(bytes: seq<byte>)

  class Line {
    var conn: bool
    var rcve: bool
    var tsta: Sequence
    var dstb: bool
    var rxbpr: nat
    var rxbpi: nat
    const rxb: array<byte>
    /** The transmit buffer, which follows the receive buffer in the line descriptor. */
    const txb: array<byte>

    /** What the connection has sent, and what the simulator has taken, since it began. */
    ghost var received: seq<byte>
    ghost var delivered: seq<byte>

    ghost predicate Shape()
      reads this`rxbpr, this`rxbpi
    {
      rxb.Length == MAXBUF && txb.Length == MAXBUF && rxb != txb && rxbpr <= rxbpi <= MAXBUF
    }

    /** Delivered and waiting are, in this order, what is to be kept of the input; and a line in a
        sequence has room to read the end of it. */
    ghost predicate Valid()
      reads this, rxb
    {
      && Shape()
      && rxbpi < MAXBUF
      && After(INITIAL, received) == State(tsta, dstb)
      && Kept(INITIAL, received) == delivered + rxb[rxbpr..rxbpi]
      && (rxbpr == rxbpi ==> rxbpi == 0)
    }

    constructor (rxb: array<byte>, txb: array<byte>)
      requires rxb.Length == MAXBUF && txb.Length == MAXBUF && rxb != txb
      ensures Valid() && !conn && received == [] && delivered == [] && this.rxb == rxb && this.txb == txb
    {
      this.rxb, this.txb := rxb, txb;
      conn, rcve, tsta, dstb, rxbpr, rxbpi := false, false, Norm, false, 0, 0;
      received, delivered := [], [];
    }

    /** The line part of tmxr_poll_conn, and tmxr_reset_ln. */
    method Reset(connected: bool)
      requires Shape()
      modifies this
      ensures Valid() && conn == connected && received == [] && delivered == [] && rxbpi == 0 && rcve == old(rcve)
    {
      conn, tsta, dstb, rxbpr, rxbpi := connected, Norm, false, 0, 0;
      received, delivered := [], [];
    }

    /** tmxr_rmvrc: remove the p-th character. With a full buffer the last character moved is one
        past it, but that place is then no longer in use. */
    method Rmvrc(p: nat)
      requires Shape() && rxbpr <= p < rxbpi
      modifies this`rxbpi, rxb
      ensures Shape() && rxbpi == old(rxbpi) - 1
      ensures rxb[..p] == old(rxb[..p]) && rxb[p..rxbpi] == old(rxb[p + 1..rxbpi])
    {
      var q := p;
      while q < rxbpi
        invariant p <= q <= rxbpi == old(rxbpi)
        invariant rxb[..p] == old(rxb[..p])
        invariant forall k :: p <= k < q && k + 1 < rxbpi ==> rxb[k] == old(rxb[..])[k + 1]
        invariant forall k :: q <= k < rxbpi ==> rxb[k] == old(rxb[..])[k]
      {
        rxb[q] := if q + 1 < MAXBUF then rxb[q + 1] else txb[0];
        q := q + 1;
      }
      rxbpi := rxbpi - 1;
      MovedDown(old(rxb[..]), rxb[..], p, rxbpi);
    }

    /** One character in a Telnet sequence, or beginning one. */
    method Drop(j: nat)
      requires Shape() && rxbpr <= j < rxbpi && (tsta == Norm ==> rxb[j] == IAC)
      modifies this`rxbpi, this`tsta, this`dstb, rxb
      ensures Shape() && rxbpi == old(rxbpi) - 1
      ensures Step(old(State(tsta, dstb)), old(rxb[j])) == (State(tsta, dstb), false)
      ensures rxb[..j] == old(rxb[..j]) && rxb[j..rxbpi] == old(rxb[j + 1..rxbpi])
    {
      var tmp := rxb[j];
      match tsta {
        case Norm =>
          tsta := Iac;
        case Iac =>
          tsta := if tmp == WILL then Will else if tmp == WONT then Wont else Skip;
        case Will =>
          if tmp == BIN {
            dstb := false;
          }
          tsta := Norm;
        case Wont =>
          if tmp == BIN {
            dstb := true;
          }
          tsta := Norm;
        case Skip =>
          tsta := Norm;
      }
      Rmvrc(j);
    }

    /** One character that is data. */
    method Keep(j: nat)
      requires Shape() && rxbpr <= j < rxbpi && tsta == Norm && rxb[j] != IAC
      modifies this`tsta
      ensures Step(old(State(tsta, dstb)), rxb[j]) == (State(tsta, dstb), true)
    {
      if rxb[j] == CR && dstb {
        tsta := Skip;
      }
    }

    /** One round of the loop. */
    method Examine(j0: nat, j: nat, ghost s: State, ghost done: seq<byte>, ghost rest: seq<byte>) returns (k: nat)
      requires Shape() && rxbpr <= j0 <= j < rxbpi
      requires Progress(rxb[..], j0, j, rxbpi, s, State(tsta, dstb), done, rest)
      modifies this`rxbpi, this`tsta, this`dstb, rxb
      ensures Shape() && j0 <= k <= rxbpi && rxbpi - k == old(rxbpi) - j - 1
      ensures rest != [] && Progress(rxb[..], j0, k, rxbpi, s, State(tsta, dstb), done + [rest[0]], rest[1..])
      ensures rxb[..j0] == old(rxb[..j0])
    {
      hide After, Kept, Stripping, Step;
      ghost var c, before, end := rxb[j], rxb[..], rxbpi;
      Next(s, done, c);
      StripKept(before, j0, j, end, Kept(s, done), rest);
      k := j;
      if tsta == Norm && rxb[j] != IAC {
        Keep(j);
        k := k + 1;
      } else {
        Drop(j);
        StripDropped(before, rxb[..], j0, j, end, Kept(s, done), rest);
      }
    }

    /** Taking the Telnet commands out of the characters from the j0-th on. */
    method Strip(j0: nat, ghost data: seq<byte>)
      requires Shape() && rxbpr <= j0 <= rxbpi && rxb[j0..rxbpi] == data
      modifies this`rxbpi, this`tsta, this`dstb, rxb
      ensures Shape() && j0 <= rxbpi && rxb[..j0] == old(rxb[..j0])
      ensures State(tsta, dstb) == After(old(State(tsta, dstb)), data)
      ensures rxb[j0..rxbpi] == Kept(old(State(tsta, dstb)), data)
    {
      var j := j0;
      ghost var s, done: seq<byte>, rest := State(tsta, dstb), [], data;
      assert Progress(rxb[..], j0, j, rxbpi, s, s, done, rest);
      hide Progress, After, Kept;
      while j < rxbpi
        invariant Shape() && rxbpr == old(rxbpr) && j0 <= j <= rxbpi && done + rest == data
        invariant Progress(rxb[..], j0, j, rxbpi, s, State(tsta, dstb), done, rest)
        invariant rxb[..j0] == old(rxb[..j0])
        decreases rxbpi - j
      {
        ghost var was := rest;
        j := Examine(j0, j, s, done, rest);
        MoveFirst(done, was);
        done, rest := done + [was[0]], was[1..];
      }
      Examined(rxb[..], j0, j, s, State(tsta, dstb), done, rest);
      assert done + [] == done;
    }

    /** How much the poll asks the socket for: in an empty buffer, all but the guard; in a Telnet
        sequence, the rest of the buffer; else nothing. */
    function Room(): nat
      requires Shape()
      reads this`rxbpr, this`rxbpi, this`tsta
    {
      if rxbpi == 0 then MAXBUF - GUARD else if tsta != Norm then MAXBUF - rxbpi else 0
    }

    /** The line's part of tmxr_poll_rx: closed, the line is reset; else what has come is added to
        the input, and all that was waiting still waits. */
    method Poll(got: Received)
      requires Valid() && (got.Data? ==> |got.bytes| <= Room())
      modifies this, rxb
      ensures Valid() && rcve == old(rcve)
      ensures old(conn && rcve) && old(Room()) > 0 && got.Closed? ==> !conn && received == []
      ensures old(conn && rcve) && got.Data? ==> conn && received == old(received) + got.bytes
      ensures old(conn && rcve) && got.Data? ==>
        rxb[rxbpr..rxbpi] == old(rxb[rxbpr..rxbpi]) + Kept(old(State(tsta, dstb)), got.bytes)
      ensures !old(conn && rcve) || old(Room()) == 0 ==>
        conn == old(conn) && received == old(received) && rxb[rxbpr..rxbpi] == old(rxb[rxbpr..rxbpi])
      ensures got.Data? || !old(conn && rcve) || old(Room()) == 0 ==> delivered == old(delivered)
    {
      hide After, Kept;
      if conn && rcve && (rxbpi == 0 || tsta != Norm) {
        match got {
          case Closed =>
            Reset(false);
          case Data(bytes) =>
            Take(bytes);
        }
      }
      if rxbpi == rxbpr {
        rxbpi, rxbpr := 0, 0;
      }
    }

    method Take(bytes: seq<byte>)
      requires Valid() && |bytes| <= Room()
      modifies this`rxbpi, this`tsta, this`dstb, this`received, rxb
      ensures Shape() && rxbpi < MAXBUF && received == old(received) + bytes
      ensures After(INITIAL, received) == State(tsta, dstb)
      ensures Kept(INITIAL, received) == delivered + rxb[rxbpr..rxbpi]
      ensures rxb[rxbpr..rxbpi] == old(rxb[rxbpr..rxbpi]) + Kept(old(State(tsta, dstb)), bytes)
      ensures rxbpr < rxbpi || rxbpi == old(rxbpi)
    {
      hide After, Kept;
      ghost var s, waiting := State(tsta, dstb), rxb[rxbpr..rxbpi];
      Cut(INITIAL, received, bytes);
      Associate(delivered, waiting, Kept(s, bytes));
      var j := Store(bytes);
      ghost var b := rxb[..];
      Strip(j, bytes);
      Waiting(b, rxb[..], rxbpr, j, rxbpi);
      if s.tsta != Norm && bytes != [] {
        FirstDropped(s, bytes);
      }
      received := received + bytes;
    }

    /** What sim_read_sock stores. */
    method Store(bytes: seq<byte>) returns (j: nat)
      requires Shape() && rxbpi + |bytes| <= MAXBUF
      modifies this`rxbpi, rxb
      ensures Shape() && j == old(rxbpi) && rxbpi == j + |bytes|
      ensures rxb[j..rxbpi] == bytes && rxb[rxbpr..j] == old(rxb[rxbpr..rxbpi])
    {
      forall k | 0 <= k < |bytes| {
        rxb[rxbpi + k] := bytes[k];
      }
      j := rxbpi;
      rxbpi := rxbpi + |bytes|;
    }

    /** tmxr_getc_ln: the next character that was kept, if the line is connected and enabled. */
    method Getc() returns (val: int)
      requires Valid()
      modifies this`rxbpr, this`rxbpi, this`delivered
      ensures Valid()
      ensures conn && rcve && old(rxbpr < rxbpi) ==>
        val == 0x8000 + (old(rxb[rxbpr]) as int) && delivered == old(delivered) + [old(rxb[rxbpr])]
      ensures !(conn && rcve && old(rxbpr < rxbpi)) ==> val == 0 && delivered == old(delivered)
    {
      val := 0;
      if conn && rcve {
        var j := rxbpi - rxbpr;
        if j > 0 {
          ghost var c := rxb[rxbpr];
          FirstWaiting(rxb[..], rxbpr, rxbpi);
          Associate(delivered, [c], rxb[rxbpr + 1..rxbpi]);
          var tmp := rxb[rxbpr];
          rxbpr := rxbpr + 1;
          val := Valued(tmp);
          delivered := delivered + [c];
        }
      }
      if rxbpi == rxbpr {
        rxbpi, rxbpr := 0, 0;
      }
    }
  }
}
