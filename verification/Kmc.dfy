/** The buffer descriptor queues of the KMC11 and its DUP11 lines (dec_kdp.c). */
module Kmc {
  import opened Bytes
  import opened Common
  import opened Words

  const MAXQUEUE := 16
  const MAXDUP := 2
  const MAXMSG := 2000
  const W16 := 0x1_0000

  /** What the device reads on the Unibus, at the time of a call. */
  type Bus = nat -> nat

  /** The last descriptor of a list. */
  predicate IsLast(bus: Bus, bda: nat) {
    bus(bda + 4) / 0x8000 % 2 == 1
  }

  /** The descriptors of a list of which the n-th is the last. */
  function List(ba: nat, n: nat): (bds: seq<nat>)
    ensures |bds| == n + 1
    decreases n
  {
    if n == 0 then [ba] else [ba] + List(ba + 6, n - 1)
  }

  ghost predicate Terminated(bus: Bus, ba: nat, n: nat) {
    IsLast(bus, ba + 6 * n) && forall i :: 0 <= i < n ==> !IsLast(bus, ba + 6 * i)
  }

  /** What of `bds` fits into a queue that holds `count`. */
  function Fitting(bds: seq<nat>, count: nat): seq<nat>
    requires count <= MAXQUEUE
  {
    if count + |bds| <= MAXQUEUE then bds else bds[..MAXQUEUE - count]
  }

  // ---------------------------------------------------------------- a queue

  /** Descriptors in the order in which they were queued, of which the first `next` are done;
      with all that were accepted and all that went back. */
  datatype QueueState = QueueState(items: seq<nat>, next: nat, accepted: seq<nat>, returned: seq<nat>) {
    ghost predicate Valid() {
      next <= |items| <= MAXQUEUE && accepted == returned + items
    }

    /** Those that are done, whether they went back or not. */
    ghost function Done(): seq<nat>
      requires Valid()
    {
      returned + items[..next]
    }

    /** Those that are not done. */
    ghost function Rest(): seq<nat>
      requires Valid()
    {
      items[next..]
    }

    /** As many as fit are queued; the others are ignored. */
    ghost function Pushed(bds: seq<nat>): QueueState
      requires Valid()
    {
      var fit := Fitting(bds, |items|);
      this.(items := items + fit, accepted := accepted + fit)
    }

    ghost function Popped(): QueueState
      requires Valid() && next > 0
    {
      QueueState(items[1..], next - 1, accepted, returned + [items[0]])
    }

    ghost function Completed(n: nat): QueueState {
      this.(next := next + n)
    }

    /** A master clear forgets what did not go back. */
    ghost function Cleared(): QueueState {
      QueueState([], 0, returned, returned)
    }
  }

  lemma {:induction false} PushedValid(s: QueueState, bds: seq<nat>)
    requires s.Valid()
    ensures s.Pushed(bds).Valid() && s.Pushed(bds).Done() == s.Done()
  {
    var fit := Fitting(bds, |s.items|);
    Associate(s.returned, s.items, fit);
    assert (s.items + fit)[..s.next] == s.items[..s.next];
  }

  /** What goes back is the first of those accepted that did not, and it is done. */
  lemma {:induction false} PoppedValid(s: QueueState)
    requires s.Valid() && s.next > 0
    ensures s.Popped().Valid() && s.Popped().Done() == s.Done()
    ensures s.Popped().returned <= s.Done() <= s.accepted
  {
    MoveFirst(s.returned, s.items, s.next);
    assert s.items == s.items[..s.next] + s.items[s.next..];
    Associate(s.returned, s.items[..s.next], s.items[s.next..]);
  }

  lemma {:induction false} CompletedValid(s: QueueState, n: nat)
    requires s.Valid() && s.next + n <= |s.items|
    ensures s.Completed(n).Valid() && s.Completed(n).Done() == s.Done() + s.items[s.next..s.next + n]
  {
    assert s.items[..s.next + n] == s.items[..s.next] + s.items[s.next..s.next + n];
    Associate(s.returned, s.items[..s.next], s.items[s.next..s.next + n]);
  }

  class Queue {
    const slots: array<nat>
    var count: nat
    var next: nat
    ghost var accepted: seq<nat>
    ghost var returned: seq<nat>

    ghost predicate Shape()
      reads this
    {
      slots.Length == MAXQUEUE && count <= MAXQUEUE
    }

    ghost function State(): QueueState
      requires Shape()
      reads this, slots
    {
      QueueState(slots[..count], next, accepted, returned)
    }

    ghost predicate Valid()
      reads this, slots
    {
      Shape() && State().Valid()
    }

    constructor ()
      ensures Valid() && fresh(slots) && State() == QueueState([], 0, [], [])
    {
      slots := new nat[MAXQUEUE](i => 0);
      count, next, accepted, returned := 0, 0, [], [];
    }

    /** A descriptor is queued, or ignored when the queue is full. */
    method Push(bda: nat)
      requires Valid()
      modifies this`count, this`accepted, slots
      ensures Valid() && State() == old(State()).Pushed([bda])
      ensures slots[..count] == old(slots[..count]) + if old(count) < 16 then [bda] else []
    {
      PushedValid(State(), [bda]);
      if count < MAXQUEUE {
        ghost var was := slots[..count];
        slots[count] := bda;
        count := count + 1;
        accepted := accepted + [bda];
        assert slots[..count] == was + [bda];
      } else {
        assert Fitting([bda], count) == [];
      }
    }

    /** The loop of dup_newrxbuf and dup_newtxbuf: a whole list is queued, as far as there is room. */
    method PushList(bus: Bus, ba: nat, ghost n: nat)
      requires Valid() && Terminated(bus, ba, n)
      modifies this`count, this`accepted, slots
      ensures Valid() && State() == old(State()).Pushed(List(ba, n))
    {
      hide List, Fitting, IsLast, Terminated;
      var bda := ba;
      ghost var k, s, l := 0, State(), List(ba, n);
      PushedNothing(s);
      assert l[..n + 1] == l && l[..0] == [];
      while true
        invariant 0 <= k <= n && bda == ba + 6 * k && Valid() && State() == s.Pushed(l[..k])
        decreases n - k
      {
        ListAt(ba, n, k);
        PushedNext(s, l, k);
        LastAt(bus, ba, n, k);
        Push(bda);
        if IsLast(bus, bda) {
          break;
        }
        bda, k := bda + 6, k + 1;
      }
    }

    /** The first descriptor, which is done, goes back. */
    method Pop() returns (bda: nat)
      requires Valid() && next > 0
      modifies this`count, this`next, this`returned, slots
      ensures Valid() && State() == old(State()).Popped() && bda == old(State()).items[0]
      ensures [bda] + slots[..count] == old(slots[..count]) && next == old(next) - 1
    {
      PoppedValid(State());
      bda := slots[0];
      ghost var was := slots[..count];
      assert slots[1..count] == was[1..];
      Shift();
      count, next := count - 1, next - 1;
      returned := returned + [bda];
    }

    method Shift()
      requires slots.Length == MAXQUEUE && 0 < count <= MAXQUEUE
      modifies slots
      ensures slots[..count - 1] == old(slots[1..count])
    {
      for j := 1 to count
        invariant forall i :: 0 <= i < j - 1 ==> slots[i] == old(slots[i + 1])
        invariant forall i :: j - 1 <= i < count ==> slots[i] == old(slots[i])
      {
        slots[j - 1] := slots[j];
      }
    }

    /** The next `n` descriptors are done. */
    method Complete(n: nat)
      requires Valid() && next + n <= count
      modifies this`next
      ensures Valid() && State() == old(State()).Completed(n)
    {
      CompletedValid(State(), n);
      next := next + n;
    }

    method Clear()
      requires Valid()
      modifies this`count, this`next, this`accepted
      ensures Valid() && State() == old(State()).Cleared()
    {
      count, next, accepted := 0, 0, returned;
    }
  }

  lemma {:induction false} PushedNothing(s: QueueState)
    requires s.Valid()
    ensures s.Pushed([]) == s
  {
  }

  lemma {:induction false} PushedNext(s: QueueState, l: seq<nat>, k: nat)
    requires s.Valid() && k < |l|
    ensures s.Pushed(l[..k]).Valid() && s.Pushed(l[..k]).Pushed([l[k]]) == s.Pushed(l[..k + 1])
  {
    PushedValid(s, l[..k]);
    var n := |s.items|;
    var f := Fitting(l[..k], n);
    var g := Fitting([l[k]], n + |f|);
    assert l[..k + 1] == l[..k] + [l[k]];
    assert Fitting(l[..k + 1], n) == f + g;
    hide Fitting;
    Associate(s.items, f, g);
    Associate(s.accepted, f, g);
  }

  lemma {:induction false} MoveFirst<T>(a: seq<T>, b: seq<T>, n: nat)
    requires 0 < n <= |b|
    ensures a + b == a + [b[0]] + b[1..] && a + b[..n] == a + [b[0]] + b[1..][..n - 1]
  {
    assert b == [b[0]] + b[1..] && b[..n] == [b[0]] + b[1..][..n - 1];
  }

  lemma {:induction false} LastAt(bus: Bus, ba: nat, n: nat, k: nat)
    requires Terminated(bus, ba, n) && k <= n
    ensures IsLast(bus, ba + 6 * k) <==> k == n
  {
  }

  lemma {:induction false} ListAt(ba: nat, n: nat, k: nat)
    requires k <= n
    ensures List(ba, n)[k] == ba + 6 * k
    decreases n
  {
    if k > 0 {
      ListAt(ba + 6, n - 1, k - 1);
    }
  }

  // ---------------------------------------------------------------- frames to transmit

  /** The address and the length in a descriptor. */
  function BufferAddress(bus: Bus, bda: nat): nat {
    bus(bda) + bus(bda + 4) / 1024 % 4 * W16
  }

  function Length(bus: Bus, bda: nat): nat {
    bus(bda + 2)
  }

  function Fetched(dma: nat -> byte, ba: nat, n: nat): (b: seq<byte>)
    ensures |b| == n
  {
    seq(n, i requires 0 <= i < n => dma(ba + i))
  }

  /** The bytes of the buffers of some descriptors, one after the other. */
  function Gathered(bus: Bus, dma: nat -> byte, bds: seq<nat>): seq<byte> {
    if bds == [] then [] else
      var n := |bds| - 1;
      Gathered(bus, dma, bds[..n]) + Fetched(dma, BufferAddress(bus, bds[n]), Length(bus, bds[n]))
  }

  /** The number of descriptors up to the first that is the last of a list; 0 without one. */
  function FrameSize(bus: Bus, bds: seq<nat>): (n: nat)
    ensures n <= |bds|
  {
    if bds == [] then 0
    else if IsLast(bus, bds[0]) then 1
    else
      var n := FrameSize(bus, bds[1..]);
      if n == 0 then 0 else n + 1
  }

  lemma {:induction false} FirstNone(bus: Bus, bds: seq<nat>)
    ensures NoneLast(bus, bds, 0)
  {
  }

  lemma {:induction false} NoFrame(bus: Bus)
    ensures FrameSize(bus, []) == 0
  {
  }

  ghost predicate NoneLast(bus: Bus, bds: seq<nat>, n: nat) {
    n <= |bds| && forall i :: 0 <= i < n ==> !IsLast(bus, bds[i])
  }

  lemma {:induction false} FrameSizeAt(bus: Bus, bds: seq<nat>, n: nat)
    requires NoneLast(bus, bds, n)
    ensures n == |bds| ==> FrameSize(bus, bds) == 0
    ensures n < |bds| && IsLast(bus, bds[n]) ==> FrameSize(bus, bds) == n + 1
    ensures n < |bds| && !IsLast(bus, bds[n]) ==> NoneLast(bus, bds, n + 1)
    decreases n
  {
    if n > 0 {
      FrameSizeAt(bus, bds[1..], n - 1);
    }
  }

  lemma {:induction false} GatheredNext(bus: Bus, dma: nat -> byte, bds: seq<nat>, n: nat)
    requires n < |bds|
    ensures Gathered(bus, dma, bds[..n + 1])
         == Gathered(bus, dma, bds[..n]) + Fetched(dma, BufferAddress(bus, bds[n]), Length(bus, bds[n]))
  {
    assert bds[..n + 1][..n] == bds[..n];
  }

  lemma {:induction false} GatheredMono(bus: Bus, dma: nat -> byte, bds: seq<nat>, m: nat, n: nat)
    requires m <= n <= |bds|
    ensures |Gathered(bus, dma, bds[..m])| <= |Gathered(bus, dma, bds[..n])|
    decreases n
  {
    hide Gathered, Fetched, BufferAddress, Length;
    if m < n {
      GatheredMono(bus, dma, bds, m, n - 1);
      GatheredNext(bus, dma, bds, n - 1);
    }
  }

  /** The first half of dup_tryxmit: the size of a frame, and its length in bytes. */
  method ScanFrame(bus: Bus, dma: nat -> byte, bds: seq<nat>) returns (dcount: nat, msglen: nat)
    ensures dcount == FrameSize(bus, bds)
    ensures dcount > 0 ==> msglen == |Gathered(bus, dma, bds[..dcount])|
  {
    msglen := 0;
    var i: nat := 0;
    NothingGathered(bus, dma);
    assert bds[..0] == [];
    hide IsLast, FrameSize, Gathered, Fetched, BufferAddress, Length, NoneLast;
    assert NoneLast(bus, bds, 0) by {
      FirstNone(bus, bds);
    }
    while i < |bds|
      invariant i <= |bds| && NoneLast(bus, bds, i)
      invariant msglen == |Gathered(bus, dma, bds[..i])|
    {
      GatheredNext(bus, dma, bds, i);
      msglen := msglen + Length(bus, bds[i]);
      FrameSizeAt(bus, bds, i);
      if IsLast(bus, bds[i]) {
        return i + 1, msglen;
      }
      i := i + 1;
    }
    FrameSizeAt(bus, bds, i);
    dcount := 0;
  }

  /** dma_read into the buffer at `pos`. */
  method FetchInto(buffer: array<byte>, pos: nat, dma: nat -> byte, ba: nat, n: nat)
    requires pos + n <= buffer.Length
    modifies buffer
    ensures buffer[..pos + n] == old(buffer[..pos]) + Fetched(dma, ba, n)
  {
    forall k | 0 <= k < n {
      buffer[pos + k] := dma(ba + k);
    }
    assert buffer[pos..pos + n] == Fetched(dma, ba, n) && buffer[..pos] == old(buffer[..pos]);
    assert buffer[..pos + n] == buffer[..pos] + buffer[pos..pos + n];
  }

  /** The second half: the message, in a buffer that it never overruns. */
  method BuildFrame(bus: Bus, dma: nat -> byte, bds: seq<nat>, msglen: nat) returns (msg: seq<byte>)
    requires msglen == |Gathered(bus, dma, bds)| <= MAXMSG
    ensures msg == Gathered(bus, dma, bds)
  {
    var buffer := new byte[MAXMSG](i => 0);
    var pos: nat := 0;
    hide Gathered, Fetched, BufferAddress, Length;
    assert bds[..|bds|] == bds && bds[..0] == [];
    assert buffer[..0] == Gathered(bus, dma, []) by {
      NothingGathered(bus, dma);
    }
    for i := 0 to |bds|
      invariant pos <= MAXMSG && buffer[..pos] == Gathered(bus, dma, bds[..i])
    {
      GatheredNext(bus, dma, bds, i);
      GatheredMono(bus, dma, bds, i + 1, |bds|);
      FetchInto(buffer, pos, dma, BufferAddress(bus, bds[i]), Length(bus, bds[i]));
      pos := pos + Length(bus, bds[i]);
    }
    msg := buffer[..msglen];
  }

  lemma {:induction false} NothingGathered(bus: Bus, dma: nat -> byte)
    ensures Gathered(bus, dma, []) == []
  {
  }

  /** The message that a frame makes. */
  function Message(bus: Bus, dma: nat -> byte, bds: seq<nat>): Option<seq<byte>> {
    if |Gathered(bus, dma, bds)| <= MAXMSG then Some(Gathered(bus, dma, bds)) else None
  }

  /** The length of a frame, by the second words of its descriptors. */
  ghost function Total(bus: Bus, bds: seq<nat>): nat {
    if bds == [] then 0 else Total(bus, bds[..|bds| - 1]) + bus(bds[|bds| - 1] + 2)
  }

  lemma {:induction false} GatheredTotal(bus: Bus, dma: nat -> byte, bds: seq<nat>)
    ensures |Gathered(bus, dma, bds)| == Total(bus, bds)
    decreases |bds|
  {
    if bds != [] {
      GatheredTotal(bus, dma, bds[..|bds| - 1]);
    }
  }

  lemma {:induction false} LastPart(bus: Bus, dma: nat -> byte, bds: seq<nat>, j: nat)
    requires bds != []
    ensures var n := |bds| - 1;
      && Gathered(bus, dma, bds[..n]) <= Gathered(bus, dma, bds)
      && (j < bus(bds[n] + 2) ==>
        var k := |Gathered(bus, dma, bds[..n])| + j;
        k < |Gathered(bus, dma, bds)|
        && Gathered(bus, dma, bds)[k] == dma(bus(bds[n]) + bus(bds[n] + 4) / 0x400 % 4 * 0x1_0000 + j))
  {
  }

  /** In a frame, the byte `j` of part `i` comes from the buffer of that descriptor: the first word
      and two bits of the third give its address. */
  lemma {:induction false} GatheredAt(bus: Bus, dma: nat -> byte, bds: seq<nat>, i: nat, j: nat)
    requires i < |bds| && j < bus(bds[i] + 2)
    ensures var k := Total(bus, bds[..i]) + j;
      && k < |Gathered(bus, dma, bds)|
      && Gathered(bus, dma, bds)[k] == dma(bus(bds[i]) + bus(bds[i] + 4) / 0x400 % 4 * 0x1_0000 + j)
    decreases |bds|
  {
    hide *;
    var n := |bds| - 1;
    LastPart(bus, dma, bds, j);
    GatheredTotal(bus, dma, bds[..n]);
    if i < n {
      GatheredAt(bus, dma, bds[..n], i, j);
      assert bds[..n][..i] == bds[..i];
    }
  }

  ghost predicate PartAt(bus: Bus, dma: nat -> byte, bds: seq<nat>, msg: seq<byte>, i: nat, j: nat)
    requires i < |bds|
  {
    var k := Total(bus, bds[..i]) + j;
    k < |msg| && msg[k] == dma(bus(bds[i]) + bus(bds[i] + 4) / 0x400 % 4 * 0x1_0000 + j)
  }

  lemma {:induction false} Parts(bus: Bus, dma: nat -> byte, bds: seq<nat>)
    ensures |Gathered(bus, dma, bds)| == Total(bus, bds)
    ensures forall i: nat, j: nat :: i < |bds| && j < bus(bds[i] + 2) ==> PartAt(bus, dma, bds, Gathered(bus, dma, bds), i, j)
  {
    hide Gathered, Total;
    GatheredTotal(bus, dma, bds);
    forall i: nat, j: nat | i < |bds| && j < bus(bds[i] + 2)
      ensures PartAt(bus, dma, bds, Gathered(bus, dma, bds), i, j)
    {
      GatheredAt(bus, dma, bds, i, j);
    }
  }

  /** A frame ends with the first descriptor that is the last of a list. */
  lemma {:induction false} FrameEnd(bus: Bus, bds: seq<nat>)
    ensures var n := FrameSize(bus, bds);
      && (n > 0 ==> bus(bds[n - 1] + 4) / 0x8000 % 2 == 1)
      && forall i :: 0 <= i < (if n > 0 then n - 1 else |bds|) ==> bus(bds[i] + 4) / 0x8000 % 2 == 0
  {
    if bds != [] && !IsLast(bus, bds[0]) {
      FrameEnd(bus, bds[1..]);
      assert forall i :: 0 < i < |bds| ==> bds[i] == bds[1..][i - 1];
    }
  }

  /** The frame at the front of `bds`, if there is a whole one. */
  method NextFrame(bus: Bus, dma: nat -> byte, bds: seq<nat>) returns (dcount: nat, msg: Option<seq<byte>>)
    ensures dcount == FrameSize(bus, bds)
    ensures msg == if dcount == 0 then None else Message(bus, dma, bds[..dcount])
    ensures dcount > 0 ==> bus(bds[dcount - 1] + 4) / 0x8000 % 2 == 1
    ensures forall i :: 0 <= i < (if dcount > 0 then dcount - 1 else |bds|) ==> bus(bds[i] + 4) / 0x8000 % 2 == 0
    ensures msg.Some? <==> dcount > 0 && Total(bus, bds[..dcount]) <= 2000
    ensures msg.Some? ==> |msg.value| == Total(bus, bds[..dcount])
    ensures msg.Some? ==>
      forall i: nat, j: nat :: i < dcount && j < bus(bds[i] + 2) ==> PartAt(bus, dma, bds[..dcount], msg.value, i, j)
  {
    hide FrameSize, Gathered, IsLast, PartAt, Total;
    var msglen;
    dcount, msglen := ScanFrame(bus, dma, bds);
    msg := None;
    FrameEnd(bus, bds);
    Parts(bus, dma, bds[..dcount]);
    if dcount > 0 && msglen <= MAXMSG {
      var data := BuildFrame(bus, dma, bds[..dcount], msglen);
      msg := Some(data);
    }
  }

  /** What a received message does to memory: its bytes, as many as fit into the buffer, and the
      flags that say that it starts and ends there. */
  datatype Transfer = Transfer(ba: nat, data: seq<byte>, flagsAt: nat, flags: nat)

  function Stored(bus: Bus, bda: nat, data: seq<byte>): Transfer {
    var bl := Length(bus, bda);
    Transfer(BufferAddress(bus, bda), if |data| > bl then data[..bl] else data, bda + 4, Flagged(bus(bda + 4)))
  }

  /** In the words of the descriptor: where the bytes go, how many of them, and the flags. */
  lemma {:induction false} StoredInWords(bus: Bus, bda: nat, data: seq<byte>)
    ensures var t, n := Stored(bus, bda, data), if |data| < bus(bda + 2) then |data| else bus(bda + 2);
      && t.ba == bus(bda) + bus(bda + 4) / 0x400 % 4 * 0x1_0000 && t.data == data[..n] && t.flagsAt == bda + 4
      && t.flags / 0x400 == bus(bda + 4) / 0x400 && t.flags % 0x100 == bus(bda + 4) % 0x100 && t.flags / 0x100 % 4 == 3
  {
    FlaggedBits(bus(bda + 4));
    hide Flagged;
  }

  lemma {:induction false} FlaggedBits(f: nat)
    ensures Flagged(f) / 0x400 == f / 0x400 && Flagged(f) % 0x100 == f % 0x100 && Flagged(f) / 0x100 % 4 == 3
  {
    var q, r := f / 0x400, f % 0x100;
    DivModUnique(f, 0x100, 4 * q + f / 0x100 % 4, r);
    DivModUnique(f, 0x400, q, f / 0x100 % 4 * 0x100 + r);
    DivModUnique(Flagged(f), 0x100, 4 * q + 3, r);
    DivModUnique(Flagged(f), 0x400, q, 3 * 0x100 + r);
  }

  /** BDL_SOM and BDL_EOM, bits 8 and 9, are set. */
  function Flagged(flags: nat): nat {
    flags - flags / 256 % 4 * 256 + 768
  }

  // ---------------------------------------------------------------- the device

  ghost predicate AllValid(s: seq<QueueState>) {
    |s| == 2 * MAXDUP && forall i :: 0 <= i < |s| ==> s[i].Valid()
  }

  /** The second register, by its fields. */
  datatype Csr = Csr(line: nat, rdo: bool, rdi: bool, iot: bool, cmd: nat)

  /** The low bits of a buffer address, and the two high bits in their place in the fourth register. */
  function Low(ba: nat): nat {
    ba % W16
  }

  function High(ba: nat): nat {
    ba / W16 % 4 * 0x4000
  }

  /** The address as the other side puts it together. */
  function Address(sel4: nat, sel6: nat): nat {
    sel6 / 0x4000 % 4 * W16 + sel4
  }

  const EOM := 0x1000

  /** A receive buffer goes back with the end of its message; it is in an even queue. */
  function Mark(k: nat): (e: nat)
    ensures e < 0x4000
  {
    if k % 2 == 0 then EOM else 0
  }

  lemma {:induction false} AddressBack(ba: nat, e: nat)
    requires e < 0x4000
    ensures Address(Low(ba), High(ba) + e) == ba % W18
  {
    var h := ba / W16;
    DivModUnique(ba, W18, h / 4, h % 4 * W16 + ba % W16);
    HighBits(h % 4, e);
  }

  lemma {:induction false} HighBits(x: nat, e: nat)
    requires x < 4 && e < 0x4000
    ensures (x * 0x4000 + e) / 0x4000 % 4 == x
  {
    DivModUnique(x * 0x4000 + e, 0x4000, x, e);
  }

  /** The frame that is tried on a line: the next, if none is on its way. */
  ghost predicate Tried(bus: Bus, dma: nat -> byte, tx: QueueState, was: nat, now: nat, msg: Option<seq<byte>>) {
    && tx.Valid()
    && var n := if was > 0 then 0 else FrameSize(bus, tx.Rest());
    && now == (if n == 0 then was else n)
    && msg == if n == 0 then None else Message(bus, dma, tx.Rest()[..n])
  }

  /** What an input command does: a list is queued for the line and the direction it names, and
      what is to be sent is tried at once. The other commands do nothing. */
  ghost predicate Took(bus: Bus, dma: nat -> byte, c: Csr, ba: nat, n: nat, s: seq<QueueState>, s': seq<QueueState>,
      was: seq<nat>, now: seq<nat>, msg: Option<seq<byte>>)
  {
    && AllValid(s) && |was| == |now| == MAXDUP
    && if c.cmd != 0 || c.line >= MAXDUP then s' == s && now == was && msg == None
       else
         var k := 2 * c.line + if c.iot then 0 else 1;
         && s' == s[k := s[k].Pushed(List(ba, n))]
         && if c.iot then now == was && msg == None
            else now == was[c.line := now[c.line]] && Tried(bus, dma, s'[k], was[c.line], now[c.line], msg)
  }

  lemma {:induction false} TookNothing(bus: Bus, dma: nat -> byte, c: Csr, ba: nat, n: nat, s: seq<QueueState>, was: seq<nat>)
    requires AllValid(s) && |was| == MAXDUP && c.cmd != 0
    ensures Took(bus, dma, c, ba, n, s, s, was, was, None)
  {
  }

  lemma {:induction false} TookReceive(bus: Bus, dma: nat -> byte, c: Csr, ba: nat, n: nat, s: seq<QueueState>, was: seq<nat>)
    requires AllValid(s) && |was| == MAXDUP && c.cmd == 0 && c.line < MAXDUP && c.iot
    ensures Took(bus, dma, c, ba, n, s, s[2 * c.line := s[2 * c.line].Pushed(List(ba, n))], was, was, None)
  {
    hide List;
  }

  lemma {:induction false} TookTransmit(bus: Bus, dma: nat -> byte, c: Csr, ba: nat, n: nat, s: seq<QueueState>, s': seq<QueueState>,
      was: seq<nat>, now: seq<nat>, msg: Option<seq<byte>>)
    requires AllValid(s) && |was| == |now| == MAXDUP && c.cmd == 0 && c.line < MAXDUP && !c.iot
    requires s' == s[2 * c.line + 1 := s[2 * c.line + 1].Pushed(List(ba, n))]
    requires now == was[c.line := now[c.line]] && Tried(bus, dma, s'[2 * c.line + 1], was[c.line], now[c.line], msg)
    ensures Took(bus, dma, c, ba, n, s, s', was, now, msg)
  {
    hide List, Tried;
  }

  /** What comes in on a line goes into its next receive buffer, which is then done. */
  ghost predicate Arrived(bus: Bus, s: QueueState, s': QueueState, data: seq<byte>, store: Option<Transfer>) {
    && s.Valid()
    && store == (if data == [] || s.Rest() == [] then None else Some(Stored(bus, s.Rest()[0], data)))
    && s' == s.Completed(if store == None then 0 else 1)
  }

  /** So on the first `n` lines; nothing else changes. */
  ghost predicate AllArrived(bus: Bus, s: seq<QueueState>, s': seq<QueueState>, data: seq<seq<byte>>, stores: seq<Option<Transfer>>, n: nat) {
    && AllValid(s) && AllValid(s') && n <= MAXDUP && |data| == MAXDUP && |stores| == n
    && (forall i :: 0 <= i < n ==> Arrived(bus, s[2 * i], s'[2 * i], data[i], stores[i]))
    && (forall i :: n <= i < MAXDUP ==> s'[2 * i] == s[2 * i])
    && (forall i :: 0 <= i < MAXDUP ==> s'[2 * i + 1] == s[2 * i + 1])
  }

  lemma {:induction false} NextArrived(bus: Bus, s: seq<QueueState>, s1: seq<QueueState>, s2: seq<QueueState>,
      data: seq<seq<byte>>, stores: seq<Option<Transfer>>, n: nat, store: Option<Transfer>)
    requires AllArrived(bus, s, s1, data, stores, n) && n < MAXDUP && AllValid(s2)
    requires Arrived(bus, s1[2 * n], s2[2 * n], data[n], store) && s2 == s1[2 * n := s2[2 * n]]
    ensures AllArrived(bus, s, s2, data, stores + [store], n + 1)
  {
    hide Arrived;
  }

  /** Something waits to go back to the host. */
  ghost predicate Waiting(s: seq<QueueState>) {
    exists i :: 0 <= i < |s| && s[i].next > 0
  }

  /** The first queue with something that waits. */
  ghost predicate FirstWaiting(s: seq<QueueState>, k: nat) {
    k < |s| && s[k].next > 0 && forall i :: 0 <= i < k ==> s[i].next == 0
  }

  ghost predicate NoneBefore(s: seq<QueueState>, n: nat) {
    n <= |s| && forall i :: 0 <= i < n ==> s[i].next == 0
  }

  lemma {:induction false} NextNone(s: seq<QueueState>, i: nat)
    requires |s| == 2 * MAXDUP && i < MAXDUP && NoneBefore(s, 2 * i)
    ensures s[2 * i].next > 0 ==> FirstWaiting(s, 2 * i) && Waiting(s)
    ensures s[2 * i].next == 0 && s[2 * i + 1].next > 0 ==> FirstWaiting(s, 2 * i + 1) && Waiting(s)
    ensures s[2 * i].next == 0 && s[2 * i + 1].next == 0 ==> NoneBefore(s, 2 * i + 2)
    ensures NoneBefore(s, 2 * MAXDUP) ==> !Waiting(s)
  {
  }

  /** The descriptors of the frame that a line sends follow those that are done. */
  ghost predicate Sending(s: seq<QueueState>, txnow: seq<nat>) {
    && |s| == 2 * MAXDUP && |txnow| == MAXDUP
    && forall l :: 0 <= l < MAXDUP ==> s[2 * l + 1].next + txnow[l] <= |s[2 * l + 1].items|
  }

  lemma {:induction false} PopSending(s: seq<QueueState>, txnow: seq<nat>, k: nat)
    requires Sending(s, txnow) && k < |s| && s[k].Valid()
    ensures s[k].next > 0 ==> Sending(s[k := s[k].Popped()], txnow)
  {
  }

  lemma {:induction false} CompletedNothing(s: seq<QueueState>, k: nat)
    requires k < |s|
    ensures s[k := s[k].Completed(0)] == s
  {
  }

  lemma {:induction false} FrameOut(s: seq<QueueState>, txnow: seq<nat>, line: nat)
    requires Sending(s, txnow) && line < MAXDUP
    ensures Sending(s[2 * line + 1 := s[2 * line + 1].Completed(txnow[line])], txnow[line := 0])
  {
  }

  lemma {:induction false} FrameSending(s: seq<QueueState>, txnow: seq<nat>, line: nat, n: nat)
    requires Sending(s, txnow) && line < MAXDUP && s[2 * line + 1].Valid() && n <= |s[2 * line + 1].Rest()|
    ensures Sending(s, txnow[line := n])
  {
  }

  lemma {:induction false} ReceiveSending(s: seq<QueueState>, txnow: seq<nat>, line: nat)
    requires Sending(s, txnow) && line < MAXDUP
    ensures Sending(s[2 * line := s[2 * line].Completed(1)], txnow)
  {
  }

  lemma {:induction false} StillWaiting(s: seq<QueueState>, k: nat, n: nat)
    requires k < |s|
    ensures Waiting(s) ==> Waiting(s[k := s[k].Completed(n)])
  {
    if Waiting(s) {
      var i :| 0 <= i < |s| && s[i].next > 0;
      assert s[k := s[k].Completed(n)][i].next > 0;
    }
  }

  lemma {:induction false} PushSending(s: seq<QueueState>, txnow: seq<nat>, k: nat, bds: seq<nat>)
    requires Sending(s, txnow) && k < |s| && s[k].Valid()
    ensures Sending(s[k := s[k].Pushed(bds)], txnow)
  {
  }

  lemma {:induction false} ClearedSending(s: seq<QueueState>)
    requires |s| == 2 * MAXDUP && forall i :: 0 <= i < |s| ==> s[i].next == 0
    ensures Sending(s, [0, 0]) && !Waiting(s)
  {
  }

  lemma {:induction false} PushWaiting(s: seq<QueueState>, k: nat, bds: seq<nat>)
    requires k < |s| && s[k].Valid()
    ensures Waiting(s[k := s[k].Pushed(bds)]) <==> Waiting(s)
  {
    var r := s[k := s[k].Pushed(bds)];
    assert forall i :: 0 <= i < |s| ==> r[i].next == s[i].next;
  }

  class Kmc {
    /** The receive and the transmit queue of line i are 2i and 2i+1. */
    const q: seq<Queue>
    var txnow: seq<nat>
    var sel2: Csr
    var sel4: nat
    var sel6: nat
    var output: bool
    ghost var states: seq<QueueState>
    ghost const arrays: set<array<nat>>

    ghost predicate Apart()
    {
      && |q| == 2 * MAXDUP && (forall i :: 0 <= i < |q| ==> q[i].slots in arrays)
      && forall i, j :: 0 <= i < j < |q| ==> q[i] != q[j] && q[i].slots != q[j].slots
    }

    /** The queues are in order by themselves, and are what `states` says. */
    ghost predicate Sound()
      reads this`states, q, arrays
    {
      && Apart() && |states| == |q|
      && forall i :: 0 <= i < |q| ==> q[i].Valid() && q[i].State() == states[i]
    }

    /** The device after its reset, with empty queues of its own. */
    constructor (queues: seq<Queue>)
      requires |queues| == 2 * MAXDUP
      requires forall i :: 0 <= i < |queues| ==> queues[i].Valid() && queues[i].State() == QueueState([], 0, [], [])
      requires forall i, j :: 0 <= i < j < |queues| ==> queues[i] != queues[j] && queues[i].slots != queues[j].slots
      ensures Valid() && !Waiting(states) && q == queues
    {
      hide Sending, Waiting;
      ghost var s := QueueState([], 0, [], []);
      ClearedSending([s, s, s, s]);
      q := queues;
      arrays := {queues[0].slots, queues[1].slots, queues[2].slots, queues[3].slots};
      txnow, sel2, sel4, sel6, output := [0, 0], Csr(0, false, false, false, 0), 0, 0, false;
      states := [s, s, s, s];
    }

    /** The invariant: what is being sent is queued, and no wakeup is lost, for while anything
        waits to go back the output flag is set. */
    ghost predicate Valid()
      reads this, q, arrays
    {
      Sound() && Sending(states, txnow) && (Waiting(states) ==> output)
    }

    method PopQueue(k: nat) returns (bda: nat)
      requires Sound() && k < |q| == |states| && states[k].next > 0
      modifies this`states, q[k], q[k].slots
      ensures Sound() && states == old(states)[k := old(states[k]).Popped()] && bda == old(states[k]).items[0]
    {
      bda := q[k].Pop();
      states := states[k := states[k].Popped()];
      forall i | 0 <= i < |q| ensures q[i].Valid() && q[i].State() == states[i] {
        assert i != k ==> q[i].State() == old(q[i].State());
      }
    }

    method PushQueue(k: nat, bus: Bus, ba: nat, ghost n: nat)
      requires Sound() && k < |q| && Terminated(bus, ba, n)
      modifies this`states, q[k], q[k].slots
      ensures Sound() && states == old(states)[k := old(states[k]).Pushed(List(ba, n))]
    {
      hide List, Terminated;
      q[k].PushList(bus, ba, n);
      states := states[k := states[k].Pushed(List(ba, n))];
      forall i | 0 <= i < |q| ensures q[i].Valid() && q[i].State() == states[i] {
        assert i != k ==> q[i].State() == old(q[i].State());
      }
    }

    method CompleteQueue(k: nat, n: nat)
      requires Sound() && k < |q| && q[k].next + n <= q[k].count
      modifies this`states, q[k]
      ensures Sound() && states == old(states)[k := old(states[k]).Completed(n)]
    {
      q[k].Complete(n);
      states := states[k := states[k].Completed(n)];
      forall i | 0 <= i < |q| ensures q[i].Valid() && q[i].State() == states[i] {
        assert i != k ==> q[i].State() == old(q[i].State());
      }
    }

    // -------------------------------------------------------------- output to the host

    /** The fields of a queue, and its state. */
    lemma {:induction false} SoundValid()
      requires Sound()
      ensures AllValid(states)
    {
    }

    lemma {:induction false} Fields(k: nat)
      requires Sound() && k < 2 * MAXDUP
      ensures |states| == |q| == 2 * MAXDUP && states[k].Valid() && q[k].slots in arrays
      ensures states[k].next == q[k].next && q[k].Shape() && states[k].items == q[k].slots[..q[k].count]
    {
    }

    lemma {:induction false} FourQueues()
      requires Sound()
      ensures |states| == |q| == 2 * MAXDUP
    {
    }

    /** kmc_getrdo */
    method GetRdo() returns (ok: bool)
      modifies this`sel2
      ensures ok == !(old(sel2.rdo) || old(sel2.rdi))
      ensures sel2 == if ok then old(sel2).(rdo := true) else old(sel2)
    {
      if sel2.rdo || sel2.rdi {
        return false;
      }
      sel2 := sel2.(rdo := true);
      return true;
    }

    /** The arm of kmc_tryoutput for one queue: a buffer goes back, if the registers are free. */
    method ReturnFirst(k: nat) returns (done: bool)
      requires Sound() && k < |q| == |states| && states[k].next > 0
      modifies this`states, this`sel2, this`sel4, this`sel6, q[k], q[k].slots
      ensures Sound() && done == !(old(sel2.rdo) || old(sel2.rdi))
      ensures states == if done then old(states)[k := old(states[k]).Popped()] else old(states)
      ensures sel2 == if done then Csr(k / 2, true, false, k % 2 == 0, 0) else old(sel2)
      ensures done ==> sel4 == Low(old(states[k]).items[0]) && sel6 == High(old(states[k]).items[0]) + Mark(k)
      ensures !done ==> sel4 == old(sel4) && sel6 == old(sel6)
    {
      hide Sound, Low, High, Mark;
      done := GetRdo();
      if done {
        var ba := PopQueue(k);
        Post(k, ba);
      }
    }

    /** The registers say what goes back. */
    method Post(k: nat, ba: nat)
      modifies this`sel2, this`sel4, this`sel6
      ensures sel2 == old(sel2).(line := k / 2, cmd := 0, iot := k % 2 == 0)
      ensures sel4 == Low(ba) == ba % 0x1_0000
      ensures sel6 == High(ba) + Mark(k) == ba / 0x1_0000 % 4 * 0x4000 + (if k % 2 == 0 then 0x1000 else 0)
    {
      sel2 := sel2.(line := k / 2, cmd := 0, iot := k % 2 == 0);
      sel4 := Low(ba);
      sel6 := High(ba) + Mark(k);
    }

    /** kmc_tryoutput: the first queue with something done, line by line, receive before transmit. */
    method TryOutput() returns (ghost k: nat, done: bool)
      requires Valid()
      modifies this`states, this`sel2, this`sel4, this`sel6, this`output, q, arrays
      ensures Valid() && (!Waiting(old(states)) ==> !done)
      ensures Waiting(old(states)) ==> FirstWaiting(old(states), k) && done == !(old(sel2.rdo) || old(sel2.rdi))
      ensures done ==> k < |old(states)| && old(states)[k].next > 0 && forall i :: 0 <= i < k ==> old(states)[i].next == 0
      ensures states == if done then old(states)[k := old(states)[k].Popped()] else old(states)
      ensures sel2 == if done then Csr(k / 2, true, false, k % 2 == 0, 0) else old(sel2)
      ensures done ==> sel4 == Low(old(states)[k].items[0]) && sel6 == High(old(states)[k].items[0]) + Mark(k)
      ensures !done ==> sel4 == old(sel4) && sel6 == old(sel6)
    {
      k, done := 0, false;
      if !output {
        return;
      }
      ghost var s := states;
      output := false;
      hide Sound, Low, High, Mark, Sending, Waiting, FirstWaiting;
      for i := 0 to MAXDUP
        invariant k == 0 && !done && !output && sel2 == old(sel2) && sel4 == old(sel4) && sel6 == old(sel6)
        invariant Sound() && states == s && Sending(s, txnow)
        invariant |s| == 2 * MAXDUP && NoneBefore(s, 2 * i)
      {
        var hit;
        hit, k, done := TryLine(i);
        NextNone(s, i);
        if hit {
          return;
        }
        k := 0;
      }
    }

    /** A round of the loop of kmc_tryoutput. */
    method TryLine(i: nat) returns (hit: bool, ghost k: nat, done: bool)
      requires Sound() && Sending(states, txnow) && i < MAXDUP && !output
      modifies this`states, this`sel2, this`sel4, this`sel6, this`output, q, arrays
      ensures Sound() && Sending(states, txnow) && output == hit && |old(states)| == 2 * MAXDUP
      ensures hit <==> old(states)[2 * i].next > 0 || old(states)[2 * i + 1].next > 0
      ensures hit ==> k == (if old(states)[2 * i].next > 0 then 2 * i else 2 * i + 1) && old(states)[k].next > 0
      ensures done == (hit && !old(sel2.rdo) && !old(sel2.rdi))
      ensures states == if done then old(states)[k := old(states)[k].Popped()] else old(states)
      ensures sel2 == if done then Csr(k / 2, true, false, k % 2 == 0, 0) else old(sel2)
      ensures done ==> sel4 == Low(old(states)[k].items[0]) && sel6 == High(old(states)[k].items[0]) + Mark(k)
      ensures !done ==> sel4 == old(sel4) && sel6 == old(sel6)
    {
      hide Sending, Low, High, Mark;
      hit, k, done := false, 0, false;
      assert Apart();
      if q[2 * i].next > 0 {
        hit, k := true, 2 * i;
        done := TryQueue(2 * i);
      } else if q[2 * i + 1].next > 0 {
        hit, k := true, 2 * i + 1;
        done := TryQueue(2 * i + 1);
      }
    }

    /** An arm of kmc_tryoutput, which leaves the output flag set: there may be more. */
    method TryQueue(k: nat) returns (done: bool)
      requires Sound() && Sending(states, txnow) && k < |q| == |states| && states[k].next > 0
      modifies this`states, this`sel2, this`sel4, this`sel6, this`output, q[k], q[k].slots
      ensures Sound() && Sending(states, txnow) && output && done == !(old(sel2.rdo) || old(sel2.rdi))
      ensures states == if done then old(states)[k := old(states[k]).Popped()] else old(states)
      ensures sel2 == if done then Csr(k / 2, true, false, k % 2 == 0, 0) else old(sel2)
      ensures done ==> sel4 == Low(old(states[k]).items[0]) && sel6 == High(old(states[k]).items[0]) + Mark(k)
      ensures !done ==> sel4 == old(sel4) && sel6 == old(sel6)
    {
      hide Sound, Sending, Low, High, Mark;
      FourQueues();
      Fields(k);
      PopSending(states, txnow, k);
      output := true;
      done := ReturnFirst(k);
    }

    // -------------------------------------------------------------- transmission

    /** dup_tryxmit: the next frame of a line is sent, or ignored if it is too long. */
    method TryXmit(line: nat, bus: Bus, dma: nat -> byte) returns (msg: Option<seq<byte>>)
      requires Valid() && line < MAXDUP
      modifies this`txnow
      ensures Valid() && |old(txnow)| == |txnow| == MAXDUP && |states| == 2 * MAXDUP
      ensures txnow == old(txnow)[line := txnow[line]]
      ensures Tried(bus, dma, states[2 * line + 1], old(txnow)[line], txnow[line], msg)
      ensures old(txnow)[line] > 0 ==> txnow == old(txnow) && msg == None
      ensures old(txnow)[line] == 0 ==> states[2 * line + 1].Valid() && txnow[line] == FrameSize(bus, states[2 * line + 1].Rest())
    {
      Fields(2 * line + 1);
      msg := None;
      if txnow[line] == 0 {
        var bds := Unsent(line);
        assert bds == [] ==> FrameSize(bus, bds) == 0;
        hide Sound, FrameSize, Waiting, Message;
        if bds != [] {
          var dcount;
          dcount, msg := NextFrame(bus, dma, bds);
          if dcount > 0 {
            FrameSending(states, txnow, line, dcount);
            hide Sending;
            txnow := txnow[line := dcount];
          }
        }
      }
    }

    /** The transmit descriptors of a line that are not done. */
    method Unsent(line: nat) returns (bds: seq<nat>)
      requires Sound() && line < MAXDUP
      ensures |states| == 2 * MAXDUP && states[2 * line + 1].Valid() && bds == states[2 * line + 1].Rest()
    {
      var tx := q[2 * line + 1];
      bds := tx.slots[tx.next..tx.count];
      Fields(2 * line + 1);
      assert bds == tx.slots[..tx.count][tx.next..];
    }

    /** dup_svc: a frame is out, and the next one is tried. */
    method Service(line: nat, bus: Bus, dma: nat -> byte) returns (msg: Option<seq<byte>>)
      requires Valid() && line < MAXDUP
      modifies this`states, this`txnow, this`output, q
      ensures Valid()
      ensures states == old(states)[2 * line + 1 := old(states[2 * line + 1]).Completed(old(txnow[line]))]
      ensures |old(txnow)| == |txnow| == MAXDUP && txnow == old(txnow)[line := txnow[line]]
      ensures Tried(bus, dma, states[2 * line + 1], 0, txnow[line], msg)
    {
      hide Sound, Sending, Waiting, FrameSize, Message;
      FinishFrame(line);
      Fields(2 * line + 1);
      msg := None;
      if q[2 * line + 1].count > q[2 * line + 1].next {
        msg := TryXmit(line, bus, dma);
      } else {
        NoFrame(bus);
        assert states[2 * line + 1].Rest() == [];
      }
    }

    /** The descriptors of the frame that was sent are done. */
    method FinishFrame(line: nat)
      requires Valid() && line < MAXDUP
      modifies this`states, this`txnow, this`output, q
      ensures Valid() && |old(txnow)| == MAXDUP && txnow == old(txnow)[line := 0]
      ensures states == old(states)[2 * line + 1 := old(states[2 * line + 1]).Completed(old(txnow[line]))]
    {
      Fields(2 * line + 1);
      CompletedNothing(states, 2 * line + 1);
      FrameOut(states, txnow, line);
      if txnow[line] > 0 {
        hide Sound, Sending, Waiting;
        CompleteQueue(2 * line + 1, txnow[line]);
        txnow := txnow[line := 0];
        output := true;
      }
    }

    // -------------------------------------------------------------- reception

    /** dup_tryreceive, when `data` came in on the line: it goes into the next receive buffer, if
        there is one, and the output flag is set in any case. */
    method Receive(line: nat, bus: Bus, data: seq<byte>) returns (store: Option<Transfer>)
      requires Valid() && line < MAXDUP
      modifies this`states, this`output, q
      ensures Valid() && states[2 * line].Valid() && old(states[2 * line]).Valid()
      ensures var rest := old(states[2 * line]).Rest();
        && store == (if data == [] || rest == [] then None else Some(Stored(bus, rest[0], data)))
        && states == old(states)[2 * line := old(states[2 * line]).Completed(if store == None then 0 else 1)]
      ensures store.Some? ==>
        var bda, t := old(states[2 * line]).Rest()[0], store.value;
        var n := if |data| < bus(bda + 2) then |data| else bus(bda + 2);
        && t.ba == bus(bda) + bus(bda + 4) / 0x400 % 4 * 0x1_0000 && t.data == data[..n] && t.flagsAt == bda + 4
        && t.flags / 0x400 == bus(bda + 4) / 0x400 && t.flags % 0x100 == bus(bda + 4) % 0x100 && t.flags / 0x100 % 4 == 3
    {
      store := None;
      Fields(2 * line);
      CompletedNothing(states, 2 * line);
      if data == [] {
        return;
      }
      var rx := q[2 * line];
      if rx.count > rx.next {
        var bda := rx.slots[rx.next];
        assert states[2 * line].Rest()[0] == bda;
        store := Some(Stored(bus, bda, data));
        StoredInWords(bus, bda, data);
        ReceiveSending(states, txnow, line);
        hide Sound, Sending, Stored;
        CompleteQueue(2 * line, 1);
      }
      output := true;
      Fields(2 * line);
    }

    /** kmc_svc: what came in on the lines is stored, and then something goes back if it can. */
    method Poll(bus: Bus, data: seq<seq<byte>>)
      returns (stores: seq<Option<Transfer>>, ghost given: seq<QueueState>, ghost k: nat, done: bool)
      requires Valid() && |data| == MAXDUP
      modifies this`states, this`sel2, this`sel4, this`sel6, this`output, q, arrays
      ensures Valid() && AllValid(given) && AllArrived(bus, old(states), given, data, stores, MAXDUP)
      ensures done <==> Waiting(given) && !old(sel2.rdo) && !old(sel2.rdi)
      ensures done ==> FirstWaiting(given, k) && sel4 == Low(given[k].items[0]) && sel6 == High(given[k].items[0]) + Mark(k)
      ensures states == if done then given[k := given[k].Popped()] else given
      ensures Waiting(old(states)) ==> Waiting(given)
    {
      SoundValid();
      ghost var s := states;
      stores := [];
      assert AllArrived(bus, s, states, data, stores, 0);
      hide Sound, Sending, Low, High, Mark, FirstWaiting, AllArrived, Waiting, Arrived, AllValid;
      for i := 0 to MAXDUP
        invariant Valid() && AllValid(states) && sel2 == old(sel2) && (Waiting(s) ==> Waiting(states))
        invariant AllArrived(bus, s, states, data, stores, i)
      {
        ghost var was := states;
        var store := TakeIn(i, bus, data[i]);
        NextArrived(bus, s, was, states, data, stores, i, store);
        stores := stores + [store];
      }
      given := states;
      k, done := TryOutput();
    }

    method TakeIn(i: nat, bus: Bus, data: seq<byte>) returns (store: Option<Transfer>)
      requires Valid() && i < MAXDUP
      modifies this`states, this`output, q
      ensures Valid() && AllValid(old(states)) && AllValid(states) && (Waiting(old(states)) ==> Waiting(states))
      ensures Arrived(bus, old(states)[2 * i], states[2 * i], data, store)
      ensures states == old(states)[2 * i := states[2 * i]]
    {
      SoundValid();
      ghost var s := states;
      hide Sound, Sending, Waiting;
      store := Receive(i, bus, data);
      SoundValid();
      StillWaiting(s, 2 * i, if store == None then 0 else 1);
    }

    // -------------------------------------------------------------- input from the host

    /** dup_newrxbuf and the queueing of dup_newtxbuf. */
    method NewBuffers(k: nat, bus: Bus, ba: nat, ghost n: nat)
      requires Valid() && k < 2 * MAXDUP && Terminated(bus, ba, n)
      modifies this`states, q, arrays
      ensures Valid() && |old(states)| == 2 * MAXDUP && old(states[k]).Valid() && Waiting(states) == Waiting(old(states))
      ensures states == old(states)[k := old(states[k]).Pushed(List(ba, n))]
    {
      Fields(k);
      PushSending(states, txnow, k, List(ba, n));
      PushWaiting(states, k, List(ba, n));
      hide Sound, Sending, Terminated, List, Waiting;
      PushQueue(k, bus, ba, n);
    }

    /** dup_newtxbuf: the buffers are queued, and the next frame may go out at once. */
    method NewTransmit(line: nat, bus: Bus, dma: nat -> byte, ba: nat, ghost n: nat) returns (msg: Option<seq<byte>>)
      requires Valid() && line < MAXDUP && Terminated(bus, ba, n)
      modifies this`states, this`txnow, q, arrays
      ensures Valid() && AllValid(old(states)) && |old(txnow)| == |txnow| == MAXDUP && Waiting(states) == Waiting(old(states))
      ensures states == old(states)[2 * line + 1 := old(states)[2 * line + 1].Pushed(List(ba, n))]
      ensures txnow == old(txnow)[line := txnow[line]]
      ensures Tried(bus, dma, states[2 * line + 1], old(txnow)[line], txnow[line], msg)
    {
      SoundValid();
      hide Sound, Sending, Terminated, List, Waiting, Tried, AllValid;
      NewBuffers(2 * line + 1, bus, ba, n);
      msg := TryXmit(line, bus, dma);
    }

    /** kmc_doinput, when the lists end. */
    method DoInput(bus: Bus, dma: nat -> byte, ghost n: nat) returns (msg: Option<seq<byte>>)
      requires Valid() && sel2.line < MAXDUP && (sel2.cmd == 0 ==> Terminated(bus, Address(sel4, sel6), n))
      modifies this`states, this`txnow, q, arrays
      ensures Valid() && Waiting(states) == Waiting(old(states))
      ensures Took(bus, dma, sel2, Address(sel4, sel6), n, old(states), states, old(txnow), txnow, msg)
    {
      msg := None;
      SoundValid();
      var ba := Address(sel4, sel6);
      ghost var s, was := states, txnow;
      assert |was| == MAXDUP;
      hide Sound, Sending, Terminated, List, Address, Waiting, Tried, Took;
      if sel2.cmd == 0 {
        if sel2.iot {
          NewBuffers(2 * sel2.line, bus, ba, n);
          TookReceive(bus, dma, sel2, ba, n, s, was);
        } else {
          msg := NewTransmit(sel2.line, bus, dma, ba, n);
          TookTransmit(bus, dma, sel2, ba, n, s, states, was, txnow, msg);
        }
      } else {
        TookNothing(bus, dma, sel2, ba, n, s, was);
      }
    }

    /** kmc_mclear. The output flag stays as it is. */
    method MasterClear()
      requires Valid()
      modifies this`states, this`txnow, this`sel2, this`sel4, this`sel6, q
      ensures Valid() && !Waiting(states) && sel2 == Csr(0, false, false, false, 0) && sel4 == sel6 == 0 && txnow == [0, 0]
      ensures |states| == |old(states)| && forall i :: 0 <= i < |states| ==> states[i] == old(states[i]).Cleared()
    {
      Fields(0);
      hide Sound, Sending, Waiting;
      sel2, sel4, sel6 := Csr(0, false, false, false, 0), 0, 0;
      txnow := [0, 0];
      ClearQueues();
      ClearedSending(states);
    }

    method ClearQueues()
      requires Sound()
      modifies this`states, q
      ensures Sound() && |states| == |old(states)| == 2 * MAXDUP
      ensures forall i :: 0 <= i < |states| ==> states[i] == old(states[i]).Cleared()
    {
      ghost var s := states;
      Fields(0);
      hide Sound;
      for i := 0 to 2 * MAXDUP
        invariant Sound() && |states| == |s| == |q| == 2 * MAXDUP
        invariant forall j :: 0 <= j < i ==> states[j] == s[j].Cleared()
        invariant forall j :: i <= j < |s| ==> states[j] == s[j]
      {
        ClearQueue(i);
      }
    }

    method ClearQueue(k: nat)
      requires Sound() && k < |q|
      modifies this`states, q[k]
      ensures Sound() && states == old(states)[k := old(states[k]).Cleared()]
    {
      q[k].Clear();
      states := states[k := states[k].Cleared()];
      forall i | 0 <= i < |q| ensures q[i].Valid() && q[i].State() == states[i] {
        assert i != k ==> q[i].State() == old(q[i].State());
      }
    }

    // -------------------------------------------------------------- registers

    /** A write of the second register. Input is taken when the host clears RDI; and whenever
        anything waits to go back and the host leaves the registers free, it goes back at once. */
    method WriteSel2(data: Csr, rqi: bool, bus: Bus, dma: nat -> byte, ghost n: nat)
      returns (msg: Option<seq<byte>>, ghost given: seq<QueueState>, ghost k: nat, done: bool)
      requires Valid()
      requires sel2.rdi && !data.rdi ==> data.line < MAXDUP && (data.cmd == 0 ==> Terminated(bus, Address(sel4, sel6), n))
      modifies this`states, this`txnow, this`sel2, this`sel4, this`sel6, this`output, q, arrays
      ensures Valid() && AllValid(given) && Waiting(given) == Waiting(old(states))
      ensures if old(sel2.rdi) && !data.rdi
        then Took(bus, dma, data, old(Address(sel4, sel6)), n, old(states), given, old(txnow), txnow, msg)
        else given == old(states) && txnow == old(txnow) && msg == None
      ensures done <==> Waiting(given) && !data.rdo && !data.rdi
      ensures done ==> FirstWaiting(given, k) && sel4 == Low(given[k].items[0]) && sel6 == High(given[k].items[0]) + Mark(k)
      ensures states == if done then given[k := given[k].Popped()] else given
      ensures
        var c := if done then Csr(k / 2, true, false, k % 2 == 0, 0) else data;
        sel2 == c.(rdi := c.rdi || (rqi && !c.rdo))
    {
      msg := None;
      hide Sound, Sending, Terminated, Low, High, Mark, Address, Waiting, Took;
      var was := sel2;
      sel2 := data;
      if was.rdi && !data.rdi {
        msg := DoInput(bus, dma, n);
      }
      given := states;
      SoundValid();
      k, done := Output(!(was.rdi && !data.rdi) && was.rdo && !data.rdo);
      if rqi && !sel2.rdo {
        sel2 := sel2.(rdi := true);
      }
    }

    /** The output part of a register write: one try when the host took the last output, and one
        while there is something to put out; of two tries at most one succeeds. */
    method Output(taken: bool) returns (ghost k: nat, done: bool)
      requires Valid()
      modifies this`states, this`sel2, this`sel4, this`sel6, this`output, q, arrays
      ensures Valid() && (done <==> Waiting(old(states)) && !old(sel2.rdo) && !old(sel2.rdi))
      ensures done ==> FirstWaiting(old(states), k) && sel4 == Low(old(states)[k].items[0]) && sel6 == High(old(states)[k].items[0]) + Mark(k)
      ensures states == if done then old(states)[k := old(states)[k].Popped()] else old(states)
      ensures sel2 == if done then Csr(k / 2, true, false, k % 2 == 0, 0) else old(sel2)
    {
      k, done := 0, false;
      hide Sound, Sending, Low, High, Mark, Waiting, FirstWaiting, AllValid;
      if taken {
        k, done := TryOutput();
      }
      if output {
        var again;
        ghost var k2;
        k2, again := TryOutput();
        if !done {
          k, done := k2, again;
        }
      }
    }
  }
}
