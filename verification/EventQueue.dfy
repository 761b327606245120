/** The event queue of the simulator (scp.c): a linked list of units in which each time
    is relative to the unit before, and a counter that instructions count down. */
module EventQueue {
  const NOQUEUE_WAIT := 10000

  datatype Status = Ok | Stop | InternalError | Other(code: int)

  /** What the action of a unit may ask of the queue. */
  datatype Request = Activate(u: Unit, delay: int) | Cancel(u: Unit)

  datatype Response = Response(requests: seq<Request>, reason: Status)

  // ---------------------------------------------------------------- agenda

  /** The meaning of the queue: the present time, and the queued units with the absolute
      times at which they are due. */
  datatype Entry = Entry(u: Unit, due: int)

  datatype Agenda = Agenda(now: int, q: seq<Entry>)

  /** Insertion in due order, after the entries due at the same time. */
  ghost function Insert(q: seq<Entry>, e: Entry): (r: seq<Entry>)
    ensures |r| == |q| + 1
  {
    if q == [] || e.due < q[0].due then [e] + q else [q[0]] + Insert(q[1..], e)
  }

  ghost function Remove(q: seq<Entry>, u: Unit): seq<Entry> {
    if q == [] then [] else if q[0].u == u then q[1..] else [q[0]] + Remove(q[1..], u)
  }

  ghost predicate Queued(q: seq<Entry>, u: Unit) {
    exists i :: 0 <= i < |q| && q[i].u == u
  }

  ghost predicate Sorted(q: seq<Entry>) {
    forall i, j :: 0 <= i < j < |q| ==> q[i].due <= q[j].due
  }

  /** A queued unit and its time relative to the unit before. */
  datatype Link = Link(u: Unit, time: int)

  /** From position `k` on, no link runs back in time. */
  ghost predicate Forward(ls: seq<Link>, k: nat) {
    forall i :: k <= i < |ls| ==> ls[i].time >= 0
  }

  /** The entries of a list of links, of which the first counts from `base`. */
  ghost function Entries(ls: seq<Link>, base: int): (q: seq<Entry>)
    ensures |q| == |ls|
  {
    if ls == [] then [] else [Entry(ls[0].u, base + ls[0].time)] + Entries(ls[1..], base + ls[0].time)
  }

  ghost function Sum(ls: seq<Link>): int {
    if ls == [] then 0 else ls[0].time + Sum(ls[1..])
  }

  lemma {:induction false} EntriesCons(x: Link, ls: seq<Link>, base: int)
    ensures Entries([x] + ls, base) == [Entry(x.u, base + x.time)] + Entries(ls, base + x.time)
    ensures Sum([x] + ls) == x.time + Sum(ls)
  {
    assert ([x] + ls)[1..] == ls;
  }

  lemma {:induction false} EntriesAppend(a: seq<Link>, b: seq<Link>, base: int)
    ensures Entries(a + b, base) == Entries(a, base) + Entries(b, base + Sum(a))
    ensures Sum(a + b) == Sum(a) + Sum(b)
  {
    if a == [] {
      assert a + b == b;
    } else {
      assert a + b == [a[0]] + (a[1..] + b) && a == [a[0]] + a[1..];
      EntriesCons(a[0], a[1..], base);
      EntriesCons(a[0], a[1..] + b, base);
      hide Entries, Sum;
      EntriesAppend(a[1..], b, base + a[0].time);
    }
  }

  lemma {:induction false} EntryAt(ls: seq<Link>, base: int, k: nat)
    requires k < |ls|
    ensures Entries(ls, base)[k] == Entry(ls[k].u, base + Sum(ls[..k]) + ls[k].time)
    ensures Sum(ls[..k + 1]) == Sum(ls[..k]) + ls[k].time
  {
    EntriesAppend(ls[..k], ls[k..], base);
    assert ls[..k] + ls[k..] == ls;
    EntriesAppend(ls[..k], [ls[k]], base);
    assert ls[..k] + [ls[k]] == ls[..k + 1];
  }

  lemma {:induction false} EntriesSorted(ls: seq<Link>, base: int)
    requires Forward(ls, 0)
    ensures Sorted(Entries(ls, base))
    ensures forall i :: 0 <= i < |ls| ==> Entries(ls, base)[i].due >= base
  {
    if ls != [] {
      var q, r := Entries(ls, base), Entries(ls[1..], base + ls[0].time);
      EntriesSorted(ls[1..], base + ls[0].time);
      assert q == [Entry(ls[0].u, base + ls[0].time)] + r;
      hide Entries;
    }
  }

  /** The links with the first brought `d` nearer to the base. */
  ghost function Nearer(ls: seq<Link>, d: int): (r: seq<Link>)
    ensures |r| == |ls|
  {
    if ls == [] then [] else [ls[0].(time := ls[0].time - d)] + ls[1..]
  }

  /** The links with `u` linked in before position `k`, `d` after its predecessor. */
  ghost function WithLink(ls: seq<Link>, u: Unit, d: int, k: nat): seq<Link>
    requires k <= |ls|
  {
    ls[..k] + [Link(u, d)] + Nearer(ls[k..], d)
  }

  /** The links without the one at position `k`, whose successor keeps its place in time. */
  ghost function WithoutLink(ls: seq<Link>, k: nat): seq<Link>
    requires k < |ls|
  {
    ls[..k] + Nearer(ls[k + 1..], -ls[k].time)
  }

  lemma {:induction false} NearerEntries(ls: seq<Link>, d: int, base: int)
    ensures Entries(Nearer(ls, d), base + d) == Entries(ls, base)
  {
    if ls != [] {
      assert Nearer(ls, d)[1..] == ls[1..];
    }
  }

  /** Linking a unit in between `a` and `b`, `d` after the last of `a`. */
  lemma {:induction false} LinkIn(a: seq<Link>, b: seq<Link>, u: Unit, d: int, base: int)
    ensures Entries(a + [Link(u, d)] + Nearer(b, d), base)
         == Entries(a, base) + [Entry(u, base + Sum(a) + d)] + Entries(b, base + Sum(a))
  {
    EntriesAppend(a, [Link(u, d)], base);
    EntriesAppend(a + [Link(u, d)], Nearer(b, d), base);
    NearerEntries(b, d, base + Sum(a));
    assert Entries([Link(u, d)], base + Sum(a)) == [Entry(u, base + Sum(a) + d)];
    assert Sum([Link(u, d)]) == d;
    hide Entries, Sum, Nearer;
  }

  /** Unlinking a unit from between `a` and `b`. */
  lemma {:induction false} LinkOut(a: seq<Link>, x: Link, b: seq<Link>, base: int)
    ensures Entries(a + Nearer(b, -x.time), base) == Entries(a, base) + Entries(b, base + Sum(a) + x.time)
  {
    EntriesAppend(a, Nearer(b, -x.time), base);
    NearerEntries(b, -x.time, base + Sum(a) + x.time);
  }

  ghost predicate IsPlace(q: seq<Entry>, due: int, k: nat) {
    k <= |q| && (forall i :: 0 <= i < k ==> q[i].due <= due) && (k < |q| ==> due < q[k].due)
  }

  /** Insertion into a sorted agenda, at the first place whose entry is due later. */
  lemma {:induction false} InsertPlace(q: seq<Entry>, e: Entry, k: nat)
    requires IsPlace(q, e.due, k)
    ensures Insert(q, e) == q[..k] + [e] + q[k..]
  {
    if k > 0 {
      InsertPlace(q[1..], e, k - 1);
      assert q[..k] == [q[0]] + q[1..][..k - 1] && q[1..][k - 1..] == q[k..];
    }
  }

  lemma {:induction false} RemovePlace(q: seq<Entry>, k: nat)
    requires k < |q| && forall i :: 0 <= i < k ==> q[i].u != q[k].u
    ensures Remove(q, q[k].u) == q[..k] + q[k + 1..]
  {
    hide Remove;
    RemoveHead(q, q[k].u);
    if k > 0 {
      assert q[0].u != q[k].u && q[1..][k - 1] == q[k];
      RemovePlace(q[1..], k - 1);
      FirstAgain(q, k);
    }
  }

  lemma {:induction false} FirstAgain(q: seq<Entry>, k: nat)
    requires 0 < k < |q|
    ensures [q[0]] + (q[1..][..k - 1] + q[1..][k..]) == q[..k] + q[k + 1..]
  {
    assert q[..k] == [q[0]] + q[1..][..k - 1] && q[1..][k..] == q[k + 1..];
  }

  lemma {:induction false} RemoveHead(q: seq<Entry>, u: Unit)
    requires q != []
    ensures Remove(q, u) == if q[0].u == u then q[1..] else [q[0]] + Remove(q[1..], u)
  {
  }

  lemma {:induction false} RemoveAbsent(q: seq<Entry>, u: Unit)
    requires !Queued(q, u)
    ensures Remove(q, u) == q
  {
    if q != [] {
      assert q[0].u != u;
      assert forall i :: 0 <= i < |q[1..]| ==> q[1..][i] == q[i + 1];
      RemoveAbsent(q[1..], u);
    }
  }

  ghost function Activated(a: Agenda, u: Unit, delay: int): Agenda {
    if delay < 0 || Queued(a.q, u) then a else a.(q := Insert(a.q, Entry(u, a.now + delay)))
  }

  /** What is left when a queued unit, the i-th, is linked in again before the k-th, which is not
      its successor: the units between are lost, and those after them come sooner. */
  ghost function Shortcut(a: Agenda, delay: int, i: nat, k: nat): (q: seq<Entry>)
    requires i + 1 < k <= |a.q|
    ensures |q| == |a.q| - (k - i - 1)
  {
    var d := (if i == 0 then a.now else a.q[i - 1].due) - a.q[k - 1].due;
    a.q[..i] + [Entry(a.q[i].u, a.now + delay + d)] + Delayed(a.q[k..], d)
  }

  /** Where a unit is in a list. */
  ghost function Position(us: seq<Unit>, u: Unit): (i: nat)
    ensures i <= |us| && (u in us ==> i < |us| && us[i] == u)
  {
    if us == [] || us[0] == u then 0 else 1 + Position(us[1..], u)
  }

  /** The 32-bit copy of the time. */
  ghost predicate Wrapped(rtime: int, time: int) {
    rtime == time % 0x1_0000_0000
  }

  ghost function Served(a: Agenda, r: Request): Agenda {
    match r
    case Activate(u, delay) => Activated(a, u, delay)
    case Cancel(u) => a.(q := Remove(a.q, u))
  }

  /** What the requests of an action, one after the other, make of an agenda. */
  ghost function Respond(a: Agenda, rs: seq<Request>): Agenda {
    if rs == [] then a else Served(Respond(a, rs[..|rs| - 1]), rs[|rs| - 1])
  }

  /** Requests are served in their order: one to activate a unit inserts it, if it is not queued, and
      one to cancel a unit removes it. */
  lemma {:induction false} RespondLast(a: Agenda, rs: seq<Request>, r: Request)
    ensures Respond(a, []) == a
    ensures
      var b := Respond(a, rs);
      Respond(a, rs + [r]) ==
        match r
        case Activate(u, delay) =>
          if delay >= 0 && !Queued(b.q, u) then Agenda(b.now, Insert(b.q, Entry(u, b.now + delay))) else b
        case Cancel(u) => Agenda(b.now, Remove(b.q, u))
  {
    assert (rs + [r])[..|rs|] == rs;
    hide Queued, Insert, Remove;
  }

  ghost function Delayed(q: seq<Entry>, d: int): (r: seq<Entry>)
    ensures |r| == |q| && forall i :: 0 <= i < |q| ==> r[i] == Entry(q[i].u, q[i].due + d)
  {
    if q == [] then [] else [Entry(q[0].u, q[0].due + d)] + Delayed(q[1..], d)
  }

  lemma {:induction false} DelayedEntries(ls: seq<Link>, base: int, d: int)
    ensures Delayed(Entries(ls, base), d) == Entries(ls, base + d)
  {
    if ls != [] {
      DelayedEntries(ls[1..], base + ls[0].time, d);
      assert Entries(ls, base)[1..] == Entries(ls[1..], base + ls[0].time);
    }
  }

  /** The first entry fires. However late that is, the next one waits for its whole link. */
  ghost function Fire(a: Agenda): Agenda
    requires a.q != []
  {
    a.(q := Delayed(a.q[1..], a.now - a.q[0].due))
  }

  datatype Outcome = Outcome(agenda: Agenda, fired: seq<Unit>, reason: Status)

  /** The processing of events, of which the k-th to fire responds with `rs[k]`. */
  ghost function Process(a: Agenda, rs: seq<Response>): Outcome
    requires a.q != [] && rs != []
    decreases |rs|
  {
    var b := Respond(Fire(a), rs[0].requests);
    if rs[0].reason == Ok && b.q != [] && b.q[0].due == b.now && |rs| > 1 then
      After([a.q[0].u], Process(b, rs[1..]))
    else
      Outcome(b, [a.q[0].u], rs[0].reason)
  }

  lemma {:induction false} ProcessStep(fired: seq<Unit>, a: Agenda, rs: seq<Response>)
    requires a.q != [] && Ending(rs)
    ensures var b := Respond(Fire(a), rs[0].requests);
      After(fired, Process(a, rs)) ==
        if rs[0].reason == Ok && b.q != [] && b.q[0].due == b.now then After(fired + [a.q[0].u], Process(b, rs[1..]))
        else Outcome(b, fired + [a.q[0].u], rs[0].reason)
  {
    hide Fire, Respond;
  }

  ghost function After(fired: seq<Unit>, o: Outcome): Outcome {
    o.(fired := fired + o.fired)
  }

  // ---------------------------------------------------------------- what an agenda promises

  /** In order, with nothing overdue. */
  ghost predicate Punctual(a: Agenda) {
    Sorted(a.q) && forall i :: 0 <= i < |a.q| ==> a.q[i].due >= a.now
  }

  /** A sorted agenda stays sorted, and the new entry goes after those due no later. */
  lemma {:induction false} Inserted(q: seq<Entry>, e: Entry) returns (k: nat)
    requires Sorted(q)
    ensures IsPlace(q, e.due, k) && Insert(q, e) == q[..k] + [e] + q[k..]
    ensures Sorted(Insert(q, e))
  {
    k := 0;
    while k < |q| && q[k].due <= e.due
      invariant k <= |q| && forall i :: 0 <= i < k ==> q[i].due <= e.due
    {
      k := k + 1;
    }
    InsertPlace(q, e, k);
    hide Insert;
  }

  /** Removal takes out one entry, if the unit is queued, and a sorted agenda stays sorted. */
  lemma {:induction false} Removed(q: seq<Entry>, u: Unit) returns (k: nat)
    requires Sorted(q)
    ensures Sorted(Remove(q, u))
    ensures if Queued(q, u) then k < |q| && q[k].u == u && Remove(q, u) == q[..k] + q[k + 1..] else Remove(q, u) == q
  {
    k := 0;
    while k < |q| && q[k].u != u
      invariant k <= |q| && forall i :: 0 <= i < k ==> q[i].u != u
    {
      k := k + 1;
    }
    if k == |q| {
      RemoveAbsent(q, u);
    } else {
      RemovePlace(q, k);
    }
    hide Remove;
  }

  lemma {:induction false} InsertPunctual(a: Agenda, e: Entry)
    requires Punctual(a) && e.due >= a.now
    ensures Punctual(a.(q := Insert(a.q, e)))
  {
    var k := Inserted(a.q, e);
    var r := Insert(a.q, e);
    hide Insert;
    assert forall i {:trigger r[i]} :: 0 <= i < |r| ==> r[i] == if i < k then a.q[i] else if i == k then e else a.q[i - 1];
  }

  lemma {:induction false} RemovePunctual(a: Agenda, u: Unit)
    requires Punctual(a)
    ensures Punctual(a.(q := Remove(a.q, u)))
  {
    var k := Removed(a.q, u);
    var r := Remove(a.q, u);
    hide Remove;
    if Queued(a.q, u) {
      assert forall i {:trigger r[i]} :: 0 <= i < |r| ==> r[i] == if i < k then a.q[i] else a.q[i + 1];
    }
  }

  lemma {:induction false} ServedPunctual(a: Agenda, r: Request)
    requires Punctual(a)
    ensures Punctual(Served(a, r)) && Served(a, r).now == a.now
  {
    hide Insert, Remove, Punctual, Queued;
    match r
    case Activate(u, delay) =>
      if delay >= 0 {
        InsertPunctual(a, Entry(u, a.now + delay));
      }
    case Cancel(u) =>
      RemovePunctual(a, u);
  }

  lemma {:induction false} RespondPunctual(a: Agenda, rs: seq<Request>)
    requires Punctual(a)
    ensures Punctual(Respond(a, rs)) && Respond(a, rs).now == a.now
  {
    if rs != [] {
      RespondPunctual(a, rs[..|rs| - 1]);
      ServedPunctual(Respond(a, rs[..|rs| - 1]), rs[|rs| - 1]);
    }
  }

  /** Whatever the actions ask for, events fire at the present time, nothing that is left
      is overdue, and unless an action stops the run nothing that is left is due. */
  lemma {:induction false} ProcessPunctual(a: Agenda, rs: seq<Response>)
    requires a.q != [] && Sorted(a.q) && Ending(rs)
    ensures var o := Process(a, rs);
      && o.agenda.now == a.now && Punctual(o.agenda) && a.q[0].u == o.fired[0]
      && (o.reason == Ok ==> forall i :: 0 <= i < |o.agenda.q| ==> o.agenda.q[i].due > a.now)
    decreases |rs|
  {
    assert Punctual(Fire(a));
    RespondPunctual(Fire(a), rs[0].requests);
    ProcessStep([], a, rs);
    AfterNothing(Process(a, rs));
    var b := Respond(Fire(a), rs[0].requests);
    hide Process, Fire, Respond;
    if rs[0].reason == Ok && b.q != [] && b.q[0].due == b.now {
      ProcessPunctual(b, rs[1..]);
    }
  }

  lemma {:induction false} AfterNothing(o: Outcome)
    ensures After([], o) == o
  {
  }

  /** The remaining events keep their times exactly when the first fires at its time. */
  lemma {:induction false} FireOnTime(a: Agenda)
    requires a.q != []
    ensures Fire(a).q == a.q[1..] <==> |a.q| == 1 || a.q[0].due == a.now
    ensures Fire(a).now == a.now && |Fire(a).q| == |a.q| - 1
    ensures forall i :: 0 < i < |a.q| ==> Fire(a).q[i - 1] == Entry(a.q[i].u, a.q[i].due + (a.now - a.q[0].due))
  {
    if Fire(a).q == a.q[1..] && |a.q| > 1 {
      assert Fire(a).q[0] == a.q[1];
    }
  }

  ghost function UnitsOf(q: seq<Entry>): (us: seq<Unit>)
    ensures |us| == |q| && forall i :: 0 <= i < |q| ==> us[i] == q[i].u
  {
    if q == [] then [] else [q[0].u] + UnitsOf(q[1..])
  }

  /** No request withdraws an event. */
  ghost predicate Additive(rs: seq<Request>) {
    forall r :: r in rs ==> r.Activate?
  }

  lemma {:induction false} RespondKeeps(a: Agenda, rs: seq<Request>, d: nat)
    requires Punctual(a) && Additive(rs) && d <= |a.q| && forall i :: 0 <= i < d ==> a.q[i].due == a.now
    ensures var b := Respond(a, rs); d <= |b.q| && b.q[..d] == a.q[..d]
  {
    if rs != [] {
      var rs', r := rs[..|rs| - 1], rs[|rs| - 1];
      RespondKeeps(a, rs', d);
      RespondPunctual(a, rs');
      var b := Respond(a, rs');
      hide Respond;
      assert r in rs;
      if r.delay >= 0 && !Queued(b.q, r.u) {
        var k := Inserted(b.q, Entry(r.u, b.now + r.delay));
        hide Insert;
        assert forall i :: 0 <= i < d ==> b.q[i] == b.q[..d][i];
        assert k >= d;
      }
    }
  }

  /** The events that are due all fire, in order, as long as no action stops the run or
      withdraws an event; new events due at once come after them. */
  lemma {:induction false} ProcessAllDue(a: Agenda, rs: seq<Response>, d: nat)
    requires Punctual(a) && 0 < d <= |a.q| && forall i :: 0 <= i < d ==> a.q[i].due == a.now
    requires Ending(rs) && d < |rs| && forall i :: 0 <= i < d ==> rs[i].reason == Ok && Additive(rs[i].requests)
    ensures var o := Process(a, rs); d <= |o.fired| && o.fired[..d] == UnitsOf(a.q[..d])
    decreases d
  {
    hide Process, Respond, Fire, Punctual, Additive, UnitsOf;
    FirstFires(a, rs[0].requests, d);
    ProcessStep([], a, rs);
    AfterNothing(Process(a, rs));
    var b := Respond(Fire(a), rs[0].requests);
    DueUnits(a.q, b.q, d);
    var more := rs[0].reason == Ok && b.q != [] && b.q[0].due == b.now;
    assert Process(a, rs).fired == [a.q[0].u] + if more then Process(b, rs[1..]).fired else [];
    if d > 1 {
      assert more;
      ProcessAllDue(b, rs[1..], d - 1);
      FirstOf([a.q[0].u], Process(b, rs[1..]).fired, d - 1);
    }
  }

  lemma {:induction false} FirstOf<T>(a: seq<T>, b: seq<T>, n: nat)
    requires n <= |b|
    ensures (a + b)[..|a| + n] == a + b[..n]
  {
  }

  /** What the action of the first of the events that are due leaves of the others. */
  lemma {:induction false} FirstFires(a: Agenda, requests: seq<Request>, d: nat)
    requires Punctual(a) && Additive(requests) && 0 < d <= |a.q| && forall i :: 0 <= i < d ==> a.q[i].due == a.now
    ensures var b := Respond(Fire(a), requests);
      && Punctual(b) && b.now == a.now && d - 1 <= |b.q| && b.q[..d - 1] == a.q[1..d]
      && forall i :: 0 <= i < d - 1 ==> b.q[i].due == a.now
  {
    hide Respond, Additive;
    var f := Fire(a);
    FireOnTime(a);
    RespondKeeps(f, requests, d - 1);
    RespondPunctual(f, requests);
    var b := Respond(f, requests);
    assert f.q[..d - 1] == a.q[1..d];
    forall i | 0 <= i < d - 1 ensures b.q[i].due == a.now {
      assert b.q[i] == b.q[..d - 1][i] == a.q[1..d][i] == a.q[i + 1];
    }
  }

  lemma {:induction false} DueUnits(q: seq<Entry>, later: seq<Entry>, d: nat)
    requires 0 < d <= |q| && d - 1 <= |later| && later[..d - 1] == q[1..d]
    ensures UnitsOf(q[..d]) == [q[0].u] + UnitsOf(later[..d - 1])
    ensures d == 1 ==> UnitsOf(q[..d]) == [q[0].u]
  {
    assert q[..d][1..] == q[1..d];
  }

  lemma {:induction false} QuietStep(a: Agenda, rs: seq<Response>)
    requires a.q != [] && a.q[0].due == a.now && Ending(rs) && rs[0] == Response([], Ok)
    ensures var b := a.(q := a.q[1..]);
      Process(a, rs) ==
        if b.q != [] && b.q[0].due == a.now then After([a.q[0].u], Process(b, rs[1..]))
        else Outcome(b, [a.q[0].u], Ok)
  {
    FireOnTime(a);
    ProcessStep([], a, rs);
    AfterNothing(Process(a, rs));
    assert Respond(Fire(a), []) == Fire(a);
    hide Process, Respond;
  }

  lemma {:induction false} DueRest(q: seq<Entry>, now: int, d: nat)
    requires Punctual(Agenda(now, q)) && 0 < d <= |q| && IsPlace(q, now, d)
    ensures q[0].due == now && Punctual(Agenda(now, q[1..])) && IsPlace(q[1..], now, d - 1)
    ensures d > 1 <==> |q| > 1 && q[1].due == now
    ensures UnitsOf(q[..d]) == [q[0].u] + UnitsOf(q[1..][..d - 1])
    ensures q[d..] == q[1..][d - 1..]
  {
    assert q[..d][1..] == q[1..][..d - 1];
  }

  /** With actions that leave the queue alone, exactly the events that are due fire. */
  lemma {:induction false} ProcessExactlyDue(a: Agenda, rs: seq<Response>, d: nat)
    requires Punctual(a) && 0 < d <= |a.q| && IsPlace(a.q, a.now, d)
    requires Ending(rs) && d < |rs| && forall i :: 0 <= i < d ==> rs[i] == Response([], Ok)
    ensures Process(a, rs) == Outcome(a.(q := a.q[d..]), UnitsOf(a.q[..d]), Ok)
    decreases d
  {
    hide Process, Punctual, IsPlace;
    DueRest(a.q, a.now, d);
    QuietStep(a, rs);
    if d > 1 {
      ProcessExactlyDue(a.(q := a.q[1..]), rs[1..], d - 1);
    } else {
      assert a.q[1..][..0] == [];
    }
  }

  // ---------------------------------------------------------------- queue

  class Unit {
    var next: Unit?
    var time: int

    constructor ()
      ensures next == null && time == 0
    {
      next, time := null, 0;
    }
  }

  ghost function LinksOf(us: seq<Unit>): (ls: seq<Link>)
    reads us
    ensures |ls| == |us|
  {
    seq(|us|, i requires 0 <= i < |us| reads us => Link(us[i], us[i].time))
  }

  function NextIn(us: seq<Unit>, i: nat): Unit? {
    if i + 1 < |us| then us[i + 1] else null
  }

  function UnitAt(us: seq<Unit>, i: int): Unit? {
    if 0 <= i < |us| then us[i] else null
  }

  ghost predicate Distinct(us: seq<Unit>) {
    forall i, j :: 0 <= i < j < |us| ==> us[i] != us[j]
  }

  class Queue {
    var clockQueue: Unit?
    var interval: int
    var simTime: int
    var rtime: int
    var noqueueTime: int
    var stopCpu: bool
    ghost var units: seq<Unit>
    ghost var agenda: seq<Entry>

    /** The linked list is this. */
    ghost predicate Lists(us: seq<Unit>)
      reads this`clockQueue, us`next
    {
      && clockQueue == (if us == [] then null else us[0])
      && (forall i {:trigger us[i].next} :: 0 <= i < |us| ==> us[i].next == NextIn(us, i))
      && Distinct(us)
    }

    /** The links lead along `w`, which need not end there. */
    ghost predicate Leads(w: seq<Unit>)
      reads this`clockQueue, w`next
    {
      w != [] && clockQueue == w[0] && forall j {:trigger w[j].next} :: 0 <= j < |w| - 1 ==> w[j].next == w[j + 1]
    }

    ghost predicate Linked()
      reads this`clockQueue, this`units, units`next
    {
      Lists(units)
    }

    /** The queue as the simulator starts with it. */
    constructor ()
      ensures Valid() && units == [] && simTime == interval == 0 && TheAgenda() == Agenda(0, [])
    {
      clockQueue, interval, simTime, rtime, noqueueTime, stopCpu := null, 0, 0, 0, 0, false;
      units, agenda := [], [];
    }

    /** An instruction is counted. */
    method Count()
      modifies this`interval
      ensures interval == old(interval) - 1
    {
      interval := interval - 1;
    }

    /** The invariant, but for the time of the first unit, which a late call makes negative. */
    ghost predicate Coherent()
      reads this, units
    {
      && Linked()
      && Wrapped(rtime, simTime)
      && Forward(LinksOf(units), 1)
      && agenda == Entries(LinksOf(units), simTime)
    }

    ghost predicate Valid()
      reads this, units
    {
      Coherent() && Forward(LinksOf(units), 0)
    }

    /** No time has passed since the queue was last changed. */
    ghost predicate Settled()
      reads this, units
    {
      interval == Start() && (units == [] ==> interval == NOQUEUE_WAIT)
    }

    /** The time that `interval` counts down from. */
    ghost function Start(): int
      reads this`units, this`noqueueTime, units`time
    {
      if units == [] then noqueueTime else units[0].time
    }

    ghost function TheAgenda(): Agenda
      reads this, units
    {
      Agenda(simTime + Start() - interval, agenda)
    }

    lemma {:induction false} FirstEntry()
      requires Coherent()
      ensures units == [] <==> agenda == []
      ensures units != [] ==> agenda[0] == Entry(units[0], simTime + units[0].time)
    {
    }

    lemma {:induction false} AgendaUnits()
      requires Coherent()
      ensures |agenda| == |units| && forall i :: 0 <= i < |units| ==> agenda[i].u == units[i]
    {
      var ls := LinksOf(units);
      forall i | 0 <= i < |ls| ensures agenda[i].u == units[i] {
        EntryAt(ls, simTime, i);
      }
    }

    lemma {:induction false} QueuedUnits(u: Unit)
      requires Coherent()
      ensures u in units <==> Queued(agenda, u)
      ensures forall t :: Entry(u, t) in agenda ==> u in units
    {
      AgendaUnits();
    }

    /** sim_is_active: the time until the unit is due, plus one, or zero. A unit that is late by one, as
        sim_activate and sim_cancel leave it when the counter is negative, is not told from an idle one. */
    method IsActive(u: Unit) returns (r: int)
      requires Coherent()
      ensures u !in units ==> r == 0
      ensures u in units ==> Entry(u, simTime + r - 1) in agenda
      ensures r == 0 <==> u !in units || Entry(u, simTime - 1) in agenda
      ensures Valid() ==> (r > 0 <==> u in units) && (r == 0 <==> u !in units)
    {
      AgendaUnits();
      var accum, cptr := 0, clockQueue;
      ghost var k := 0;
      ghost var ls := LinksOf(units);
      while cptr != null
        invariant 0 <= k <= |units| && cptr == UnitAt(units, k)
        invariant u !in units[..k] && accum == Sum(ls[..k]) && (Valid() ==> accum >= 0)
        decreases |units| - k
      {
        assert cptr == units[k] && cptr.next == NextIn(units, k);
        EntryAt(ls, simTime, k);
        accum := accum + cptr.time;
        if cptr == u {
          return accum + 1;
        }
        cptr := cptr.next;
        k := k + 1;
      }
      assert units[..k] == units;
      return 0;
    }

    /** The time the counter counts from becomes `t`. */
    method SetStart(t: int)
      requires Linked() && Forward(LinksOf(units), 1)
      modifies this`noqueueTime, units`time
      ensures LinksOf(units) == Nearer(old(LinksOf(units)), old(Start()) - t)
      ensures Start() == t && Forward(LinksOf(units), 1) && (t >= 0 ==> Forward(LinksOf(units), 0))
    {
      ghost var ls := Nearer(LinksOf(units), Start() - t);
      if clockQueue == null {
        noqueueTime := t;
      } else {
        clockQueue.time := t;
      }
      assert LinksOf(units) == ls;
    }

    method Advance(d: int)
      requires Wrapped(rtime, simTime)
      modifies this`simTime, this`rtime
      ensures simTime == old(simTime) + d && Wrapped(rtime, simTime)
    {
      simTime := simTime + d;
      rtime := (rtime + d % 0x1_0000_0000) % 0x1_0000_0000;
    }

    method CountFrom(t: int)
      requires Linked() && Wrapped(rtime, simTime) && Forward(LinksOf(units), 1)
      modifies this`simTime, this`rtime, this`noqueueTime, units`time
      ensures Linked() && Wrapped(rtime, simTime) && simTime == old(simTime) + (old(Start()) - t)
      ensures LinksOf(units) == Nearer(old(LinksOf(units)), old(Start()) - t)
      ensures Start() == t && Forward(LinksOf(units), 1) && (t >= 0 ==> Forward(LinksOf(units), 0))
    {
      var x := if clockQueue == null then noqueueTime else clockQueue.time;
      assert x == Start();
      hide *;
      Advance(x - t);
      SetStart(t);
    }

    /** UPDATE_SIM_TIME: account for the instructions counted since the last update. */
    method UpdateSimTime()
      requires Coherent()
      modifies this`simTime, this`rtime, this`noqueueTime, units`time
      ensures Coherent() && TheAgenda() == old(TheAgenda()) && simTime == TheAgenda().now
      ensures Start() == interval && (interval >= 0 ==> Valid())
      ensures simTime == old(simTime) + old(if units == [] then noqueueTime else units[0].time) - interval
      ensures if units == [] then noqueueTime == interval else units[0].time == interval
    {
      NearerEntries(LinksOf(units), Start() - interval, simTime);
      hide Linked, Entries, Wrapped, LinksOf, Nearer, Forward;
      CountFrom(interval);
    }

    /** The search of sim_activate: the last unit due no later than `eventTime` from now. */
    method FindPlace(eventTime: int) returns (prvptr: Unit?, cptr: Unit?, accum: int, ghost k: nat)
      requires Coherent() && eventTime >= 0
      ensures k <= |units| && cptr == UnitAt(units, k) && prvptr == UnitAt(units, k - 1)
      ensures accum == Sum(LinksOf(units)[..k]) <= eventTime
      ensures k < |units| ==> eventTime < accum + units[k].time
      ensures IsPlace(agenda, simTime + eventTime, k)
    {
      ghost var ls := LinksOf(units);
      prvptr, cptr, accum, k := null, clockQueue, 0, 0;
      while cptr != null
        invariant 0 <= k <= |units| && cptr == UnitAt(units, k) && prvptr == UnitAt(units, k - 1)
        invariant accum == Sum(ls[..k]) <= eventTime
        invariant forall i :: 0 <= i < k ==> agenda[i].due <= simTime + eventTime
        decreases |units| - k
      {
        assert cptr == units[k] && cptr.next == NextIn(units, k);
        EntryAt(ls, simTime, k);
        if eventTime < accum + cptr.time {
          return;
        }
        accum := accum + cptr.time;
        prvptr, cptr := cptr, cptr.next;
        k := k + 1;
      }
    }

    /** `u` is linked in before the k-th of the list `us`; it may be in that already. */
    ghost predicate Threaded(us: seq<Unit>, u: Unit, k: nat)
      reads this`clockQueue, us`next, u`next
    {
      && k <= |us|
      && clockQueue == (if k == 0 then u else us[0])
      && u.next == (if k > 0 && us[k - 1] == u then u else UnitAt(us, k))
      && (k > 0 ==> us[k - 1].next == u)
      && forall j {:trigger us[j].next} :: 0 <= j < |us| && us[j] != u && j != k - 1 ==> us[j].next == NextIn(us, j)
    }

    /** `u` counts `d` from the unit before, and the k-th of the list so much less. */
    ghost predicate Timed(us: seq<Unit>, ls: seq<Link>, u: Unit, d: int, k: nat)
      reads us`time, u`time
    {
      && |ls| == |us| && (forall j :: 0 <= j < |us| ==> ls[j].u == us[j])
      && (UnitAt(us, k) != u ==> u.time == d)
      && forall j {:trigger us[j].time} :: 0 <= j < |us| && us[j] != u ==> us[j].time == ls[j].time - (if j == k then d else 0)
    }

    /** The relinking of sim_activate: `u` goes in between `prvptr` and its successor. */
    method LinkUnit(u: Unit, prvptr: Unit?, ghost k: nat) returns (cptr: Unit?)
      requires Linked() && k <= |units| && prvptr == UnitAt(units, k - 1)
      modifies this`clockQueue, units`next, u`next
      ensures Threaded(units, u, k) && cptr == UnitAt(units, k) && LinksOf(units) == old(LinksOf(units))
    {
      if prvptr == null {
        cptr := clockQueue;
        u.next := clockQueue;
        clockQueue := u;
      } else {
        assert prvptr == units[k - 1] && prvptr.next == NextIn(units, k - 1);
        cptr := prvptr.next;
        u.next := prvptr.next;
        prvptr.next := u;
      }
    }

    /** The times of sim_activate. */
    method RelinkTimes(u: Unit, cptr: Unit?, d: int, ghost k: nat)
      requires Distinct(units) && cptr == UnitAt(units, k)
      modifies u`time, units`time
      ensures Timed(units, old(LinksOf(units)), u, d, k)
    {
      u.time := d;
      if cptr != null {
        cptr.time := cptr.time - u.time;
      }
    }

    /** Both halves of the relinking, `d` after the unit before, and what the list and the agenda are
        to be then. */
    method Splice(u: Unit, prvptr: Unit?, d: int, ghost k: nat, ghost vs: seq<Unit>, ghost q: seq<Entry>)
      requires Linked() && k <= |units| && prvptr == UnitAt(units, k - 1)
      modifies this`clockQueue, this`units, this`agenda, units, u
      ensures Threaded(old(units), u, k) && Timed(old(units), old(LinksOf(units)), u, d, k)
      ensures units == vs && agenda == q
    {
      hide LinksOf, Threaded, Timed, Linked, Lists, Distinct, UnitAt;
      ListDistinct();
      var cptr := LinkUnit(u, prvptr, k);
      RelinkTimes(u, cptr, d, k);
      units, agenda := vs, q;
    }

    /** A unit that was not in the list is now. */
    lemma {:induction false} LinkedIn(us: seq<Unit>, ls: seq<Link>, u: Unit, d: int, k: nat)
      requires Distinct(us) && u !in us && Threaded(us, u, k) && Timed(us, ls, u, d, k)
      ensures var vs := us[..k] + [u] + us[k..]; Lists(vs) && LinksOf(vs) == WithLink(ls, u, d, k)
    {
      var vs := us[..k] + [u] + us[k..];
      ThreadedIn(us, u, k);
      TimedIn(us, ls, u, d, k);
    }

    lemma {:induction false} ThreadedIn(us: seq<Unit>, u: Unit, k: nat)
      requires Distinct(us) && u !in us && Threaded(us, u, k)
      ensures Lists(us[..k] + [u] + us[k..])
    {
      var vs := us[..k] + [u] + us[k..];
      forall i | 0 <= i < |vs| ensures vs[i].next == NextIn(vs, i) {
        if i > k {
          assert vs[i] == us[i - 1] && us[i - 1].next == NextIn(us, i - 1);
        } else if i < k {
          assert vs[i] == us[i] && (i < k - 1 ==> us[i].next == NextIn(us, i));
        }
      }
    }

    lemma {:induction false} TimedIn(us: seq<Unit>, ls: seq<Link>, u: Unit, d: int, k: nat)
      requires k <= |us| && u !in us && Timed(us, ls, u, d, k)
      ensures LinksOf(us[..k] + [u] + us[k..]) == WithLink(ls, u, d, k)
    {
      var vs := us[..k] + [u] + us[k..];
      var ls' := LinksOf(vs);
      forall i | 0 <= i < k ensures ls'[i] == ls[i] {
        assert vs[i] == us[i];
      }
      forall i | k <= i < |us| ensures ls'[i + 1] == ls[i].(time := ls[i].time - (if i == k then d else 0)) {
        assert vs[i + 1] == us[i];
      }
      LinksSpliced(ls, ls', u, d, k);
    }

    /** A unit that was in the list, further ahead than the one before it, is now that one's successor. */
    lemma {:induction false} LinkedAhead(us: seq<Unit>, ls: seq<Link>, u: Unit, d: int, i: nat, k: nat)
      requires Distinct(us) && i + 1 < k <= |us| && us[i] == u && Threaded(us, u, k) && Timed(us, ls, u, d, k)
      ensures var vs := us[..i + 1] + us[k..]; Lists(vs) && LinksOf(vs) == ls[..i] + [Link(u, d)] + Nearer(ls[k..], d)
    {
      ThreadedAhead(us, u, i, k);
      TimedAhead(us, ls, u, d, i, k);
    }

    lemma {:induction false} ThreadedAhead(us: seq<Unit>, u: Unit, i: nat, k: nat)
      requires Distinct(us) && i + 1 < k <= |us| && us[i] == u && Threaded(us, u, k)
      ensures Lists(us[..i + 1] + us[k..])
    {
      var vs := us[..i + 1] + us[k..];
      forall j | 0 <= j < |vs| ensures vs[j].next == NextIn(vs, j) {
        if j > i {
          var m := j - i - 1 + k;
          assert vs[j] == us[m] && us[m].next == NextIn(us, m);
        } else if j < i {
          assert vs[j] == us[j] && us[j].next == NextIn(us, j);
        }
      }
    }

    lemma {:induction false} TimedAhead(us: seq<Unit>, ls: seq<Link>, u: Unit, d: int, i: nat, k: nat)
      requires Distinct(us) && i + 1 < k <= |us| && us[i] == u && Timed(us, ls, u, d, k)
      ensures LinksOf(us[..i + 1] + us[k..]) == ls[..i] + [Link(u, d)] + Nearer(ls[k..], d)
    {
      var vs, ls' := us[..i + 1] + us[k..], ls[..i] + [Link(u, d)] + Nearer(ls[k..], d);
      forall j | 0 <= j < |vs| ensures LinksOf(vs)[j] == ls'[j] {
        if j > i {
          var m := j - i - 1 + k;
          assert vs[j] == us[m] && us[m].time == ls[m].time - (if m == k then d else 0);
        } else if j < i {
          assert vs[j] == us[j] && us[j].time == ls[j].time;
        }
      }
    }

    /** A unit that was in the list, not so far ahead, leads back to itself. */
    lemma {:induction false} LinkedBack(us: seq<Unit>, u: Unit, i: nat, k: nat)
      requires Distinct(us) && k <= i + 1 && i < |us| && us[i] == u && Threaded(us, u, k)
      ensures Leads(us[..k] + [u] + us[k..i + 1])
    {
      var w := us[..k] + [u] + us[k..i + 1];
      forall j | 0 <= j < |w| - 1 ensures w[j].next == w[j + 1] {
        if j > k {
          assert w[j] == us[j - 1] && us[j - 1].next == NextIn(us, j - 1);
        } else if j < k - 1 {
          assert w[j] == us[j] && us[j].next == NextIn(us, j);
        }
      }
    }

    /** A list is what the links lead along. */
    lemma {:induction false} Along(w: seq<Unit>, vs: seq<Unit>, n: nat)
      requires Leads(w) && Lists(vs) && n <= |w|
      ensures n <= |vs| && w[..n] == vs[..n]
    {
      if n > 0 {
        Along(w, vs, n - 1);
        if n > 1 {
          assert w[n - 2] == w[..n - 1][n - 2] == vs[n - 2];
          assert w[n - 2].next == w[n - 1] && vs[n - 2].next == NextIn(vs, n - 2);
        }
        assert w[..n] == w[..n - 1] + [w[n - 1]] && vs[..n] == vs[..n - 1] + [vs[n - 1]];
      }
    }

    /** Links that lead to a unit twice are no list. */
    lemma {:induction false} NoList(w: seq<Unit>, a: nat, b: nat, vs: seq<Unit>)
      requires Leads(w) && a < b < |w| && w[a] == w[b]
      ensures !Lists(vs)
    {
      if Lists(vs) {
        Along(w, vs, |w|);
        assert false;
      }
    }

    /** What becomes of the list `us`, with the agenda `q`, when its unit `u` is linked in again before
        the k-th: if that is its successor or before, the links lead back to it, else it skips
        all between. */
    ghost predicate Mislinked(us: seq<Unit>, q: seq<Entry>, u: Unit, delay: int, k: nat)
      reads this, this.units, us, u
    {
      && k <= |us| == |q| && u in us
      && var i := Position(us, u);
      if k <= i + 1 then Leads(us[..k] + [u] + us[k..i + 1])
      else Coherent() && units == us[..i + 1] + us[k..] && agenda == Shortcut(Agenda(simTime, q), delay, i, k)
    }

    /** The insertion of sim_activate, relative to an up-to-date time. */
    method LinkAt(u: Unit, eventTime: int) returns (ghost k: nat)
      requires Coherent() && eventTime >= 0
      modifies this`clockQueue, this`units, this`agenda, units, u
      ensures IsPlace(old(agenda), simTime + eventTime, k) && clockQueue != null
      ensures u !in old(units) ==>
        && Coherent() && (old(Valid()) ==> Valid()) && agenda == Insert(old(agenda), Entry(u, simTime + eventTime))
        && units != [] && (forall x :: x in units <==> x in old(units) || x == u)
      ensures u in old(units) ==> Mislinked(old(units), old(agenda), u, eventTime, k)
    {
      hide Linked, Lists, Wrapped, Entries, Insert, Sum, IsPlace, LinksOf, Nearer, Forward, UnitAt, NextIn, WithLink, Threaded, Timed, Leads, Mislinked, Distinct;
      var prvptr, cptr, accum;
      prvptr, cptr, accum, k := FindPlace(eventTime);
      ghost var us, ls, q := units, LinksOf(units), agenda;
      ghost var i := Position(us, u);
      ghost var vs := if u !in us then us[..k] + [u] + us[k..] else if k > i + 1 then us[..i + 1] + us[k..] else us;
      ghost var q' := if u !in us then Insert(q, Entry(u, simTime + eventTime))
        else if k > i + 1 then Shortcut(Agenda(simTime, q), eventTime, i, k) else q;
      LinkTime(k);
      ListDistinct();
      Splice(u, prvptr, eventTime - accum, k, vs, q');
      if u !in us {
        Joined(us, ls, u, eventTime, k);
      } else {
        Rejoined(us, ls, u, eventTime, k);
      }
      SomeFirst(us, u, k);
    }

    lemma {:induction false} SomeFirst(us: seq<Unit>, u: Unit, k: nat)
      requires Threaded(us, u, k)
      ensures clockQueue != null
    {
    }

    lemma {:induction false} Joined(us: seq<Unit>, ls: seq<Link>, u: Unit, eventTime: int, k: nat)
      requires u !in us && Placed(us, ls, u, eventTime, k)
      requires units == us[..k] + [u] + us[k..] && agenda == Insert(Entries(ls, simTime), Entry(u, simTime + eventTime))
      ensures Coherent() && (Forward(ls, 0) ==> Valid()) && units != [] && forall x :: x in units <==> x in us || x == u
    {
      hide Lists, Wrapped, Entries, Insert, Sum, IsPlace, LinksOf, Nearer, Forward, WithLink, Threaded, Timed, Distinct;
      PlaceLink(ls, simTime, u, eventTime, k);
      LinkedIn(us, ls, u, eventTime - Sum(ls[..k]), k);
      assert us == us[..k] + us[k..];
    }

    lemma {:induction false} Rejoined(us: seq<Unit>, ls: seq<Link>, u: Unit, eventTime: int, k: nat)
      requires u in us && Placed(us, ls, u, eventTime, k)
      requires
        var i := Position(us, u);
        k > i + 1 ==> units == us[..i + 1] + us[k..] && agenda == Shortcut(Agenda(simTime, Entries(ls, simTime)), eventTime, i, k)
      ensures Mislinked(us, Entries(ls, simTime), u, eventTime, k)
    {
      hide Lists, Wrapped, Entries, Sum, IsPlace, LinksOf, Nearer, Forward, Threaded, Timed, Distinct, Leads, Shortcut;
      var i := Position(us, u);
      if k <= i + 1 {
        LinkedBack(us, u, i, k);
      } else {
        LinkUnits(us, ls, u, eventTime - Sum(ls[..k]), k);
        ShortcutEntries(ls, simTime, u, eventTime, i, k);
        ShortcutForward(ls, u, eventTime - Sum(ls[..k]), i, k);
        LinkedAhead(us, ls, u, eventTime - Sum(ls[..k]), i, k);
      }
    }

    lemma {:induction false} LinkUnits(us: seq<Unit>, ls: seq<Link>, u: Unit, d: int, k: nat)
      requires Timed(us, ls, u, d, k)
      ensures |ls| == |us| && forall j :: 0 <= j < |us| ==> ls[j].u == us[j]
    {
    }

    /** The place and the relinking. */
    ghost predicate Placed(us: seq<Unit>, ls: seq<Link>, u: Unit, eventTime: int, k: nat)
      reads this`clockQueue, this`simTime, this`rtime, us, u
    {
      && k <= |us| == |ls| && Distinct(us) && Wrapped(rtime, simTime) && Forward(ls, 1)
      && Sum(ls[..k]) <= eventTime && (k < |ls| ==> eventTime < Sum(ls[..k]) + ls[k].time)
      && IsPlace(Entries(ls, simTime), simTime + eventTime, k)
      && Threaded(us, u, k) && Timed(us, ls, u, eventTime - Sum(ls[..k]), k)
    }

    lemma {:induction false} ListDistinct()
      requires Linked()
      ensures Distinct(units)
    {
    }

    lemma {:induction false} LinkTime(k: nat)
      ensures k < |units| ==> LinksOf(units)[k].time == units[k].time
    {
    }

    /** Nothing is late. */
    lemma {:induction false} NoneLate(u: Unit)
      requires Valid()
      ensures Entry(u, simTime - 1) !in agenda
    {
      EntriesSorted(LinksOf(units), simTime);
      hide LinksOf, Entries, Linked, Forward, Wrapped;
    }

    lemma {:induction false} FirstUnit()
      requires Linked()
      ensures clockQueue == (if units == [] then null else units[0])
    {
    }

    /** sim_activate, once the unit seems not to be queued. */
    method Enqueue(u: Unit, eventTime: int) returns (ghost k: nat)
      requires Coherent() && eventTime >= 0
      modifies this, units, u
      ensures stopCpu == old(stopCpu) && simTime == old(TheAgenda().now) && IsPlace(old(agenda), simTime + eventTime, k)
      ensures u !in old(units) ==>
        && Coherent() && Settled() && (old(interval) >= 0 ==> Valid() && interval >= 0)
        && TheAgenda() == Agenda(simTime, Insert(old(agenda), Entry(u, simTime + eventTime)))
        && forall x :: x in units <==> x in old(units) || x == u
      ensures u in old(units) ==> Mislinked(old(units), old(agenda), u, eventTime, k) && (Linked() ==> interval == Start())
    {
      hide Lists, Linked, Entries, Insert, LinksOf, Wrapped, IsPlace, Leads, Shortcut, Forward;
      UpdateSimTime();
      k := LinkAt(u, eventTime);
      interval := clockQueue.time;
      if Linked() {
        FirstUnit();
      }
      if u !in old(units) {
        ForwardFirst();
      }
    }

    /** No link is negative when the first is not. */
    lemma {:induction false} ForwardFirst()
      requires Coherent() && units != []
      ensures Valid() <==> units[0].time >= 0
    {
      assert LinksOf(units)[0].time == units[0].time;
    }

    /** sim_activate. A unit that is late by one passes for one that is not queued, and is linked in
        again: then the agenda is not what it is to be. */
    method Activate(u: Unit, eventTime: int) returns (s: Status, ghost k: nat)
      requires Coherent()
      modifies this, units, u
      ensures s == if eventTime < 0 then InternalError else Ok
      ensures Coherent() && TheAgenda() == Activated(old(TheAgenda()), u, eventTime) <==>
        eventTime < 0 || old(Entry(u, simTime - 1) !in agenda)
      ensures eventTime < 0 || old(Entry(u, simTime - 1) !in agenda) ==>
        && (old(Valid() && interval >= 0) ==> Valid() && interval >= 0)
        && (forall x :: x in units ==> x in old(units) || x == u)
        && (old(Settled()) || (eventTime >= 0 && u !in old(units)) ==> Settled())
      ensures eventTime >= 0 && u !in old(units) ==>
        var now := old(TheAgenda().now);
        TheAgenda() == Agenda(now, Insert(old(agenda), Entry(u, now + eventTime)))
      ensures eventTime >= 0 && old(Entry(u, simTime - 1) in agenda) ==>
        var a := old(TheAgenda());
        && simTime == a.now && IsPlace(a.q, a.now + eventTime, k) && Mislinked(old(units), a.q, u, eventTime, k)
        && if k <= Position(old(units), u) + 1 then forall us :: !Lists(us) else TheAgenda() == a.(q := agenda)
    {
      hide Queued, Insert, Forward, LinksOf, Linked, Lists, Leads, Entries, Wrapped, IsPlace, Shortcut, Mislinked;
      k := 0;
      QueuedUnits(u);
      if eventTime < 0 {
        return InternalError, 0;
      }
      var active := IsActive(u);
      if active != 0 {
        return Ok, 0;
      }
      k := Enqueue(u, eventTime);
      if u in old(units) {
        Corrupted(old(units), old(agenda), u, eventTime, k);
      }
      return Ok, k;
    }

    /** Links that lead back are no list, and the others have lost units. */
    lemma {:induction false} Corrupted(us: seq<Unit>, q: seq<Entry>, u: Unit, delay: int, k: nat)
      requires Mislinked(us, q, u, delay, k)
      ensures if k <= Position(us, u) + 1 then !Linked() && forall vs :: !Lists(vs) else |agenda| < |q| && Linked()
    {
      hide Lists, Leads, Wrapped, Entries, Forward, LinksOf;
      var i := Position(us, u);
      if k <= i + 1 {
        var w := us[..k] + [u] + us[k..i + 1];
        forall vs: seq<Unit> ensures !Lists(vs) {
          if k == i + 1 {
            assert w[i] == us[i] == u && w[i + 1] == u;
            NoList(w, i, i + 1, vs);
          } else {
            assert w[k] == u && w[i + 1] == us[i] == u;
            NoList(w, k, i + 1, vs);
          }
        }
      }
    }

    /** The search of sim_cancel, for the unit before `u`. */
    method FindBefore(u: Unit) returns (cptr: Unit?, ghost k: nat)
      requires Linked() && units != [] && units[0] != u
      ensures cptr == null ==> u !in units
      ensures cptr != null ==> k < |units| && units[k] == u && cptr == UnitAt(units, k - 1)
    {
      cptr, k := clockQueue, 1;
      while cptr != null
        invariant 0 < k <= |units| + 1 && cptr == UnitAt(units, k - 1)
        invariant forall i :: 0 <= i < k && i < |units| ==> units[i] != u
        decreases |units| - k
      {
        assert cptr == units[k - 1] && cptr.next == NextIn(units, k - 1);
        if cptr.next == u {
          return;
        }
        cptr, k := cptr.next, k + 1;
      }
    }

    /** The relinking of sim_cancel around `u`, which follows `prvptr`. */
    method UnlinkUnit(u: Unit, prvptr: Unit?, ghost k: nat) returns (nptr: Unit?)
      requires Linked() && k < |units| && units[k] == u && prvptr == UnitAt(units, k - 1)
      modifies this`clockQueue, this`units, units`next
      ensures Linked() && units == old(units[..k] + units[k + 1..]) && nptr == UnitAt(units, k)
    {
      ghost var us := units;
      assert u.next == NextIn(us, k);
      nptr := u.next;
      if prvptr == null {
        clockQueue := u.next;
      } else {
        prvptr.next := u.next;
      }
      units := us[..k] + us[k + 1..];
      forall i | 0 <= i < |units| ensures units[i].next == NextIn(units, i) {
        if i >= k {
          assert units[i] == us[i + 1] && us[i + 1].next == NextIn(us, i + 1);
        } else {
          assert units[i] == us[i] && (i < k - 1 ==> us[i].next == NextIn(us, i));
        }
      }
    }

    /** What `u` counted goes to its successor. */
    method PassTime(nptr: Unit?, t: int, ghost us: seq<Unit>, ghost ls: seq<Link>, ghost k: nat)
      requires Linked() && k < |us| && units == us[..k] + us[k + 1..] && nptr == UnitAt(units, k)
      requires ls == LinksOf(us) && t == ls[k].time
      modifies units`time
      ensures LinksOf(units) == WithoutLink(ls, k)
    {
      if nptr != null {
        nptr.time := nptr.time + t;
      }
      ghost var ls' := LinksOf(units);
      forall i | 0 <= i < k ensures ls'[i] == ls[i] {
        assert units[i] == us[i] && (k < |units| ==> units[i] != units[k]);
      }
      forall i | k < i < |us| ensures ls'[i - 1] == ls[i].(time := ls[i].time + (if i == k + 1 then t else 0)) {
        assert units[i - 1] == us[i] && (i > k + 1 ==> units[i - 1] != units[k]);
      }
      LinksCut(ls, ls', k);
    }

    /** Unlinking, with what the code calls hygiene. */
    method Unsplice(u: Unit, prvptr: Unit?, ghost k: nat, ghost q: seq<Entry>)
      requires Linked() && k < |units| && units[k] == u && prvptr == UnitAt(units, k - 1)
      modifies this`clockQueue, this`units, this`agenda, units, u
      ensures Linked() && units == old(units[..k] + units[k + 1..]) && u !in units && agenda == q
      ensures u.next == null && u.time == 0
      ensures LinksOf(units) == WithoutLink(old(LinksOf(units)), k)
    {
      ghost var us, ls := units, LinksOf(units);
      var nptr := UnlinkUnit(u, prvptr, k);
      agenda := q;
      assert LinksOf(us) == ls && u !in units;
      hide LinksOf, WithoutLink, UnitAt;
      var t := u.time;
      PassTime(nptr, t, us, ls, k);
      u.next, u.time := null, 0;
    }

    method Unlink(u: Unit, prvptr: Unit?, ghost k: nat)
      requires Coherent() && k < |units| && units[k] == u && prvptr == UnitAt(units, k - 1)
      modifies this`clockQueue, this`units, this`agenda, units, u
      ensures Coherent() && (old(Valid()) ==> Valid()) && agenda == Remove(old(agenda), u)
      ensures u !in units && (forall x :: x in units ==> x in old(units)) && u.next == null && u.time == 0
    {
      DistinctLinks(k);
      hide Linked, Wrapped, Entries, Remove, LinksOf, WithoutLink, Forward, UnitAt, NextIn;
      UnlinkedAgenda(LinksOf(units), k, simTime);
      UnlinkedForward(LinksOf(units), k);
      Unsplice(u, prvptr, k, Remove(agenda, u));
    }

    lemma {:induction false} DistinctLinks(k: nat)
      requires Linked() && k < |units|
      ensures var ls := LinksOf(units); ls[k].u == units[k] && forall i :: 0 <= i < k ==> ls[i].u != ls[k].u
    {
    }

    /** The unlinking of sim_cancel, if `u` is queued. */
    method Unqueue(u: Unit)
      requires Coherent() && units != []
      modifies this`clockQueue, this`units, this`agenda, units, u
      ensures Coherent() && (old(Valid()) ==> Valid()) && agenda == Remove(old(agenda), u)
      ensures u !in units && (forall x :: x in units ==> x in old(units)) && u.next == null && u.time == 0
    {
      var cptr: Unit? := null;
      ghost var k := 0;
      if clockQueue != u {
        cptr, k := FindBefore(u);
        if cptr == null {
          QueuedUnits(u);
          RemoveAbsent(agenda, u);
          u.next, u.time := null, 0;
          return;
        }
      }
      Unlink(u, cptr, k);
    }

    /** The counter starts again from the first unit. */
    method Restart()
      requires Coherent()
      modifies this`interval, this`noqueueTime
      ensures Coherent() && Settled() && TheAgenda() == Agenda(simTime, agenda)
      ensures interval == if units == [] then 10000 else units[0].time
      ensures old(Valid()) ==> Valid() && interval >= 0
    {
      if clockQueue != null {
        interval := clockQueue.time;
        ForwardFirst();
      } else {
        noqueueTime := NOQUEUE_WAIT;
        interval := NOQUEUE_WAIT;
      }
    }

    /** sim_cancel */
    method Cancel(u: Unit) returns (s: Status)
      requires Coherent()
      modifies this, units, u
      ensures s == Ok && Coherent() && TheAgenda() == old(TheAgenda().(q := Remove(agenda, u)))
      ensures old(Valid() && interval >= 0) ==> Valid() && interval >= 0
      ensures u !in units && forall x :: x in units ==> x in old(units)
      ensures old(Settled()) ==> Settled()
      ensures old(units) != [] ==> u.next == null && u.time == 0
    {
      s := Ok;
      if clockQueue == null {
        return;
      }
      hide Entries, LinksOf, Wrapped, Remove, Forward;
      UpdateSimTime();
      Unqueue(u);
      Restart();
    }

    /** The requests of an action, of units among `pool`. */
    method Perform(requests: seq<Request>, ghost pool: set<Unit>)
      requires Valid() && Settled() && (forall x :: x in units ==> x in pool)
      requires forall r :: r in requests ==> r.u in pool
      modifies this, pool
      ensures Valid() && Settled() && (forall x :: x in units ==> x in pool)
      ensures TheAgenda() == Respond(old(TheAgenda()), requests)
    {
      ghost var a := TheAgenda();
      for k := 0 to |requests|
        invariant Valid() && Settled() && (forall x :: x in units ==> x in pool)
        invariant TheAgenda() == Respond(a, requests[..k])
      {
        assert requests[..k + 1][..k] == requests[..k] && interval >= 0;
        assert requests[k].u in pool;
        match requests[k] {
          case Activate(u, delay) =>
            NoneLate(u);
            var s, k := Activate(u, delay);
          case Cancel(u) =>
            var s := Cancel(u);
        }
      }
      assert requests[..|requests|] == requests;
    }

    /** The unlinking of the first unit. */
    method Detach(ghost ls: seq<Link>, ghost q: seq<Entry>) returns (uptr: Unit)
      requires Linked() && units != [] && ls == LinksOf(units)
      modifies this`clockQueue, this`units, this`agenda, units
      ensures agenda == q && Linked() && units == old(units[1..]) && uptr == old(units[0])
      ensures uptr.next == null && uptr.time == 0
      ensures LinksOf(units) == ls[1..]
    {
      ghost var us := units;
      uptr := clockQueue;
      assert uptr.next == NextIn(us, 0);
      clockQueue := uptr.next;
      uptr.next, uptr.time := null, 0;
      agenda, units := q, us[1..];
      assert forall i :: 0 <= i < |units| ==> units[i] == us[i + 1];
      forall i | 0 <= i < |units| ensures units[i].next == NextIn(units, i) {
        assert us[i + 1].next == NextIn(us, i + 1);
      }
    }

    /** The removal of the first unit by sim_process_event. */
    method Pop() returns (uptr: Unit)
      requires Coherent() && units != []
      modifies this`clockQueue, this`units, this`agenda, units
      ensures Valid() && units == old(units[1..])
      ensures uptr.next == null && uptr.time == 0
      ensures old(agenda) != [] && uptr == old(agenda[0].u)
      ensures agenda == Delayed(old(agenda[1..]), simTime - old(agenda[0].due))
    {
      hide Linked, Wrapped, Entries, Delayed, Forward, LinksOf;
      ghost var ls := LinksOf(units);
      DistinctLinks(0);
      Popped(ls, simTime);
      ghost var q := Delayed(agenda[1..], simTime - agenda[0].due);
      uptr := Detach(ls, q);
    }

    /** One round of the loop of sim_process_event, in which the action of the first unit
        responds with `r`. */
    method FireFirst(r: Response, ghost pool: set<Unit>) returns (uptr: Unit)
      requires Coherent() && units != [] && simTime == TheAgenda().now && (forall x :: x in units ==> x in pool)
      requires forall q :: q in r.requests ==> q.u in pool
      modifies this, pool
      ensures Valid() && Settled() && (forall x :: x in units ==> x in pool)
      ensures old(agenda) != [] && uptr == old(agenda[0].u)
      ensures TheAgenda() == Respond(Fire(old(TheAgenda())), r.requests)
      ensures simTime == TheAgenda().now && (units == [] <==> agenda == [])
      ensures interval == 0 <==> agenda != [] && agenda[0].due == simTime
    {
      hide Linked, Wrapped, Entries, Delayed, Forward, LinksOf;
      uptr := Pop();
      Restart();
      Perform(r.requests, pool);
      FirstEntry();
    }

    /** sim_process_event. The k-th action that is called responds with `responses[k]`;
        the loop ends, so one of the responses is not Ok or comes when nothing is due. */
    method ProcessEvent(responses: seq<Response>, ghost pool: set<Unit>) returns (reason: Status, ghost fired: seq<Unit>)
      requires Coherent() && (forall x :: x in units ==> x in pool)
      requires forall r, q :: r in responses && q in r.requests ==> q.u in pool
      requires Ending(responses)
      modifies this, pool
      ensures Coherent() && (forall x :: x in units ==> x in pool)
      ensures old(stopCpu) ==> reason == Stop && TheAgenda() == old(TheAgenda())
      ensures !old(stopCpu) ==> Valid() && Settled()
      ensures !old(stopCpu) && old(agenda) == [] ==> reason == Ok && fired == [] && TheAgenda() == old(TheAgenda())
      ensures !old(stopCpu) && old(agenda) != [] ==>
        Outcome(TheAgenda(), fired, reason) == Process(old(TheAgenda()), responses)
    {
      if stopCpu {
        return Stop, [];
      }
      UpdateSimTime();
      FirstEntry();
      if clockQueue == null {
        Restart();
        return Ok, [];
      }
      reason, fired := FireDue(responses, pool);
    }

    /** The loop of sim_process_event. */
    method FireDue(responses: seq<Response>, ghost pool: set<Unit>) returns (reason: Status, ghost fired: seq<Unit>)
      requires Coherent() && units != [] && simTime == TheAgenda().now && (forall x :: x in units ==> x in pool)
      requires forall r, q :: r in responses && q in r.requests ==> q.u in pool
      requires Ending(responses)
      modifies this, pool
      ensures Valid() && Settled() && (forall x :: x in units ==> x in pool)
      ensures old(agenda) != []
      ensures Outcome(TheAgenda(), fired, reason) == Process(old(TheAgenda()), responses)
    {
      ghost var a := TheAgenda();
      hide Linked, Wrapped, Entries, Delayed, Forward, LinksOf, Fire, Respond;
      var rest := responses;
      fired := [];
      FirstEntry();
      while true
        invariant Coherent() && units != [] && simTime == TheAgenda().now && (forall x :: x in units ==> x in pool)
        invariant forall r, q :: r in rest && q in r.requests ==> q.u in pool
        invariant Ending(rest) && agenda != []
        invariant Process(a, responses) == After(fired, Process(TheAgenda(), rest))
        decreases |rest|
      {
        ghost var b := TheAgenda();
        var uptr := FireFirst(rest[0], pool);
        ProcessStep(fired, b, rest);
        fired := fired + [uptr];
        reason := rest[0].reason;
        if !(reason == Ok && interval == 0) {
          return;
        }
        rest := rest[1..];
      }
    }
  }

  /** A queue with a unit that is due at once. */
  method DueAtOnce() returns (q: Queue, u: Unit)
    ensures fresh(q) && fresh(u) && q.Coherent() && q.units == [u] && q.TheAgenda() == Agenda(0, [Entry(u, 0)])
  {
    hide Queue.Lists, Queue.Linked, Queue.Leads, Queue.Mislinked, Entries, Insert, LinksOf, Forward, Wrapped;
    u := new Unit();
    q := new Queue();
    var s, k := q.Activate(u, 0);
    TwoEntries(Entry(u, 0), Entry(u, 0));
    q.AgendaUnits();
  }

  /** A run that leaves a unit late by one: the second is activated when the counter has gone past
      the first. */
  method LateByOne() returns (q: Queue, u: Unit, v: Unit)
    ensures fresh(q) && fresh(u) && fresh(v) && u != v && q.Coherent() && q.units == [u, v]
    ensures q.simTime == 1 && q.TheAgenda() == Agenda(1, [Entry(u, 0), Entry(v, 5)])
  {
    hide Queue.Lists, Queue.Linked, Queue.Leads, Queue.Mislinked, Entries, Insert, LinksOf, Forward, Wrapped;
    q, u := DueAtOnce();
    v := new Unit();
    q.Count();
    var s, k := q.Activate(v, 4);
    TwoEntries(Entry(u, 0), Entry(v, 5));
    q.AgendaUnits();
  }

  lemma {:induction false} TwoEntries(x: Entry, y: Entry)
    requires x.due <= y.due
    ensures Insert([], x) == [x] && Insert([x], y) == [x, y]
  {
    assert Insert([], y) == [y] && [x][1..] == [];
  }

  /** Activated again to come after the second, the first loses it. */
  method LoseUnit() returns (q: Queue, u: Unit, v: Unit)
    ensures q.Coherent() && q.units == [u] && u != v && q.TheAgenda() == Agenda(1, [Entry(u, 7)])
  {
    hide Queue.Lists, Queue.Linked, Queue.Leads, Entries, Insert, LinksOf, Forward, Wrapped;
    q, u, v := LateByOne();
    var s, k := q.Activate(u, 10);
    assert k == 2 && Position([u, v], u) == 0;
    assert [Entry(u, 0), Entry(v, 5)][2..] == [] && Delayed([], -4) == [];
  }

  /** Activated again to come next, it follows itself. */
  method LoopUnit() returns (q: Queue, u: Unit, v: Unit)
    ensures q.clockQueue == u && u.next == u
  {
    hide Queue.Lists, Queue.Linked, Entries, Insert, LinksOf, Forward, Wrapped;
    q, u, v := LateByOne();
    var s, k := q.Activate(u, 0);
    assert k == 1 && Position([u, v], u) == 0;
  }

  /** Some response is not Ok. */
  ghost predicate Ending(responses: seq<Response>): (b: bool)
    ensures b ==> responses != []
  {
    responses != [] && (responses[0].reason == Ok ==> Ending(responses[1..]))
  }

  /** What is left of the agenda and its links without the first. */
  lemma {:induction false} Popped(ls: seq<Link>, now: int)
    requires ls != [] && Forward(ls, 1)
    ensures var q := Entries(ls, now);
      && q != [] && q[0].u == ls[0].u && Delayed(q[1..], now - q[0].due) == Entries(ls[1..], now)
    ensures Forward(ls[1..], 0) && Forward(ls[1..], 1)
  {
    assert Forward(ls[1..], 0) && Forward(ls[1..], 1);
    hide *;
    PoppedAgenda(ls, now);
  }

  lemma {:induction false} PoppedAgenda(ls: seq<Link>, base: int)
    requires ls != []
    ensures Entries(ls, base)[0] == Entry(ls[0].u, base + ls[0].time)
    ensures Delayed(Entries(ls, base)[1..], -ls[0].time) == Entries(ls[1..], base)
  {
    hide *;
    var t, rest := ls[0].time, ls[1..];
    assert ls == [ls[0]] + rest;
    EntriesCons(ls[0], rest, base);
    DelayedEntries(rest, base + t, -t);
    assert ([Entry(ls[0].u, base + t)] + Entries(rest, base + t))[1..] == Entries(rest, base + t);
  }

  lemma {:induction false} UnlinkedAgenda(ls: seq<Link>, k: nat, base: int)
    requires k < |ls| && forall i :: 0 <= i < k ==> ls[i].u != ls[k].u
    ensures Entries(WithoutLink(ls, k), base) == Remove(Entries(ls, base), ls[k].u)
  {
    var q := Entries(ls, base);
    forall i | 0 <= i < |ls| ensures q[i].u == ls[i].u {
      EntryAt(ls, base, i);
    }
    hide *;
    RemovePlace(q, k);
    UnlinkedEntries(ls, k, base);
  }

  lemma {:induction false} UnlinkedEntries(ls: seq<Link>, k: nat, base: int)
    requires k < |ls|
    ensures Entries(WithoutLink(ls, k), base) == Entries(ls, base)[..k] + Entries(ls, base)[k + 1..]
  {
    hide Entries, Sum, Nearer;
    EntryAt(ls, base, k);
    EntriesSplit(ls, k, base);
    EntriesSplit(ls, k + 1, base);
    LinkOut(ls[..k], ls[k], ls[k + 1..], base);
  }

  lemma {:induction false} EntriesSplit(ls: seq<Link>, k: nat, base: int)
    requires k <= |ls|
    ensures Entries(ls[..k], base) == Entries(ls, base)[..k]
    ensures Entries(ls[k..], base + Sum(ls[..k])) == Entries(ls, base)[k..]
  {
    assert ls[..k] + ls[k..] == ls;
    EntriesAppend(ls[..k], ls[k..], base);
  }

  lemma {:induction false} UnlinkedForward(ls: seq<Link>, k: nat)
    requires k < |ls| && Forward(ls, 1)
    ensures Forward(WithoutLink(ls, k), 1) && (Forward(ls, 0) ==> Forward(WithoutLink(ls, k), 0))
  {
  }

  lemma {:induction false} LinksCut(ls: seq<Link>, ls': seq<Link>, k: nat)
    requires k < |ls| && |ls'| == |ls| - 1
    requires forall i :: 0 <= i < k ==> ls'[i] == ls[i]
    requires forall i :: k < i < |ls| ==> ls'[i - 1] == ls[i].(time := ls[i].time + (if i == k + 1 then ls[k].time else 0))
    ensures ls' == WithoutLink(ls, k)
  {
    hide Nearer;
    var tail := Nearer(ls[k + 1..], -ls[k].time);
    forall i | k <= i < |ls'| ensures ls'[i] == tail[i - k] {
      NearerAt(ls[k + 1..], -ls[k].time, i - k);
      assert ls'[(i + 1) - 1] == ls'[i];
    }
    assert ls' == ls[..k] + tail;
  }

  lemma {:induction false} NearerAt(ls: seq<Link>, d: int, i: nat)
    requires i < |ls|
    ensures Nearer(ls, d)[i] == ls[i].(time := ls[i].time - if i == 0 then d else 0)
  {
  }

  lemma {:induction false} TimesStay(ls: seq<Link>, u: Unit, d: int, k: nat)
    requires k <= |ls| && d >= 0 && (k < |ls| ==> ls[k].time >= d) && Forward(ls, 1)
    ensures Forward(WithLink(ls, u, d, k), 1) && (Forward(ls, 0) ==> Forward(WithLink(ls, u, d, k), 0))
  {
    var ls' := WithLink(ls, u, d, k);
    forall i | 0 <= i < |ls'| && (i == 0 && k > 0 ==> ls[0].time >= 0) ensures ls'[i].time >= 0 {
      WithLinkAt(ls, u, d, k, i);
    }
    hide WithLink;
  }

  lemma {:induction false} WithLinkAt(ls: seq<Link>, u: Unit, d: int, k: nat, i: nat)
    requires k <= |ls| && i <= |ls|
    ensures WithLink(ls, u, d, k)[i].time == if i < k then ls[i].time else if i == k then d else ls[i - 1].time - (if i == k + 1 then d else 0)
  {
  }

  /** The links and the agenda with a unit in its place. */
  lemma {:induction false} PlaceLink(ls: seq<Link>, now: int, u: Unit, eventTime: int, k: nat)
    requires k <= |ls| && Sum(ls[..k]) <= eventTime && (k < |ls| ==> eventTime < Sum(ls[..k]) + ls[k].time)
    requires IsPlace(Entries(ls, now), now + eventTime, k) && Forward(ls, 1)
    ensures var ls' := WithLink(ls, u, eventTime - Sum(ls[..k]), k);
      && Entries(ls', now) == Insert(Entries(ls, now), Entry(u, now + eventTime))
      && Forward(ls', 1) && (Forward(ls, 0) ==> Forward(ls', 0))
  {
    hide *;
    LinkedAgenda(ls, now, u, eventTime, eventTime - Sum(ls[..k]), k);
    TimesStay(ls, u, eventTime - Sum(ls[..k]), k);
  }

  /** The agenda of the links from which the i-th skips to the k-th. */
  lemma {:induction false} ShortcutEntries(ls: seq<Link>, now: int, u: Unit, delay: int, i: nat, k: nat)
    requires i + 1 < k <= |ls| && ls[i].u == u
    ensures
      var d := delay - Sum(ls[..k]);
      Entries(ls[..i] + [Link(u, d)] + Nearer(ls[k..], d), now) == Shortcut(Agenda(now, Entries(ls, now)), delay, i, k)
  {
    hide Entries, Sum, Nearer, Delayed;
    LinkIn(ls[..i], ls[k..], u, delay - Sum(ls[..k]), now);
    EntriesSplit(ls, i, now);
    EntriesSplit(ls, k, now);
    DelayedEntries(ls[k..], now + Sum(ls[..k]), Sum(ls[..i]) - Sum(ls[..k]));
    EntryAt(ls, now, i);
    EntryAt(ls, now, k - 1);
    if i > 0 {
      EntryAt(ls, now, i - 1);
    } else {
      SumNone();
    }
  }

  lemma {:induction false} SumNone()
    ensures Sum([]) == 0
  {
  }

  lemma {:induction false} ShortcutForward(ls: seq<Link>, u: Unit, d: int, i: nat, k: nat)
    requires i + 1 < k <= |ls| && d >= 0 && (k < |ls| ==> ls[k].time >= d) && Forward(ls, 1)
    ensures Forward(ls[..i] + [Link(u, d)] + Nearer(ls[k..], d), 1)
  {
    var ls', b := ls[..i] + [Link(u, d)] + Nearer(ls[k..], d), Nearer(ls[k..], d);
    forall j | 1 <= j < |ls'| ensures ls'[j].time >= 0 {
      if j > i {
        assert ls'[j] == b[j - i - 1] && b[j - i - 1].time == ls[k + (j - i - 1)].time - (if j == i + 1 then d else 0);
      }
    }
  }

  lemma {:induction false} LinksSpliced(ls: seq<Link>, ls': seq<Link>, u: Unit, d: int, k: nat)
    requires k <= |ls| && |ls'| == |ls| + 1 && ls'[k] == Link(u, d)
    requires forall i :: 0 <= i < k ==> ls'[i] == ls[i]
    requires forall i :: k <= i < |ls| ==> ls'[i + 1] == ls[i].(time := ls[i].time - (if i == k then d else 0))
    ensures ls' == WithLink(ls, u, d, k)
  {
    var b := Nearer(ls[k..], d);
    forall j | 0 <= j < |b| ensures b[j] == ls'[k + 1 + j] {
      assert b[j] == ls[k + j].(time := ls[k + j].time - (if j == 0 then d else 0)) == ls'[(k + j) + 1];
    }
    hide Nearer;
    assert ls'[..k] == ls[..k] && ls'[k + 1..] == b;
    assert ls' == ls'[..k] + [ls'[k]] + ls'[k + 1..];
  }

  lemma {:induction false} LinkedAgenda(ls: seq<Link>, base: int, u: Unit, eventTime: int, d: int, k: nat)
    requires k <= |ls| && d == eventTime - Sum(ls[..k]) && IsPlace(Entries(ls, base), base + eventTime, k)
    ensures Entries(WithLink(ls, u, d, k), base)
         == Insert(Entries(ls, base), Entry(u, base + eventTime))
  {
    hide Entries, Insert, Sum;
    InsertPlace(Entries(ls, base), Entry(u, base + eventTime), k);
    LinkIn(ls[..k], ls[k..], u, d, base);
    EntriesAppend(ls[..k], ls[k..], base);
    assert ls[..k] + ls[k..] == ls;
  }
}
