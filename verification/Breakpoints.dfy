/** The breakpoint table of the simulator (scp.c): an array kept in the order of addresses
    and searched by halving, with a summary of the types that are set. */
module Breakpoints {
  /** A mask of types, as the set of its bits. */
  type mask = set<nat>

  datatype Break = Break(addr: int, typ: mask, cnt: int)

  const INITIAL_LENGTH := 1024

  datatype Status = Ok | NoFunction | NoMemory

  ghost predicate Ordered(s: seq<Break>) {
    forall i, j :: 0 <= i < j < |s| ==> s[i].addr < s[j].addr
  }

  ghost predicate Has(s: seq<Break>, a: int) {
    exists i :: 0 <= i < |s| && s[i].addr == a
  }

  /** A table of breakpoints by address, as a map. */
  ghost predicate Describes(m: map<int, Break>, s: seq<Break>) {
    && (forall i :: 0 <= i < |s| ==> s[i].addr in m && m[s[i].addr] == s[i])
    && (forall a :: a in m ==> Has(s, a))
  }

  /** Where `loc` would have to go. */
  ghost predicate IsGap(s: seq<Break>, loc: int, k: int) {
    0 <= k <= |s| && (forall i :: 0 <= i < k ==> s[i].addr < loc) && (forall i :: k <= i < |s| ==> loc < s[i].addr)
  }

  /** `loc` is not outside of `lo` to `hi`. */
  ghost predicate IsAround(s: seq<Break>, loc: int, lo: int, hi: int) {
    && 0 <= lo <= |s| && -1 <= hi < |s|
    && (forall i :: 0 <= i < lo ==> s[i].addr < loc)
    && (forall i :: hi < i < |s| ==> loc < s[i].addr)
  }

  lemma {:induction false} Narrowed(s: seq<Break>, loc: int, p: int)
    requires Ordered(s) && 0 <= p < |s|
    ensures s[p].addr < loc ==> forall i :: 0 <= i <= p ==> s[i].addr < loc
    ensures loc < s[p].addr ==> forall i :: p <= i < |s| ==> loc < s[i].addr
  {
  }

  /** No breakpoint has a type that the summary lacks, or no type at all. */
  ghost predicate Covers(summ: mask, s: seq<Break>) {
    forall i :: 0 <= i < |s| ==> s[i].typ <= summ && s[i].typ != {}
  }

  lemma {:induction false} Absent(m: map<int, Break>, s: seq<Break>, loc: int, k: int)
    requires Describes(m, s) && IsGap(s, loc, k)
    ensures loc !in m
  {
    assert !Has(s, loc);
  }

  lemma {:induction false} Present(m: map<int, Break>, s: seq<Break>, p: int)
    requires Describes(m, s) && 0 <= p < |s|
    ensures s[p].addr in m && m[s[p].addr] == s[p]
  {
  }

  /** `r` is `s` with `b` put in at `k`. */
  ghost predicate IsInsert(s: seq<Break>, r: seq<Break>, b: Break, k: int) {
    && 0 <= k <= |s| == |r| - 1
    && forall i {:trigger r[i]} :: 0 <= i < |r| ==> r[i] == if i < k then s[i] else if i == k then b else s[i - 1]
  }

  /** `r` is `s` with `b` at `k`. */
  ghost predicate IsUpdate(s: seq<Break>, r: seq<Break>, b: Break, k: int) {
    && 0 <= k < |s| == |r|
    && forall i {:trigger r[i]} :: 0 <= i < |r| ==> r[i] == if i == k then b else s[i]
  }

  /** `r` is `s` without what is at `k`. */
  ghost predicate IsRemoval(s: seq<Break>, r: seq<Break>, k: int) {
    && 0 <= k < |s| == |r| + 1
    && forall i {:trigger r[i]} :: 0 <= i < |r| ==> r[i] == if i < k then s[i] else s[i + 1]
  }

  lemma {:induction false} InsertOrdered(s: seq<Break>, r: seq<Break>, b: Break, k: int)
    requires Ordered(s) && IsGap(s, b.addr, k) && IsInsert(s, r, b, k)
    ensures Ordered(r)
  {
  }

  lemma {:induction false} InsertDescribed(m: map<int, Break>, s: seq<Break>, r: seq<Break>, b: Break, k: int)
    requires Describes(m, s) && b.addr !in m && IsInsert(s, r, b, k)
    ensures Describes(m[b.addr := b], r)
  {
    forall a | a in m ensures Has(r, a) {
      assert Has(s, a);
      var i :| 0 <= i < |s| && s[i].addr == a;
      assert r[if i < k then i else i + 1] == s[i];
    }
    assert r[k].addr == b.addr;
  }

  lemma {:induction false} UpdateDescribed(m: map<int, Break>, s: seq<Break>, r: seq<Break>, b: Break, k: int)
    requires Ordered(s) && Describes(m, s) && IsUpdate(s, r, b, k) && s[k].addr == b.addr
    ensures Ordered(r) && Describes(m[b.addr := b], r)
  {
    forall a | a in m ensures Has(r, a) {
      assert Has(s, a);
      var i :| 0 <= i < |s| && s[i].addr == a;
      assert r[i].addr == a;
    }
  }

  lemma {:induction false} RemoveDescribed(m: map<int, Break>, s: seq<Break>, r: seq<Break>, k: int)
    requires Ordered(s) && Describes(m, s) && IsRemoval(s, r, k)
    ensures Ordered(r) && Describes(m - {s[k].addr}, r)
  {
    forall a | a in m && a != s[k].addr ensures Has(r, a) {
      assert Has(s, a);
      var i :| 0 <= i < |s| && s[i].addr == a;
      assert r[if i < k then i else i - 1].addr == a;
    }
  }

  /** No types to clear means all types. */
  function Without(typ: mask, sw: mask): mask {
    if sw == {} then {} else typ - sw
  }

  ghost predicate Written(s: seq<Break>, m: map<int, Break>, summ: mask) {
    Ordered(s) && Covers(summ, s) && Describes(m, s)
  }

  lemma {:induction false} InsertWritten(m: map<int, Break>, s: seq<Break>, r: seq<Break>, b: Break, k: int, summ: mask)
    requires Written(s, m, summ) && IsGap(s, b.addr, k) && IsInsert(s, r, b, k) && b.typ != {}
    ensures Written(r, m[b.addr := b], summ + b.typ)
  {
    Absent(m, s, b.addr, k);
    InsertOrdered(s, r, b, k);
    InsertDescribed(m, s, r, b, k);
    hide Ordered, Describes, IsGap;
  }

  lemma {:induction false} RemoveWritten(m: map<int, Break>, s: seq<Break>, r: seq<Break>, k: int, summ: mask)
    requires Written(s, m, summ) && IsRemoval(s, r, k)
    ensures Written(r, m - {s[k].addr}, summ)
  {
    RemoveDescribed(m, s, r, k);
    hide Ordered, Describes;
  }

  lemma {:induction false} UpdateWritten(m: map<int, Break>, s: seq<Break>, r: seq<Break>, b: Break, k: int, summ: mask)
    requires Written(s, m, summ) && IsUpdate(s, r, b, k) && s[k].addr == b.addr && b.typ != {}
    ensures Written(r, m[b.addr := b], summ + b.typ)
  {
    UpdateDescribed(m, s, r, b, k);
    hide Ordered, Describes;
  }

  class Table {
    const tab: array<Break>
    const types: mask
    const dflt: mask
    var ent: int
    var ins: int
    var summ: mask
    var pend: bool
    var ploc: int
    ghost var breaks: map<int, Break>

    /** sim_brk_init */
    constructor (types: mask, dflt: mask)
      ensures Valid() && breaks == map[] && !pend && this.types == types && this.dflt == dflt
      ensures fresh(tab) && tab.Length == if types == {} then 1 else INITIAL_LENGTH
    {
      this.types, this.dflt := types, dflt;
      var n := if types == {} then 1 else INITIAL_LENGTH;
      tab := new Break[n](i => Break(0, {}, 0));
      ent, ins, summ, pend, ploc, breaks := 0, 0, {}, false, 0, map[];
    }

    ghost predicate Valid()
      reads this, tab
    {
      && 0 <= ent <= tab.Length
      && Written(tab[..ent], breaks, summ)
    }

    /** What a check against the summary before any search relies on. */
    lemma {:induction false} SummaryCovers(loc: int, btyp: mask)
      requires Valid() && btyp * summ == {}
      ensures loc in breaks ==> breaks[loc].typ * btyp == {}
    {
      if loc in breaks {
        assert Has(tab[..ent], loc);
      }
    }

    /** sim_brk_fnd: the index of the breakpoint at `loc`, or -1, with `ins` where it would go. */
    method Find(loc: int) returns (p: int)
      requires Valid()
      modifies this`ins
      ensures Valid()
      ensures loc in breaks <==> p >= 0
      ensures p >= 0 ==> p < ent && tab[p].addr == loc && breaks[loc] == tab[p]
      ensures p < 0 ==> IsGap(tab[..ent], loc, ins)
    {
      ghost var s, m := tab[..ent], breaks;
      hide Covers, Describes, Ordered;
      if ent == 0 {
        ins := 0;
        Absent(m, s, loc, 0);
        return -1;
      }
      var lo, hi := 0, ent - 1;
      p := (lo + hi) / 2;
      while loc != tab[p].addr
        invariant 0 <= lo <= p <= hi < ent && p == (lo + hi) / 2
        invariant IsAround(s, loc, lo, hi)
        decreases hi - lo
      {
        if loc < tab[p].addr {
          hi := p - 1;
        } else {
          lo := p + 1;
        }
        Narrowed(s, loc, p);
        if lo > hi {
          ins := if loc < tab[p].addr then p else p + 1;
          Absent(m, s, loc, ins);
          return -1;
        }
        p := (lo + hi) / 2;
      }
      Present(m, s, p);
    }

    /** sim_brk_new, whose loop opens a gap at `ins`. */
    method New(loc: int) returns (p: int)
      requires 0 <= ins <= ent <= tab.Length
      modifies this`ent, tab
      ensures old(ent) == tab.Length ==> p == -1 && ent == old(ent) && tab[..] == old(tab[..])
      ensures old(ent) < tab.Length ==> p == ins && ent == old(ent) + 1
      ensures old(ent) < tab.Length ==> IsInsert(old(tab[..ent]), tab[..ent], Break(loc, {}, 0), p)
    {
      if ent >= tab.Length {
        return -1;
      }
      var bp := ent;
      while bp > ins
        invariant ins <= bp <= ent == old(ent)
        invariant forall i :: 0 <= i < bp ==> tab[i] == old(tab[i])
        invariant forall i {:trigger tab[i]} :: bp < i <= ent ==> tab[i] == old(tab[i - 1])
      {
        tab[bp] := tab[bp - 1];
        bp := bp - 1;
      }
      tab[ins] := Break(loc, {}, 0);
      ent := ent + 1;
      return ins;
    }

    /** The entry at `loc`, made if need be: what is left is to write `b` there. */
    method Obtain(loc: int, ghost b: Break) returns (p: int)
      requires Valid() && b.addr == loc && b.typ != {}
      modifies this`ins, this`ent, tab
      ensures p < 0 ==> Valid() && loc !in breaks && old(ent) == tab.Length
      ensures p >= 0 ==> p < ent <= tab.Length && tab[p].addr == loc && (loc in breaks || old(ent) < tab.Length)
      ensures p >= 0 ==> Written(tab[..ent][p := b], breaks[loc := b], summ + b.typ)
    {
      ghost var was := tab[..ent];
      p := Find(loc);
      if p >= 0 {
        hide Ordered, Describes, IsGap, IsInsert, Covers;
        assert IsUpdate(was, tab[..ent][p := b], b, p);
        UpdateWritten(breaks, was, tab[..ent][p := b], b, p, summ);
      } else {
        p := New(loc);
        hide Ordered, Describes, IsGap, Covers;
        if p >= 0 {
          assert IsInsert(was, tab[..ent][p := b], b, p);
          InsertWritten(breaks, was, tab[..ent][p := b], b, p, summ);
        }
      }
    }

    /** sim_brk_set */
    method Set(loc: int, sw: mask, ncnt: int) returns (s: Status)
      requires Valid()
      modifies this`ins, this`ent, this`summ, this`breaks, tab
      ensures Valid()
      ensures var t := if sw == {} then dflt else sw;
        && (s == NoFunction <==> types * t == {})
        && (s == NoMemory <==> types * t != {} && loc !in old(breaks) && old(ent) == tab.Length)
        && breaks == if s == Ok then old(breaks)[loc := Break(loc, t, ncnt)] else old(breaks)
    {
      var t := if sw == {} then dflt else sw;
      if types * t == {} {
        return NoFunction;
      }
      ghost var b := Break(loc, t, ncnt);
      var p := Obtain(loc, b);
      if p < 0 {
        return NoMemory;
      }
      ghost var r := tab[..ent][p := b];
      tab[p] := tab[p].(typ := t, cnt := ncnt);
      assert tab[..ent] == r;
      breaks := breaks[loc := b];
      summ := summ + t;
      return Ok;
    }

    /** The shift of sim_brk_clr, which closes the gap at `p`. */
    method CloseGap(p: int)
      requires 0 <= p < ent <= tab.Length
      modifies tab
      ensures IsRemoval(old(tab[..ent]), tab[..ent - 1], p)
    {
      var bp := p;
      while bp < ent - 1
        invariant p <= bp <= ent - 1
        invariant forall i :: 0 <= i < p ==> tab[i] == old(tab[i])
        invariant forall i :: p <= i < bp ==> tab[i] == old(tab[i + 1])
        invariant forall i :: bp <= i < ent ==> tab[i] == old(tab[i])
      {
        tab[bp] := tab[bp + 1];
        bp := bp + 1;
      }
    }

    /** The new summary of sim_brk_clr: the types of what is left, and no others. */
    method Summarize()
      requires 0 <= ent <= tab.Length && Covers(summ, tab[..ent])
      modifies this`summ
      ensures Covers(summ, tab[..ent])
      ensures forall t :: t in summ ==> exists i :: 0 <= i < ent && t in tab[i].typ
    {
      ghost var s := tab[..ent];
      summ := {};
      for i := 0 to ent
        invariant forall k :: 0 <= k < i ==> tab[k].typ <= summ
        invariant forall t :: t in summ ==> exists k :: 0 <= k < i && t in tab[k].typ
      {
        summ := summ + tab[i].typ;
      }
      assert forall k :: 0 <= k < |s| ==> s[k] == tab[k];
    }

    /** sim_brk_clr */
    method Clear(loc: int, sw: mask)
      requires Valid()
      modifies this`ins, this`ent, this`summ, this`breaks, tab
      ensures Valid()
      ensures loc !in old(breaks) ==> breaks == old(breaks)
      ensures loc in old(breaks) ==>
        var b := old(breaks)[loc];
        var t := if sw == {} then {} else b.typ - sw;
        breaks == if t == {} then old(breaks) - {loc} else old(breaks)[loc := b.(typ := t)]
    {
      hide Ordered, Describes, IsGap;
      var p := Find(loc);
      if p < 0 {
        return;
      }
      ghost var was, b := tab[..ent], tab[p].(typ := Without(tab[p].typ, sw));
      assert b.typ <= tab[p].typ == was[p].typ <= summ;
      tab[p] := tab[p].(typ := Without(tab[p].typ, sw));
      hide Covers;
      if tab[p].typ != {} {
        assert IsUpdate(was, tab[..ent], b, p);
        UpdateWritten(breaks, was, tab[..ent], b, p, summ);
        assert summ + b.typ == summ;
        breaks := breaks[loc := b];
        return;
      }
      CloseGap(p);
      ent := ent - 1;
      assert IsRemoval(was, tab[..ent], p);
      RemoveWritten(breaks, was, tab[..ent], p, summ);
      breaks := breaks - {loc};
      Summarize();
    }

    /** The counting of sim_brk_test. */
    method Count(p: int) returns (done: bool)
      requires Valid() && 0 <= p < ent && tab[p].addr in breaks && breaks[tab[p].addr] == tab[p]
      modifies this`breaks, tab
      ensures Valid()
      ensures var b := old(tab[p]);
        (done <==> b.cnt <= 1) && breaks == old(breaks)[b.addr := b.(cnt := if b.cnt <= 1 then 0 else b.cnt - 1)]
    {
      ghost var was, b := tab[..ent], tab[p].(cnt := if tab[p].cnt <= 1 then 0 else tab[p].cnt - 1);
      tab[p] := tab[p].(cnt := tab[p].cnt - 1);
      done := tab[p].cnt <= 0;
      if done {
        tab[p] := tab[p].(cnt := 0);
      }
      hide Ordered, Describes;
      assert IsUpdate(was, tab[..ent], b, p);
      UpdateDescribed(breaks, was, tab[..ent], b, p);
      breaks := breaks[b.addr := b];
    }

    /** sim_brk_test: whether to stop before the instruction at `loc`. */
    method Test(loc: int, btyp: mask) returns (hit: bool)
      requires Valid()
      modifies this`ins, this`breaks, this`pend, this`ploc, tab
      ensures Valid()
      ensures var armed := loc in old(breaks) && btyp * old(breaks)[loc].typ != {} && !(old(pend) && loc == old(ploc));
        && (hit <==> armed && old(breaks)[loc].cnt <= 1)
        && breaks == if !armed then old(breaks) else
            var b := old(breaks)[loc];
            old(breaks)[loc := b.(cnt := if b.cnt <= 1 then 0 else b.cnt - 1)]
      ensures pend == hit && ploc == if hit then loc else old(ploc)
    {
      var p := Find(loc);
      hide Written, IsGap;
      hit := false;
      if p >= 0 && btyp * tab[p].typ != {} && !(pend && loc == ploc) {
        hit := Count(p);
        if hit {
          ploc := loc;
        }
      }
      pend := hit;
    }
  }
}
