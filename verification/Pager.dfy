/** The pager of the KS10 with TOPS-10 paging (pdp10_pag.c): two tables of expanded page table
    entries, filled on demand from the page tables in memory. */
module Paging {
  import opened Common
  import opened Words

  const MEMSIZE := 0x10_0000
  const PAGE := 512
  const PTBL_V := 0x4000_0000
  const PTBL_M := 0x8000_0000

  /** Where a virtual address leads: an AC, or a word of memory. */
  datatype Place = Ac(i: nat) | Mem(pa: nat)

  datatype Space = User | Exec | Phys

  // ---------------------------------------------------------------- page table entries

  /** The bits of a page table entry of 18 bits. */
  predicate Accessible(pte: int) {
    pte / 0x2_0000 % 2 == 1
  }

  predicate Writeable(pte: int) {
    pte / 0x8000 % 2 == 1
  }

  predicate Grants(pte: int, write: bool) {
    Accessible(pte) && (write ==> Writeable(pte))
  }

  function PageOf(pte: int): (p: nat)
    ensures p < 2048
  {
    pte % 2048
  }

  /** An expanded entry, in 32 bits of which the sign says that the page is writeable. */
  function Expand(pte: int): (x: int)
    ensures x != 0 && (x < 0 <==> Writeable(pte))
  {
    PageOf(pte) * PAGE + PTBL_V - if Writeable(pte) then PTBL_M else 0
  }

  /** PAG_XPTEPA */
  function Translate(xpte: int, ea: nat): (pa: nat)
    ensures pa < MEMSIZE
  {
    (xpte + ea % PAGE) % MEMSIZE
  }

  lemma {:induction false} TranslateExpanded(pte: int, ea: nat)
    ensures Translate(Expand(pte), ea) == PageOf(pte) * PAGE + ea % PAGE
  {
  }

  /** The entry of a page, in one half of a word. */
  function Half(w: word, vpn: nat): int {
    if vpn % 2 == 1 then w % W18 else w / W18
  }

  /** A word is the entries of two pages, the even page's on the left. */
  lemma {:induction false} TwoEntries(w: word, k: nat)
    ensures 0 <= Half(w, 2 * k) < 0x4_0000 && 0 <= Half(w, 2 * k + 1) < 0x4_0000
    ensures Half(w, 2 * k) * 0x4_0000 + Half(w, 2 * k + 1) == w
  {
  }

  lemma {:induction false} InHalf(w: word, vpn: nat)
    ensures Half(w, vpn) == if vpn % 2 == 0 then w / 0x4_0000 else w % 0x4_0000
  {
  }

  /** The bits of an entry: what it grants, and what it is when expanded. */
  lemma {:induction false} EntryBits(pte: int)
    ensures Grants(pte, false) <==> pte / 0x2_0000 % 2 == 1
    ensures Grants(pte, true) <==> pte / 0x2_0000 % 2 == 1 && pte / 0x8000 % 2 == 1
    ensures Expand(pte) == pte % 2048 * 512 + (if pte / 0x8000 % 2 == 1 then 0x4000_0000 - 0x8000_0000 else 0x4000_0000)
  {
  }

  /** The entry of page `i` when paging is off: every page is itself, and writeable. */
  function Identity(vpn: nat): (x: int)
    ensures x < 0
    requires vpn < 512
  {
    vpn * PAGE + PTBL_V - PTBL_M
  }

  lemma {:induction false} TranslateIdentity(ea: nat)
    requires ea < W18
    ensures Translate(Identity(ea / PAGE), ea) == ea
  {
  }

  class Pager {
    const M: array<word>
    const acs: array<word>
    const eptbl: array<int>
    const uptbl: array<int>
    /** The EBR and the UBR, by their fields. */
    var paging: bool
    var ebrPage: nat
    var acBlocks: nat
    var ubrPage: nat
    var user: bool
    var uio: bool
    /** What set_dyn_ptrs makes of them. */
    var acCur: nat
    var acPrv: nat
    var ptblCur: Space
    var ptblPrv: Space
    var epta: nat
    var upta: nat
    /** The pages of which an entry may be out of date. */
    ghost var stale: set<nat>

    /** After power-on: paging is off, and no entry is filled. */
    constructor (M: array<word>, acs: array<word>)
      requires M.Length == MEMSIZE && acs.Length == 128 && M != acs
      ensures Valid() && stale == {} && !paging && !user && !uio && acBlocks == ebrPage == ubrPage == 0
      ensures this.M == M && this.acs == acs && fresh(eptbl) && fresh(uptbl)
      ensures forall vpn :: 0 <= vpn < 512 ==> uptbl[vpn] == 0 && eptbl[vpn] == 0
    {
      this.M, this.acs := M, acs;
      var e := new int[512](i => 0);
      var u := new int[512](i => 0);
      eptbl, uptbl := e, u;
      paging, user, uio, acBlocks, ebrPage, ubrPage := false, false, false, 0, 0, 0;
      acCur, acPrv, ptblCur, ptblPrv, epta, upta, stale := 0, 0, Phys, Phys, 0, 0, {};
      new;
      Reset();
      SetDynPtrs();
    }

    ghost predicate Shape()
      reads this`acCur, this`acPrv, this`epta, this`upta
    {
      && M.Length == MEMSIZE && acs.Length == 128 && eptbl.Length == 512 && uptbl.Length == 512
      && M != acs && eptbl != uptbl
      && acCur < 8 && acPrv < 8
      && epta + PAGE <= MEMSIZE && upta + PAGE <= MEMSIZE
    }

    /** The pointers are what set_dyn_ptrs last made them. */
    ghost predicate Derived()
      reads this
    {
      && acBlocks < 64 && ebrPage < 2048 && ubrPage < 2048
      && acCur == (if paging then acBlocks / 8 else 0) && acPrv == (if paging then acBlocks % 8 else 0)
      && ptblCur == (if !paging then Phys else if user then User else Exec)
      && ptblPrv == (if !paging then Phys else if user || uio then User else Exec)
      && epta == ebrPage * PAGE && upta == ubrPage * PAGE
    }

    /** The address of the word with the entry of a page. The executive's are in both process tables. */
    function PteAddress(s: Space, vpn: nat): (a: nat)
      requires Shape() && vpn < 512
      reads this`acCur, this`acPrv, this`epta, this`upta
      ensures a < MEMSIZE
    {
      if s == User then upta + vpn / 2
      else if vpn < 0xE0 then epta + 0x180 + vpn / 2
      else if vpn < 0x100 then upta + 0x100 + (vpn - 0xE0) / 2
      else epta + 0x80 + (vpn - 0x100) / 2
    }

    /** A physical address below 16 is that of an AC. */
    function PlaceOf(a: nat): Place
      reads this`acCur
    {
      if a < 16 then Ac(acCur * 16 + a) else Mem(a)
    }

    predicate Exists(p: Place)
    {
      match p
      case Ac(i) => i < acs.Length
      case Mem(pa) => pa < M.Length
    }

    function At(p: Place): word
      requires Exists(p)
      reads M, acs
    {
      match p
      case Ac(i) => acs[i]
      case Mem(pa) => M[pa]
    }

    function PtePlace(s: Space, vpn: nat): (p: Place)
      requires Shape() && vpn < 512
      reads this`acCur, this`acPrv, this`epta, this`upta
      ensures Exists(p)
    {
      PlaceOf(PteAddress(s, vpn))
    }

    /** The entry of a page as it is in the page tables. */
    function Pte(s: Space, vpn: nat): int
      requires Shape() && vpn < 512
      reads this`acCur, this`acPrv, this`epta, this`upta, M, acs
    {
      Half(At(PtePlace(s, vpn)), vpn)
    }

    /** Which 18 bits of which word the entry is. */
    lemma {:induction false} PteInWords(s: Space, vpn: nat)
      requires Shape() && vpn < 512
      ensures
        var a := if s == User then upta + vpn / 2 else
          if vpn < 224 then epta + 384 + vpn / 2 else if vpn < 256 then upta + 256 + (vpn - 224) / 2 else epta + 128 + (vpn - 256) / 2;
        var w: int := if a < 16 then acs[acCur * 16 + a] else M[a];
        Pte(s, vpn) == if vpn % 2 == 0 then w / 0x4_0000 else w % 0x4_0000
    {
      hide Half;
      InHalf(At(PtePlace(s, vpn)), vpn);
    }

    /** The entry in use. */
    function Entry(s: Space, vpn: nat): int
      requires Shape() && vpn < 512
      reads this`acCur, this`acPrv, this`epta, this`upta, eptbl, uptbl
    {
      match s
      case User => uptbl[vpn]
      case Exec => eptbl[vpn]
      case Phys => Identity(vpn)
    }

    /** An entry that is filled is what a fill would give now. */
    ghost predicate UpToDate(s: Space, vpn: nat)
      requires Shape() && vpn < 512
      reads this`acCur, this`acPrv, this`epta, this`upta, M, acs, eptbl, uptbl
    {
      s != Phys && Entry(s, vpn) != 0 ==> Accessible(Pte(s, vpn)) && Entry(s, vpn) == Expand(Pte(s, vpn))
    }

    ghost predicate Valid()
      reads this, M, acs, eptbl, uptbl
    {
      && Shape() && Derived()
      && forall s, vpn :: 0 <= vpn < 512 && vpn !in stale ==> UpToDate(s, vpn)
    }

    // -------------------------------------------------------------- the tables walked each time

    /** Where an address leads by the page tables alone. */
    function Walk(ea: nat, prv: bool, write: bool): (p: Option<Place>)
      requires Shape() && ea < W18
      reads this, M, acs
      ensures p.Some? ==> Exists(p.value)
    {
      var s := if prv then ptblPrv else ptblCur;
      if ea < 16 then Some(Ac((if prv then acPrv else acCur) * 16 + ea))
      else if s == Phys then Some(Mem(ea))
      else
        var pte := Pte(s, ea / PAGE);
        if Grants(pte, write) then Some(Mem(PageOf(pte) * PAGE + ea % PAGE)) else None
    }

    lemma {:induction false} WalkInWords(ea: nat, prv: bool, write: bool)
      requires Shape() && 16 <= ea < W18 && (if prv then ptblPrv else ptblCur) != Phys
      ensures
        var v, user := ea / 512, (if prv then ptblPrv else ptblCur) == User;
        var a := if user then upta + v / 2 else
          if v < 224 then epta + 384 + v / 2 else if v < 256 then upta + 256 + (v - 224) / 2 else epta + 128 + (v - 256) / 2;
        var w: int := if a < 16 then acs[acCur * 16 + a] else M[a];
        var pte := if v % 2 == 0 then w / 0x4_0000 else w % 0x4_0000;
        Walk(ea, prv, write) ==
          if pte / 0x2_0000 % 2 == 0 || (write && pte / 0x8000 % 2 == 0) then None else Some(Mem(pte % 2048 * 512 + ea % 512))
    {
      hide Half, Expand, Accessible, Writeable, PteAddress, PlaceOf, At;
      var s := if prv then ptblPrv else ptblCur;
      PteInWords(s, ea / PAGE);
      EntryBits(Pte(s, ea / PAGE));
      hide Pte;
    }

    // -------------------------------------------------------------- references

    /** The TOPS-10 arm of ptbl_fill. Without access it gives 0, and a page fail unless the
        MAP instruction asks. */
    method Fill(ea: nat, s: Space, write: bool, map_: bool) returns (xpte: int, failed: bool)
      requires Valid() && ea < W18 && s != Phys
      modifies eptbl, uptbl
      ensures Valid()
      ensures xpte == if Grants(Pte(s, ea / PAGE), write) then Expand(Pte(s, ea / PAGE)) else 0
      ensures
        var v := ea / 512;
        var a := if s == User then upta + v / 2 else
          if v < 224 then epta + 384 + v / 2 else if v < 256 then upta + 256 + (v - 224) / 2 else epta + 128 + (v - 256) / 2;
        var w: int := if a < 16 then acs[acCur * 16 + a] else M[a];
        var pte := if v % 2 == 0 then w / 0x4_0000 else w % 0x4_0000;
        xpte == if pte / 0x2_0000 % 2 == 0 || (write && pte / 0x8000 % 2 == 0) then 0
          else pte % 2048 * 512 + (if pte / 0x8000 % 2 == 1 then 0x4000_0000 - 0x8000_0000 else 0x4000_0000)
      ensures failed <==> xpte == 0 && !map_
      ensures Entry(s, ea / PAGE) == if xpte == 0 then old(Entry(s, ea / PAGE)) else xpte
      ensures forall s', v :: 0 <= v < 512 && (s' != s || v != ea / PAGE) ==> Entry(s', v) == old(Entry(s', v))
    {
      hide Accessible, Writeable, Expand, Half, PageOf, PteAddress, PlaceOf, At;
      var vpn := ea / PAGE;
      var pte := Half(At(PtePlace(s, vpn)), vpn);
      PteInWords(s, vpn);
      EntryBits(pte);
      if Accessible(pte) && (!write || Writeable(pte)) {
        xpte := Expand(pte);
        if s == User {
          uptbl[vpn] := xpte;
        } else {
          eptbl[vpn] := xpte;
        }
        forall s', vpn' | 0 <= vpn' < 512 && vpn' !in stale ensures UpToDate(s', vpn') {
          assert old(UpToDate(s', vpn')) && Pte(s', vpn') == old(Pte(s', vpn'));
        }
        return xpte, false;
      }
      return 0, !map_;
    }

    /** What a reference may make of an entry: that of its own page is filled. */
    ghost function FillOf(s: Space, vpn: nat, ea: nat, prv: bool): int
      requires Shape() && vpn < 512
      reads this, M, acs, eptbl, uptbl
    {
      if s == (if prv then ptblPrv else ptblCur) && s != Phys && vpn == ea / PAGE && ea >= 16 then Expand(Pte(s, vpn))
      else Entry(s, vpn)
    }

    /** The common part of Read, ReadM and Write: the physical address, or a page fail. The
        entry in use is enough for a read when it is not 0, for a write when it is negative. */
    method Access(ea: nat, prv: bool, write: bool) returns (pa: nat, failed: bool)
      requires Valid() && 16 <= ea < W18
      modifies eptbl, uptbl
      ensures Valid() && pa < MEMSIZE
      ensures ea / PAGE !in stale || (if prv then ptblPrv else ptblCur) == Phys ==>
        (failed <==> Walk(ea, prv, write) == None) && (!failed ==> Walk(ea, prv, write) == Some(Mem(pa)))
      ensures old(Ready(ea, prv, write)) ==> !failed
      ensures forall s, v :: 0 <= v < 512 ==> Entry(s, v) == old(Entry(s, v)) || Entry(s, v) == old(FillOf(s, v, ea, prv))
    {
      hide Accessible, Writeable, Expand, Translate, Half, PageOf, PteAddress, PlaceOf, At, Identity;
      var vpn, s := ea / PAGE, if prv then ptblPrv else ptblCur;
      var xpte := Entry(s, vpn);
      TranslateIdentity(ea);
      TranslateExpanded(Pte(s, vpn), ea);
      failed := false;
      assert vpn !in stale ==> UpToDate(s, vpn);
      if (if write then xpte >= 0 else xpte == 0) {
        xpte, failed := Fill(ea, s, write, false);
      }
      pa := Translate(xpte, ea);
    }

    /** Read: current or previous context. */
    method Read(ea: nat, prv: bool) returns (val: word, failed: bool)
      requires Valid() && ea < W18
      modifies eptbl, uptbl
      ensures Valid()
      ensures Certain(ea, prv) ==> (failed <==> Walk(ea, prv, false) == None)
      ensures Certain(ea, prv) && !failed ==> val == At(Walk(ea, prv, false).value)
      ensures ea < 16 || (if prv then ptblPrv else ptblCur) == Phys ==>
        !failed && val == if ea < 16 then acs[(if prv then acPrv else acCur) * 16 + ea] else M[ea]
      ensures 16 <= ea && ea / 512 !in stale && (if prv then ptblPrv else ptblCur) != Phys ==>
        var v, user := ea / 512, (if prv then ptblPrv else ptblCur) == User;
        var a := if user then upta + v / 2 else
          if v < 224 then epta + 384 + v / 2 else if v < 256 then upta + 256 + (v - 224) / 2 else epta + 128 + (v - 256) / 2;
        var w: int := if a < 16 then acs[acCur * 16 + a] else M[a];
        var pte := if v % 2 == 0 then w / 0x4_0000 else w % 0x4_0000;
        (failed <==> pte / 0x2_0000 % 2 == 0) && (!failed ==> val == M[pte % 2048 * 512 + ea % 512])
      ensures old(Ready(ea, prv, false)) ==> !failed
      ensures forall s, v :: 0 <= v < 512 ==> Entry(s, v) == old(Entry(s, v)) || Entry(s, v) == old(FillOf(s, v, ea, prv))
    {
      hide Half, Expand, Accessible, Writeable, PteAddress, Pte, Grants, PageOf, UpToDate, FillOf;
      if ea < 16 {
        return acs[(if prv then acPrv else acCur) * 16 + ea], false;
      }
      if (if prv then ptblPrv else ptblCur) != Phys {
        WalkInWords(ea, prv, false);
      }
      var pa;
      pa, failed := Access(ea, prv, false);
      return M[pa], failed;
    }

    /** ReadM: like Read, but with a write check. */
    method ReadM(ea: nat, prv: bool) returns (val: word, failed: bool)
      requires Valid() && ea < W18
      modifies eptbl, uptbl
      ensures Valid()
      ensures Certain(ea, prv) ==> (failed <==> Walk(ea, prv, true) == None)
      ensures Certain(ea, prv) && !failed ==> val == At(Walk(ea, prv, true).value)
      ensures old(Ready(ea, prv, true)) ==> !failed
      ensures forall s, v :: 0 <= v < 512 ==> Entry(s, v) == old(Entry(s, v)) || Entry(s, v) == old(FillOf(s, v, ea, prv))
    {
      if ea < 16 {
        return acs[(if prv then acPrv else acCur) * 16 + ea], false;
      }
      var pa;
      pa, failed := Access(ea, prv, true);
      return M[pa], failed;
    }

    /** The pages with an entry in the word at `p`. */
    ghost function Affected(p: Place): set<nat>
      requires Shape()
      reads this`acCur, this`acPrv, this`epta, this`upta
    {
      set vpn: nat | vpn < 512 && (PtePlace(User, vpn) == p || PtePlace(Exec, vpn) == p)
    }

    /** A reference that is not to a page with an entry out of date. */
    ghost predicate Certain(ea: nat, prv: bool)
      reads this
    {
      ea < 16 || ea / PAGE !in stale || (if prv then ptblPrv else ptblCur) == Phys
    }

    /** A word is stored; the entries in it are no longer certain. */
    method Store(p: Place, val: word)
      requires Valid() && Exists(p)
      modifies this`stale, M, acs
      ensures Valid() && stale == old(stale) + Affected(p)
      ensures At(p) == val && forall q :: q != p && Exists(q) ==> At(q) == old(At(q))
    {
      hide PteAddress, PlaceOf, Half, Accessible, Expand;
      ghost var affected := Affected(p);
      match p {
        case Ac(i) => acs[i] := val;
        case Mem(pa) => M[pa] := val;
      }
      stale := stale + affected;
      forall s, vpn | 0 <= vpn < 512 && vpn !in stale ensures UpToDate(s, vpn) {
        assert old(UpToDate(s, vpn));
        assert s == Phys || PtePlace(s, vpn) != p;
      }
    }

    /** Write: nothing changes but the one word, and nothing at all after a page fail. */
    method Write(ea: nat, val: word, prv: bool) returns (failed: bool, ghost p: Place)
      requires Valid() && ea < W18
      modifies this`stale, M, acs, eptbl, uptbl
      ensures Valid()
      ensures old(Certain(ea, prv)) ==> old(Walk(ea, prv, true)) == if failed then None else Some(p)
      ensures old(Ready(ea, prv, true)) ==> !failed
      ensures failed ==> stale == old(stale) && M[..] == old(M[..]) && acs[..] == old(acs[..])
      ensures !failed ==> Exists(p) && At(p) == val && stale == old(stale) + Affected(p)
      ensures !failed ==> forall q :: q != p && Exists(q) ==> At(q) == old(At(q))
      ensures !failed ==> forall v :: 0 <= v < 512 ==>
        (v in stale <==> v in old(stale) || PtePlace(User, v) == p || PtePlace(Exec, v) == p)
    {
      if ea < 16 {
        p := Ac((if prv then acPrv else acCur) * 16 + ea);
        Store(Ac((if prv then acPrv else acCur) * 16 + ea), val);
        return false, p;
      }
      var pa;
      pa, failed := Access(ea, prv, true);
      p := Mem(pa);
      if !failed {
        Store(Mem(pa), val);
      }
    }

    /** The entry in use is enough for the reference. */
    ghost predicate Ready(ea: nat, prv: bool, write: bool)
      requires Shape() && ea < W18
      reads this`acCur, this`acPrv, this`epta, this`upta, this`ptblCur, this`ptblPrv, eptbl, uptbl
    {
      ea < 16 ||
      var xpte := Entry(if prv then ptblPrv else ptblCur, ea / PAGE);
      if write then xpte < 0 else xpte != 0
    }

    /** AccViol: whether a reference would fail. If not, the entry is there for the one that follows. */
    method AccViol(ea: nat, prv: bool, write: bool) returns (bad: bool)
      requires Valid() && ea < W18
      modifies eptbl, uptbl
      ensures Valid()
      ensures !bad ==> Ready(ea, prv, write)
      ensures Certain(ea, prv) ==> (bad <==> Walk(ea, prv, write) == None)
    {
      if ea < 16 {
        return false;
      }
      hide Accessible, Writeable, Expand, Half, PageOf, PteAddress, PlaceOf, At, Identity;
      var vpn, s := ea / PAGE, if prv then ptblPrv else ptblCur;
      var xpte := Entry(s, vpn);
      assert vpn !in stale ==> UpToDate(s, vpn);
      if xpte == 0 || (write && xpte > 0) {
        var failed;
        xpte, failed := Fill(ea, s, write, true);
      }
      return xpte == 0;
    }

    // -------------------------------------------------------------- pager instructions

    /** CLRPT makes the entries of a page certain again. */
    method Clrpt(ea: nat)
      requires Valid() && ea < W18
      modifies this`stale, eptbl, uptbl
      ensures Valid() && stale == old(stale) - {ea / PAGE}
    {
      hide PteAddress, PlaceOf, Half, Accessible, Expand, At;
      var vpn := ea / PAGE;
      uptbl[vpn] := 0;
      eptbl[vpn] := 0;
      stale := stale - {vpn};
      forall s, vpn' | 0 <= vpn' < 512 && vpn' !in stale ensures UpToDate(s, vpn') {
        assert vpn' != vpn ==> old(UpToDate(s, vpn'));
      }
    }

    /** pag_reset */
    method Reset()
      requires Shape()
      modifies this`stale, eptbl, uptbl
      ensures stale == {} && forall vpn :: 0 <= vpn < 512 ==> uptbl[vpn] == 0 && eptbl[vpn] == 0
    {
      for i := 0 to 512
        invariant forall vpn :: 0 <= vpn < i ==> uptbl[vpn] == 0 && eptbl[vpn] == 0
      {
        uptbl[i] := 0;
        eptbl[i] := 0;
      }
      stale := {};
    }

    /** set_dyn_ptrs */
    method SetDynPtrs()
      requires acBlocks < 64 && ebrPage < 2048 && ubrPage < 2048
      modifies this`acCur, this`acPrv, this`ptblCur, this`ptblPrv, this`epta, this`upta
      ensures Derived()
      ensures paging ==> acCur * 8 + acPrv == acBlocks && acPrv < 8
      ensures paging && user ==> ptblCur == ptblPrv == User
      ensures paging && !user ==> ptblCur == Exec && ptblPrv == if uio then User else Exec
      ensures !paging ==> acCur == acPrv == 0 && ptblCur == ptblPrv == Phys
      ensures epta == 512 * ebrPage && upta == 512 * ubrPage
    {
      if paging {
        acCur, acPrv := acBlocks / 8, acBlocks % 8;
        if user {
          ptblCur, ptblPrv := User, User;
        } else {
          ptblCur, ptblPrv := Exec, if uio then User else Exec;
        }
      } else {
        acCur, acPrv, ptblCur, ptblPrv := 0, 0, Phys, Phys;
      }
      epta, upta := ebrPage * PAGE, ubrPage * PAGE;
    }

    /** WREBR, for an address that does not select TOPS-20 paging. */
    method Wrebr(ea: nat)
      requires Valid() && ea < W18 && ea / 0x4000 % 2 == 0
      modifies this`paging, this`ebrPage, this`stale, eptbl, uptbl
      modifies this`acCur, this`acPrv, this`ptblCur, this`ptblPrv, this`epta, this`upta
      ensures Valid() && stale == {} && paging == (ea / 0x2000 % 2 == 1) && ebrPage == ea % 2048
    {
      paging, ebrPage := ea / 0x2000 % 2 == 1, ea % 2048;
      Reset();
      SetDynPtrs();
    }

    /** The pages that have their entry in an AC. */
    ghost function InAcs(): set<nat>
      requires Shape()
      reads this`acCur, this`acPrv, this`epta, this`upta
    {
      set vpn: nat | vpn < 512 && (PteAddress(User, vpn) < 16 || PteAddress(Exec, vpn) < 16)
    }

    /** There are such pages exactly when the user process table is in page 0. */
    lemma {:induction false} EntriesInAcs()
      requires Shape() && Derived()
      ensures InAcs() == {} <==> ubrPage != 0
    {
      if ubrPage == 0 {
        assert 0 in InAcs();
      }
    }

    /** An entry that a change of the AC blocks leaves up to date: it is empty, its table entry is not
        in an AC, or the AC of the new block has the same. */
    ghost predicate Survives(s: Space, vpn: nat)
      requires Shape() && vpn < 512
      reads this, acs, eptbl, uptbl
    {
      s == Phys || Entry(s, vpn) == 0 || PteAddress(s, vpn) >= 16 ||
      var pte := Half(acs[acCur * 16 + PteAddress(s, vpn)], vpn);
      Accessible(pte) && Entry(s, vpn) == Expand(pte)
    }

    lemma {:induction false} InAc(s: Space, vpn: nat)
      requires Shape() && vpn < 512
      ensures s != Phys && PteAddress(s, vpn) < 16 ==> (UpToDate(s, vpn) <==> Survives(s, vpn))
      ensures s == Phys || PteAddress(s, vpn) >= 16 ==> Survives(s, vpn)
      ensures s == Phys ==> UpToDate(s, vpn)
    {
      hide Half, Accessible, Expand, PteAddress;
    }

    method SetBlocks(blocks: nat)
      requires Valid() && blocks < 64
      modifies this`acBlocks
      modifies this`acCur, this`acPrv, this`ptblCur, this`ptblPrv, this`epta, this`upta
      ensures Shape() && Derived() && acBlocks == blocks && epta == old(epta) && upta == old(upta)
      ensures forall s, vpn :: 0 <= vpn < 512 ==> PteAddress(s, vpn) == old(PteAddress(s, vpn))
    {
      acBlocks := blocks;
      SetDynPtrs();
    }

    /** set_dyn_ptrs after a change of the AC blocks alone. */
    method NewBlocks(blocks: nat)
      requires Valid() && blocks < 64
      modifies this`acBlocks, this`stale
      modifies this`acCur, this`acPrv, this`ptblCur, this`ptblPrv, this`epta, this`upta
      ensures Valid() && acBlocks == blocks
      ensures stale == if acCur == old(acCur) then old(stale) else old(stale) + old(InAcs())
      ensures old(stale) == {} ==> forall s, vpn :: 0 <= vpn < 512 ==> (UpToDate(s, vpn) <==> acCur == old(acCur) || Survives(s, vpn))
    {
      hide Half, Accessible, Expand, PteAddress, Survives;
      ghost var kept, cur := InAcs(), acCur;
      SetBlocks(blocks);
      stale := if acCur == cur then stale else stale + kept;
      forall s, vpn | 0 <= vpn < 512
        ensures vpn !in stale ==> UpToDate(s, vpn)
        ensures old(stale) == {} ==> (UpToDate(s, vpn) <==> acCur == cur || Survives(s, vpn))
      {
        InAc(s, vpn);
        assert vpn !in old(stale) ==> old(UpToDate(s, vpn));
        assert s == Phys || PteAddress(s, vpn) >= 16 || vpn in kept;
        assert PteAddress(s, vpn) >= 16 || acCur == cur ==> PtePlace(s, vpn) == old(PtePlace(s, vpn));
      }
    }

    /** A run in which new AC blocks outdate an entry. The first page of the user is entered from AC 0
        of block 0, which grants it; AC 0 of block 1 denies it. After the change a read would still
        go through the entry in use, where walking the tables page-fails. */
    method Outdate()
      requires Valid() && stale == {} && paging && user && ubrPage == 0 && acBlocks == 0
      requires acs[0] == 0x2_0000 * W18 && acs[16] == 0
      modifies this`acBlocks, this`stale, eptbl, uptbl
      modifies this`acCur, this`acPrv, this`ptblCur, this`ptblPrv, this`epta, this`upta
      ensures Valid() && acBlocks == 8 && !UpToDate(User, 0)
      ensures Walk(16, false, false) == None && Ready(16, false, false)
    {
      assert PtePlace(User, 0) == Ac(0) && Half(acs[0], 0) == 0x2_0000;
      var bad := AccViol(16, false, false);
      assert !bad && UpToDate(User, 0);
      NewBlocks(8);
      assert PtePlace(User, 0) == Ac(16);
    }

    /** set_dyn_ptrs after a change of the user process table. */
    method NewTable(blocks: nat, page: nat)
      requires Valid() && blocks < 64 && page < 2048
      modifies this`acBlocks, this`ubrPage, this`stale, eptbl, uptbl
      modifies this`acCur, this`acPrv, this`ptblCur, this`ptblPrv, this`epta, this`upta
      ensures Valid() && acBlocks == blocks && ubrPage == page && stale == {}
      ensures forall vpn :: 0 <= vpn < 512 ==> uptbl[vpn] == 0 && eptbl[vpn] == 0
    {
      acBlocks, ubrPage := blocks, page;
      Reset();
      SetDynPtrs();
    }

    /** WRUBR, for the word `val` at the address. A new user process table clears the tables; new
        AC blocks alone do not, and leave the entries that are in ACs uncertain. */
    method Wrubr(ea: nat, prv: bool) returns (failed: bool, val: word)
      requires Valid() && ea < W18
      modifies this`acBlocks, this`ubrPage, this`stale, eptbl, uptbl
      modifies this`acCur, this`acPrv, this`ptblCur, this`ptblPrv, this`epta, this`upta
      ensures Valid()
      ensures old(Certain(ea, prv)) ==> (failed <==> old(Walk(ea, prv, false)) == None)
      ensures old(Certain(ea, prv)) && !failed ==> val == old(At(Walk(ea, prv, false).value))
      ensures failed ==> stale == old(stale) && acBlocks == old(acBlocks) && ubrPage == old(ubrPage)
      ensures !failed ==> acBlocks == if val / W35 == 1 then val / 0x100_0000 % 64 else old(acBlocks)
      ensures !failed ==> ubrPage == if val / 0x2_0000_0000 % 2 == 1 then val % 2048 else old(ubrPage)
      ensures !failed && val / 0x2_0000_0000 % 2 == 1 ==>
        stale == {} && forall vpn :: 0 <= vpn < 512 ==> uptbl[vpn] == 0 && eptbl[vpn] == 0
      ensures !failed && val / 0x2_0000_0000 % 2 == 0 ==>
        stale == if acCur == old(acCur) then old(stale) else old(stale) + old(InAcs())
      ensures !failed && val / 0x2_0000_0000 % 2 == 0 && old(stale) == {} ==>
        forall s, vpn :: 0 <= vpn < 512 ==> (UpToDate(s, vpn) <==> acCur == old(acCur) || Survives(s, vpn))
      ensures failed || val / 0x2_0000_0000 % 2 == 0 ==>
        forall s, vpn :: 0 <= vpn < 512 ==> Entry(s, vpn) == old(Entry(s, vpn)) || Entry(s, vpn) == old(FillOf(s, vpn, ea, prv))
    {
      val, failed := Read(ea, prv);
      if failed {
        return;
      }
      var blocks := if val / W35 == 1 then val / 0x100_0000 % 64 else acBlocks;
      if val / 0x2_0000_0000 % 2 == 1 {
        NewTable(blocks, val % 2048);
      } else {
        NewBlocks(blocks);
      }
    }

    /** A change of the user mode and previous context flags, and set_dyn_ptrs. */
    method SetMode(user: bool, uio: bool)
      requires Valid()
      modifies this`user, this`uio
      modifies this`acCur, this`acPrv, this`ptblCur, this`ptblPrv, this`epta, this`upta
      ensures Valid() && this.user == user && this.uio == uio
    {
      hide PteAddress, PlaceOf, Half, Accessible, Expand, At;
      this.user, this.uio := user, uio;
      SetDynPtrs();
      forall s, vpn | 0 <= vpn < 512 && vpn !in stale ensures UpToDate(s, vpn) {
        assert old(UpToDate(s, vpn));
      }
    }
  }

  /** The run from power-on: the word with the entry of the first page is put into its AC, paging is
      turned on, and the user's program is entered. */
  method OutdateFromReset(M: array<word>, acs: array<word>) returns (p: Pager)
    requires M.Length == MEMSIZE && acs.Length == 128 && M != acs
    modifies M, acs
    ensures p.Valid() && !p.UpToDate(User, 0)
    ensures p.Walk(16, false, false) == None && p.Ready(16, false, false)
  {
    p := new Pager(M, acs);
    hide Pager.UpToDate;
    p.Store(Ac(0), 0x2_0000 * W18);
    p.Store(Ac(16), 0);
    assert p.At(Ac(0)) == 0x2_0000 * W18 && p.At(Ac(16)) == 0;
    p.Wrebr(0x2000);
    p.SetMode(true, false);
    p.Outdate();
  }
}
