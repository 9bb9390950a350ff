/**
 setupPageTables: the kernel's direct map.  The loop makes `kernbase + x` translate to
 `x`; the four words written after it map the boot tables themselves into the last table.
 */
module BootMap {
  import opened PageModel
  import opened Address
  import EB = EntryBits
  import FL = FrameList

  const KERNBASE: nat := 0xFFFF_FFFF_8000_0000

  /** The word `(p & validatebits) | 3`. */
  function KernelWord(f: Frame): Entry {
    Entry(f, true, true, false, false)
  }

  lemma KernelWordBits(p: bv64)
    ensures var w := (p & EB.VALIDATE_BITS) | 3;
      w >> 12 == p >> 12 && w & 1 != 0 && w & 2 != 0 && w & 4 == 0 && w & 512 == 0
  {
  }

  /** The word stored decodes to the frame, present and writable, for the kernel alone. */
  lemma KernelWordDecodes(p: bv64)
    ensures EB.Decode((p & EB.VALIDATE_BITS) | 3) == KernelWord(EB.FrameNumber(EB.FrameBits(p)))
  {
    hide EB.FrameNumber;
    KernelWordBits(p);
  }

  /** Frames at boot: 512 words each, whatever they hold. */
  type Memory = m: seq<Words> | forall f :: 0 <= f < |m| ==> |m[f]| == 512

  function Lookup(m: Memory, f: Frame, i: Index): Option<Entry> {
    if f < |m| && m[f][i].present then Some(m[f][i]) else None
  }

  /** The MMU's walk over boot memory. */
  function Translate(m: Memory, root: Frame, v: VPage): Option<Frame> {
    match Lookup(m, root, v.i4)
    case None => None
    case Some(e3) =>
      match Lookup(m, e3.frame, v.i3)
      case None => None
      case Some(e2) =>
        match Lookup(m, e2.frame, v.i2)
        case None => None
        case Some(e1) =>
          match Lookup(m, e1.frame, v.i1)
          case None => None
          case Some(e) => Some(e.frame)
  }

  /** The walk reads no other table than those in `used`. */
  predicate Inside(m: Memory, used: seq<Frame>, root: Frame, v: VPage) {
    && root in used
    && match Lookup(m, root, v.i4)
       case None => true
       case Some(e3) =>
         && e3.frame in used
         && match Lookup(m, e3.frame, v.i3)
            case None => true
            case Some(e2) =>
              && e2.frame in used
              && match Lookup(m, e2.frame, v.i2)
                 case None => true
                 case Some(e1) => e1.frame in used
  }

  /** Page `p` of the kernel's part of memory translates to frame `f`, through tables in `used`. */
  predicate MapsTo(m: Memory, used: seq<Frame>, root: Frame, p: nat, f: Frame) {
    var v := PageOf(KERNBASE + p * 0x1000);
    Translate(m, root, v) == Some(f) && Inside(m, used, root, v)
  }

  predicate Unmapped(m: Memory, root: Frame, p: nat) {
    Translate(m, root, PageOf(KERNBASE + p * 0x1000)) == None
  }

  /** Page `n` of the direct map. */
  lemma KernelPage(n: nat)
    requires n < 0x4_0000
    ensures PageOf(KERNBASE + n * 0x1000) == VPage(511, 510, n / 512, n % 512)
  {
    var p := VPage(511, 510, n / 512, n % 512);
    var high := 0xFFFF * 0x1_0000_0000_0000;
    assert KERNBASE + n * 0x1000 == high + AddressOf(p, 0);
    PartsOfAddress(p, 0);
    HighBits(AddressOf(p, 0));
  }

  /** A multiple of 512 * d does not show in the index taken above d. */
  lemma IndexIgnores(v: nat, d: nat, h: nat)
    requires d > 0
    ensures (h * (512 * d) + v) / d % 512 == v / d % 512
  {
    var q, r := v / d, v % d;
    assert h * (512 * d) + v == (h * 512 + q) * d + r;
    QuotientIs(h * (512 * d) + v, d, h * 512 + q, r);
    QuotientIs(h * 512 + q, 512, h + q / 512, q % 512);
  }

  lemma KernelIndex(n: nat)
    requires n < 0x4_0000
    ensures (KERNBASE + n * 0x1000) / 0x1000 % 512 == n % 512
    ensures (KERNBASE + n * 0x1000) / 0x20_0000 % 512 == n / 512
  {
    KernelPage(n);
  }

  lemma UpperIndex(n: nat)
    requires n < 0x4_0000
    ensures (KERNBASE + n * 0x1000) / 0x80_0000_0000 % 512 == 511
    ensures (KERNBASE + n * 0x1000) / 0x4000_0000 % 512 == 510
  {
    KernelPage(n);
  }

  /** The walk ignores bits 48 to 63. */
  lemma HighBits(v: nat)
    ensures PageOf(0xFFFF * 0x1_0000_0000_0000 + v) == PageOf(v)
  {
    IndexIgnores(v, 0x80_0000_0000, 0xFFFF);
    IndexIgnores(v, 0x4000_0000, 0xFFFF * 512);
    IndexIgnores(v, 0x20_0000, 0xFFFF * 512 * 512);
    IndexIgnores(v, 0x1000, 0xFFFF * 512 * 512 * 512);
  }

  /** The three upper tables and the last-level tables `pts` are distinct and linked. */
  ghost predicate Skeleton(m: Memory, root: Frame, pdpte: Frame, pde: Frame, pts: seq<Frame>) {
    && 0 < |pts| <= 512
    && root < |m| && pdpte < |m| && pde < |m|
    && root != pdpte && root != pde && pdpte != pde
    && (forall i :: 0 <= i < |pts| ==> pts[i] < |m| && pts[i] != root && pts[i] != pdpte && pts[i] != pde)
    && (forall i, j :: 0 <= i < j < |pts| ==> pts[i] != pts[j])
    && m[root][511] == KernelWord(pdpte) && m[pdpte][510] == KernelWord(pde)
    && (forall i :: 0 <= i < |pts| ==> m[pde][i] == KernelWord(pts[i]))
  }

  predicate PageAt(m: Memory, pts: seq<Frame>, p: nat) {
    p / 512 < |pts| && pts[p / 512] < |m| && m[pts[p / 512]][p % 512] == KernelWord(p)
  }

  /** Where the tables stand after `n` pages: `pts` are the last-level tables in use. */
  ghost predicate MapsFirst(m: Memory, root: Frame, pdpte: Frame, pde: Frame, pts: seq<Frame>, n: nat) {
    && Skeleton(m, root, pdpte, pde, pts)
    && |pts| == LastTable(n) + 1
    && (forall p: nat :: p < n ==> PageAt(m, pts, p))
  }

  /** Pages of 4096 bytes, the last perhaps partial. */
  function PagesIn(bytes: nat): nat {
    (bytes + 0xFFF) / 0x1000
  }

  lemma PagesInMeans(bytes: nat)
    ensures bytes <= PagesIn(bytes) * 4096 < bytes + 4096
  {
  }

  /** The index of the table that holds the last of `n` pages. */
  function LastTable(n: nat): nat {
    if n == 0 then 0 else (n - 1) / 512
  }

  /** Reading a last-level word through the walk. */
  lemma TranslateThrough(m: Memory, used: seq<Frame>, root: Frame, pdpte: Frame, pde: Frame, pts: seq<Frame>, q: nat)
    requires q < 0x4_0000 && q / 512 < |pts| && |pts| <= 512
    requires root < |m| && pdpte < |m| && pde < |m| && pts[q / 512] < |m|
    requires root in used && pdpte in used && pde in used && pts[q / 512] in used
    requires m[root][511] == KernelWord(pdpte) && m[pdpte][510] == KernelWord(pde)
    requires m[pde][q / 512] == KernelWord(pts[q / 512])
    ensures var e := m[pts[q / 512]][q % 512];
            && Translate(m, root, PageOf(KERNBASE + q * 0x1000)) == (if e.present then Some(e.frame) else None)
            && Inside(m, used, root, PageOf(KERNBASE + q * 0x1000))
  {
    hide PageOf;
    KernelPage(q);
  }

  class BootTables {
    const frames: FL.FrameList
    var mem: Memory

    constructor (fl: FL.FrameList, memory: Memory)
      ensures frames == fl && mem == memory
    {
      frames, mem := fl, memory;
    }

    ghost predicate Valid()
      reads this, frames, frames.pagelist
    {
      frames.Valid() && frames.pagelist.Length == |mem|
    }

    method Write(f: Frame, i: Index, e: Entry)
      requires f < |mem|
      modifies this`mem
      ensures mem == old(mem)[f := old(mem)[f][i := e]]
    {
      mem := mem[f := mem[f][i := e]];
    }

    /** The loop over physical memory, one page at a time from address 0. */
    method MapAll(root: Frame, pdpte: Frame, pde: Frame, pte0: Frame, physfree: nat)
      returns (ok: bool, pte: Frame, ghost pts: seq<Frame>)
      requires Valid() && PagesIn(physfree) <= 0x4_0000 && MapsFirst(mem, root, pdpte, pde, [pte0], 0)
      requires {root, pdpte, pde, pte0} <= set f | f in frames.given
      modifies this`mem, frames, frames.pagelist
      ensures Valid() && (!ok ==> frames.free == [])
      ensures frames.given + frames.free == old(frames.given + frames.free)
      ensures ok ==> MapsFirst(mem, root, pdpte, pde, pts, PagesIn(physfree)) && |pts| > 0 && pte == pts[|pts| - 1]
      ensures ok ==> root in frames.given && pdpte in frames.given && pde in frames.given && pte in frames.given
      ensures ok ==> forall i :: 0 <= i < |pts| ==> pts[i] in frames.given
      ensures ok ==> mem[pdpte] == old(mem)[pdpte]
    {
      hide FL.Linked, FL.NoDup, FL.Counted, MapsFirst, PageOf;
      TablesOf(mem, root, pdpte, pde, [pte0], 0);
      pts, pte, ok := [pte0], pte0, true;
      var virtual, physbase := KERNBASE, 0;
      ghost var n := 0;
      while physbase < physfree
        invariant Valid() && ok && n <= PagesIn(physfree) && virtual == KERNBASE + n * 0x1000 && physbase == n * 0x1000
        invariant MapsFirst(mem, root, pdpte, pde, pts, n) && |pts| > 0 && pte == pts[|pts| - 1]
        invariant frames.given + frames.free == old(frames.given + frames.free)
        invariant root in frames.given && pdpte in frames.given && pde in frames.given
        invariant forall i :: 0 <= i < |pts| ==> pts[i] in frames.given
        invariant pdpte < |mem| == |old(mem)| && mem[pdpte] == old(mem)[pdpte]
        decreases PagesIn(physfree) - n
      {
        assert n < 0x4_0000;
        KernelIndex(n);
        TablesOf(mem, root, pdpte, pde, pts, n);
        var slot := virtual / 0x1000 % 512;
        assert slot == n % 512;
        if slot == 0 {
          ok, pte := frames.GetFreeFrame();
          if !ok { return; }
          var i := virtual / 0x20_0000 % 512;
          assert i == n / 512;
          NewTable(mem, root, pdpte, pde, pts, n, pte);
          Write(pde, i, KernelWord(pte));
          pts := pts[..n / 512] + [pte];
        } else {
          NextSlot(mem, root, pdpte, pde, pts, n);
        }
        Write(pte, slot, KernelWord(physbase / 0x1000));
        virtual, physbase, n := virtual + 0x1000, physbase + 0x1000, n + 1;
      }
    }
  
    /** `pte[((virtual + num * pageSize) >> 12) & 511] = (physical & validatebits) | 3`. */
    method MapCurrentPageTable(pte: Frame, virtual: nat, num: nat, physical: Frame) returns (address: nat)
      requires pte < |mem|
      modifies this`mem
      ensures address == virtual + num * 0x1000
      ensures var i := address / 0x1000 % 512; mem == old(mem)[pte := old(mem)[pte][i := KernelWord(physical)]]
    {
      address := virtual + num * 0x1000;
      Write(pte, address / 0x1000 % 512, KernelWord(physical));
    }

    /** The four frames taken before the loop, linked from slot 511 down. */
    method FirstTables() returns (ok: bool, pml4e: Frame, pdpte: Frame, pde: Frame, pte: Frame)
      requires Valid()
      modifies this`mem, frames, frames.pagelist
      ensures Valid() && (!ok ==> frames.free == [])
      ensures frames.given + frames.free == old(frames.given + frames.free)
      ensures ok ==> MapsFirst(mem, pml4e, pdpte, pde, [pte], 0)
      ensures ok ==> {pml4e, pdpte, pde, pte} <= set f | f in frames.given
      ensures ok ==> |old(frames.free)| > 1 && pdpte == old(frames.free)[1]
      ensures ok ==> mem[pdpte][511] == old(mem)[pdpte][511]
    {
      hide FL.Linked, FL.NoDup, FL.Counted, MapsFirst;
      pdpte, pde, pte := 0, 0, 0;
      ok, pml4e := frames.GetFreeFrame();
      if !ok { return; }
      ok, pdpte := frames.GetFreeFrame();
      if !ok { return; }
      KernelIndices();
      Write(pml4e, KERNBASE / 0x80_0000_0000 % 512, KernelWord(pdpte));
      ok, pde := frames.GetFreeFrame();
      if !ok { return; }
      Write(pdpte, KERNBASE / 0x4000_0000 % 512, KernelWord(pde));
      ok, pte := frames.GetFreeFrame();
      if !ok { return; }
      Write(pde, KERNBASE / 0x20_0000 % 512, KernelWord(pte));
      FirstSkeleton(mem, pml4e, pdpte, pde, pte);
    }

    /** The four words after the loop, all in the last table. */
    method MapBootTables(pml4e: Frame, pdpte: Frame, pde: Frame, pte: Frame, virtual: nat, ghost n: nat)
      requires pte < |mem| && virtual == KERNBASE + n * 0x1000
      modifies this`mem
      ensures mem == old(mem)[pte := old(mem)[pte][(n + 1) % 512 := KernelWord(pml4e)]
                                                  [(n + 2) % 512 := KernelWord(pdpte)]
                                                  [(n + 3) % 512 := KernelWord(pde)][(n + 4) % 512 := KernelWord(pte)]]
    {
      SlotOf(n, 1);
      SlotOf(n, 2);
      SlotOf(n, 3);
      SlotOf(n, 4);
      var address := MapCurrentPageTable(pte, virtual, 1, pml4e);
      address := MapCurrentPageTable(pte, virtual, 2, pdpte);
      address := MapCurrentPageTable(pte, virtual, 3, pde);
      address := MapCurrentPageTable(pte, virtual, 4, pte);
    }

    /**
     The kernel's page tables over all memory below `physfree`.  A page of the direct map
     translates to itself unless one of the four words for the boot tables has taken its
     slot; FinalFrame says which.
     */
    method SetupPageTables(physfree: nat) returns (ok: bool, kcr3: Frame, ghost boot: seq<Frame>)
      requires Valid() && PagesIn(physfree) <= 0x4_0000
      modifies this`mem, frames, frames.pagelist
      ensures Valid() && (!ok ==> frames.free == [])
      ensures frames.given + frames.free == old(frames.given + frames.free)
      ensures ok ==> |boot| == 4 && boot[0] == kcr3 < |mem| && mem[kcr3][511] == KernelWord(boot[1])
      ensures ok ==> forall i :: 0 <= i < 4 ==> boot[i] in frames.given
      ensures ok ==> forall p: nat :: p < PagesIn(physfree) ==>
                MapsTo(mem, frames.given, boot[0], p, FinalFrame(PagesIn(physfree), boot, p))
      ensures ok ==> forall k :: 1 <= k <= 4 && ExtraFits(PagesIn(physfree), k) ==>
                MapsTo(mem, frames.given, boot[0], PagesIn(physfree) + k, boot[k - 1])
      ensures ok ==> |old(frames.free)| > 1 && boot[1] == old(frames.free)[1] < |mem| == |old(mem)|
      ensures ok ==> mem[boot[1]][511] == old(mem)[boot[1]][511]
    {
      hide FL.Linked, FL.NoDup, FL.Counted, MapsTo, MapsFirst, FinalFrame, ExtraFits;
      boot, kcr3 := [], 0;
      var pml4e, pdpte, pde, pte;
      ok, pml4e, pdpte, pde, pte := FirstTables();
      if !ok { return; }
      ghost var pts;
      ok, pte, pts := MapAll(pml4e, pdpte, pde, pte, physfree);
      if !ok { return; }
      ghost var n, m := PagesIn(physfree), mem;
      boot, kcr3 := [pml4e, pdpte, pde, pte], pml4e;
      TablesOf(mem, pml4e, pdpte, pde, pts, n);
      MapBootTables(pml4e, pdpte, pde, pte, KERNBASE + (physfree + 0xFFF) / 0x1000 * 0x1000, n);
      AfterExtras(m, mem, frames.given, boot, pts, n);
    }

    /**
     mapNewFrame for a frame of the direct map, whose tables are all there.  The test for
     the third-level one is made at slot 511, but the direct map has it in slot 510.
     */
    method MapNewFrame(pml4e: Frame, virtual: nat, physical: Frame) returns (ok: bool)
      requires Valid() && physical < 0x4_0000 && virtual == KERNBASE + physical * 0x1000
      requires MapsTo(mem, frames.given, pml4e, physical, physical)
      modifies this`mem, frames, frames.pagelist
      ensures Valid() && (!ok ==> frames.free == [])
      ensures frames.given + frames.free == old(frames.given + frames.free)
      ensures var pdpte := old(mem)[pml4e][511].frame;
        if old(mem)[pdpte][511].present then
          ok && frames.free == old(frames.free) && SameWalks(old(mem), mem)
        else
          ok ==> old(frames.free) != [] && Relinked(old(mem), mem, pml4e, old(frames.free)[0], physical)
    {
      hide FL.Linked, FL.NoDup, FL.Counted, PageOf, Relinked;
      ok := true;
      KernelPage(physical);
      UpperIndex(physical);
      KernelIndex(physical);
      var i4, i3 := virtual / 0x80_0000_0000 % 512, virtual / 0x4000_0000 % 512;
      var i2, i1 := virtual / 0x20_0000 % 512, virtual / 0x1000 % 512;
      var pdpte := mem[pml4e][i4].frame;
      ghost var m := mem;
      if !mem[pdpte][i4].present {
        var pdpe, pte;
        ok, pdpe := frames.GetFreeFrame();
        if !ok { return; }
        Write(pdpte, i3, KernelWord(pdpe));
        ok, pte := frames.GetFreeFrame();
        if !ok { return; }
        Write(pdpe, i2, KernelWord(pte));
        Write(pte, i1, KernelWord(physical));
        RelinkedBy(m, pml4e, pdpte, pdpe, pte, physical);
      } else {
        var pdpe := mem[pdpte][i3].frame;
        var pte := mem[pdpe][i2].frame;
        Write(pte, i1, KernelWord(physical));
      }
    }
  }

  /** No walk tells the two memories apart: present bits and frames are the same. */
  predicate SameWalks(m: Memory, m': Memory) {
    && |m| == |m'|
    && forall f, i :: 0 <= f < |m| && 0 <= i < 512 ==>
         m[f][i].present == m'[f][i].present && (m[f][i].present ==> m[f][i].frame == m'[f][i].frame)
  }

  lemma SameTranslation(m: Memory, m': Memory, root: Frame, v: VPage)
    requires SameWalks(m, m')
    ensures Translate(m, root, v) == Translate(m', root, v)
  {
  }

  /**
   The kernel's third-level table is now frame `g`, which nobody has cleared: page `f` is
   mapped, and of the others those for which the word left in `g` is absent are not.
   */
  predicate Relinked(m: Memory, m': Memory, root: Frame, g: Frame, f: Frame)
    requires f < 0x4_0000
  {
    && |m| == |m'| && root < |m| && g < |m|
    && Translate(m', root, PageOf(KERNBASE + f * 0x1000)) == Some(f)
    && forall p: nat :: p < 0x4_0000 && p / 512 != f / 512 && !m[g][p / 512].present ==> Unmapped(m', root, p)
  }

  lemma RelinkedLoses(m: Memory, m': Memory, root: Frame, g: Frame, f: Frame, p: nat)
    requires f < 0x4_0000 && Relinked(m, m', root, g, f)
    requires p < 0x4_0000 && p / 512 != f / 512 && !m[g][p / 512].present && !Unmapped(m, root, p)
    ensures !SameWalks(m, m')
  {
    hide PageOf;
    assert Unmapped(m', root, p);
    if SameWalks(m, m') {
      SameTranslation(m, m', root, PageOf(KERNBASE + p * 0x1000));
    }
  }

  lemma RelinkedBy(m: Memory, root: Frame, pdpte: Frame, g: Frame, h: Frame, f: Frame)
    requires f < 0x4_0000 && root < |m| && pdpte < |m| && g < |m| && h < |m|
    requires m[root][511].present && m[root][511].frame == pdpte
    requires g != root && g != pdpte && h != root && h != pdpte && h != g
    requires root != pdpte
    ensures var m1 := m[pdpte := m[pdpte][510 := KernelWord(g)]];
            var m2 := m1[g := m1[g][f / 512 := KernelWord(h)]];
            Relinked(m, m2[h := m2[h][f % 512 := KernelWord(f)]], root, g, f)
  {
    hide PageOf;
    var m1 := m[pdpte := m[pdpte][510 := KernelWord(g)]];
    var m2 := m1[g := m1[g][f / 512 := KernelWord(h)]];
    var m3 := m2[h := m2[h][f % 512 := KernelWord(f)]];
    KernelPage(f);
    forall p: nat | p < 0x4_0000 && p / 512 != f / 512 && !m[g][p / 512].present
      ensures Unmapped(m3, root, p)
    {
      KernelPage(p);
    }
  }

  /** The slot of boot table `k` (1 to 4) lies in the last table, beyond the mapped pages. */
  predicate ExtraFits(n: nat, k: nat) {
    n + k < 0x4_0000 && (n + k) / 512 == LastTable(n)
  }

  /** The frame page `p` of the direct map ends up with, among `n` pages. */
  function FinalFrame(n: nat, boot: seq<Frame>, p: nat): Frame
    requires |boot| == 4
  {
    if p / 512 != LastTable(n) then p
    else if p % 512 == (n + 4) % 512 then boot[3]
    else if p % 512 == (n + 3) % 512 then boot[2]
    else if p % 512 == (n + 2) % 512 then boot[1]
    else if p % 512 == (n + 1) % 512 then boot[0]
    else p
  }

  /**
   The direct map is whole, and the boot tables reachable, exactly when the last table has
   room for them: for 1 to 507 pages in it.
   */
  lemma DirectMapIsWhole(n: nat, boot: seq<Frame>)
    requires 0 < n <= 0x4_0000 && |boot| == 4
    ensures 1 <= n % 512 <= 507 ==> forall p: nat :: p < n ==> FinalFrame(n, boot, p) == p
    ensures 1 <= n % 512 <= 507 <==> forall k :: 1 <= k <= 4 ==> ExtraFits(n, k)
  {
    if 1 <= n % 512 <= 507 {
      forall p: nat | p < n ensures FinalFrame(n, boot, p) == p {
        FinalIsSelf(n, boot, p);
      }
    }
    forall k | 1 <= k <= 4 ensures ExtraFits(n, k) <==> 1 <= n % 512 <= 511 - k {
      ExtraFitsIff(n, k);
    }
    assert ExtraFits(n, 4) <==> 1 <= n % 512 <= 507;
  }

  lemma FinalIsSelf(n: nat, boot: seq<Frame>, p: nat)
    requires 1 <= n % 512 <= 507 && p < n && |boot| == 4
    ensures FinalFrame(n, boot, p) == p
  {
    var q, r := n / 512, n % 512;
    assert n == q * 512 + r && LastTable(n) == q;
    QuotientIs(n + 1, 512, q, r + 1);
    QuotientIs(n + 2, 512, q, r + 2);
    QuotientIs(n + 3, 512, q, r + 3);
    QuotientIs(n + 4, 512, q, r + 4);
    QuotientIs(n - 1, 512, q, r - 1);
    if p / 512 == q { assert p % 512 < r; }
  }

  lemma ExtraFitsIff(n: nat, k: nat)
    requires 0 < n <= 0x4_0000 && 1 <= k <= 4
    ensures ExtraFits(n, k) <==> 1 <= n % 512 <= 511 - k
  {
    var q, r := n / 512, n % 512;
    assert n == q * 512 + r;
    if r + k < 512 {
      QuotientIs(n + k, 512, q, r + k);
    } else {
      QuotientIs(n + k, 512, q + 1, r + k - 512);
    }
    if r > 0 {
      QuotientIs(n - 1, 512, q, r - 1);
    } else {
      QuotientIs(n - 1, 512, q - 1, 511);
    }
  }

  /** Otherwise a page that is in use is lost to the last boot table, whichever frame that is. */
  lemma DirectMapIsBroken(n: nat, boot: seq<Frame>)
    requires 0 < n <= 0x4_0000 && |boot| == 4 && !(1 <= n % 512 <= 507)
    ensures var p := LastTable(n) * 512 + (n + 4) % 512; p < n && FinalFrame(n, boot, p) == boot[3]
  {
  }

  lemma FirstSkeleton(m: Memory, root: Frame, pdpte: Frame, pde: Frame, pte: Frame)
    requires root < |m| && pdpte < |m| && pde < |m| && pte < |m|
    requires root != pdpte && root != pde && pdpte != pde && pte != root && pte != pdpte && pte != pde
    requires m[root][511] == KernelWord(pdpte) && m[pdpte][510] == KernelWord(pde) && m[pde][0] == KernelWord(pte)
    ensures MapsFirst(m, root, pdpte, pde, [pte], 0)
  {
  }

  lemma KernelIndices()
    ensures KERNBASE / 0x80_0000_0000 % 512 == 511 && KERNBASE / 0x4000_0000 % 512 == 510
    ensures KERNBASE / 0x20_0000 % 512 == 0
  {
  }

  lemma SlotOf(n: nat, k: nat)
    ensures (KERNBASE + n * 0x1000 + k * 0x1000) / 0x1000 % 512 == (n + k) % 512
  {
    assert KERNBASE == 0x7_FFFF_FFFC_00 * (512 * 0x1000);
    IndexIgnores((n + k) * 0x1000, 0x1000, 0x7_FFFF_FFFC_00);
  }

  /** The four words after the loop. */
  lemma AfterExtras(m: Memory, m': Memory, used: seq<Frame>, boot: seq<Frame>, pts: seq<Frame>, n: nat)
    requires |boot| == 4 && n <= 0x4_0000 && MapsFirst(m, boot[0], boot[1], boot[2], pts, n)
    requires boot[3] == pts[|pts| - 1] && boot[3] < |m|
    requires (forall i :: 0 <= i < 3 ==> boot[i] in used) && (forall i :: 0 <= i < |pts| ==> pts[i] in used)
    requires m' == m[boot[3] := m[boot[3]][(n + 1) % 512 := KernelWord(boot[0])][(n + 2) % 512 := KernelWord(boot[1])]
                                          [(n + 3) % 512 := KernelWord(boot[2])][(n + 4) % 512 := KernelWord(boot[3])]]
    ensures forall p: nat :: p < n ==>
              MapsTo(m', used, boot[0], p, FinalFrame(n, boot, p))
    ensures forall k :: 1 <= k <= 4 && ExtraFits(n, k) ==>
              MapsTo(m', used, boot[0], n + k, boot[k - 1])
    ensures boot[0] < |m'| && m'[boot[0]][511] == KernelWord(boot[1])
  {
    hide PageOf, Translate;
    var t, last := boot[3], LastTable(n);
    TablesOf(m, boot[0], boot[1], boot[2], pts, n);
    forall p: nat | p < n
      ensures MapsTo(m', used, boot[0], p, FinalFrame(n, boot, p))
    {
      assert PageAt(m, pts, p);
      TranslateThrough(m', used, boot[0], boot[1], boot[2], pts, p);
      assert p / 512 != last ==> pts[p / 512] != t;
    }
    forall k | 1 <= k <= 4 && ExtraFits(n, k)
      ensures MapsTo(m', used, boot[0], n + k, boot[k - 1])
    {
      TranslateThrough(m', used, boot[0], boot[1], boot[2], pts, n + k);
    }
  }

  /** What `MapsFirst` says about the tables themselves. */
  lemma TablesOf(m: Memory, root: Frame, pdpte: Frame, pde: Frame, pts: seq<Frame>, n: nat)
    requires MapsFirst(m, root, pdpte, pde, pts, n)
    ensures 0 < |pts| <= 512 && |pts| == LastTable(n) + 1 && root < |m| && pdpte < |m| && pde < |m|
    ensures forall i :: 0 <= i < |pts| ==> pts[i] < |m| && pts[i] != pdpte
    ensures pde != pdpte
  {
  }

  lemma SkeletonAfterNew(m: Memory, root: Frame, pdpte: Frame, pde: Frame, pts: seq<Frame>, k: nat, g: Frame)
    requires Skeleton(m, root, pdpte, pde, pts) && k < 512 && k <= |pts|
    requires g < |m| && g != root && g != pdpte && g != pde && g !in pts
    ensures Skeleton(m[pde := m[pde][k := KernelWord(g)]], root, pdpte, pde, pts[..k] + [g])
  {
  }

  lemma SkeletonAfterPage(m: Memory, root: Frame, pdpte: Frame, pde: Frame, pts: seq<Frame>,
                          t: Frame, i: Index, e: Entry)
    requires Skeleton(m, root, pdpte, pde, pts) && t in pts
    ensures Skeleton(m[t := m[t][i := e]], root, pdpte, pde, pts)
  {
  }

  /** One more page, in a fresh table. */
  lemma NewTable(m: Memory, root: Frame, pdpte: Frame, pde: Frame, pts: seq<Frame>, n: nat, g: Frame)
    requires MapsFirst(m, root, pdpte, pde, pts, n) && n < 0x4_0000 && n % 512 == 0
    requires g < |m| && g != root && g != pdpte && g != pde && g !in pts
    ensures n / 512 <= |pts| && pde < |m|
    ensures var m1 := m[pde := m[pde][n / 512 := KernelWord(g)]];
            MapsFirst(m1[g := m1[g][0 := KernelWord(n)]], root, pdpte, pde, pts[..n / 512] + [g], n + 1)
  {
    var k := n / 512;
    var m1, pts' := m[pde := m[pde][k := KernelWord(g)]], pts[..k] + [g];
    var m2 := m1[g := m1[g][0 := KernelWord(n)]];
    SkeletonAfterNew(m, root, pdpte, pde, pts, k, g);
    SkeletonAfterPage(m1, root, pdpte, pde, pts', g, 0, KernelWord(n));
    forall p: nat | p < n + 1 ensures PageAt(m2, pts', p) {
      if p < n {
        assert PageAt(m, pts, p);
        assert p / 512 < k && pts'[p / 512] == pts[p / 512];
      } else {
        assert pts'[k] == g;
      }
    }
  }

  /** One more page, in the last table. */
  lemma NextSlot(m: Memory, root: Frame, pdpte: Frame, pde: Frame, pts: seq<Frame>, n: nat)
    requires MapsFirst(m, root, pdpte, pde, pts, n) && n < 0x4_0000 && n % 512 != 0
    ensures 0 < |pts| && pts[|pts| - 1] < |m|
    ensures var t := pts[|pts| - 1];
            MapsFirst(m[t := m[t][n % 512 := KernelWord(n)]], root, pdpte, pde, pts, n + 1)
  {
    var t := pts[|pts| - 1];
    var m1 := m[t := m[t][n % 512 := KernelWord(n)]];
    SkeletonAfterPage(m, root, pdpte, pde, pts, t, n % 512, KernelWord(n));
    forall p: nat | p < n + 1 ensures PageAt(m1, pts, p) {
      assert p < n ==> PageAt(m, pts, p);
    }
  }
}
