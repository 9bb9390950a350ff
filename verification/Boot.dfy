/**
 From the boot loader's memory map to a machine ready for its first task: the frame list,
 the kernel's own tables, and no user mapping yet.
 */
module Boot {
  import opened PageModel
  import opened CowModel
  import opened Paging
  import opened Address
  import opened Fault
  import FL = FrameList
  import BM = BootMap

  /** Memory as tables and data: the frames in use are tables, all others data. */
  function Pages(words: BM.Memory, bytes: seq<Bytes>, infos: seq<FL.PageInfo>): (pages: seq<Page>)
    requires |words| == |bytes| == |infos|
    ensures |pages| == |words|
    ensures forall f :: 0 <= f < |words| ==>
      pages[f] == if infos[f].refCount > 0 then Table(words[f]) else Data(bytes[f])
  {
    seq(|words|, f requires 0 <= f < |words| => if infos[f].refCount > 0 then Table(words[f]) else Data(bytes[f]))
  }

  /** The address spaces over memory in which the frames given out hold `words`: none yet. */
  method Enter(frames: FL.FrameList, words: BM.Memory, bytes: seq<Bytes>, kernel: Frame) returns (m: AddressSpaces)
    requires frames.Valid() && frames.pagelist.Length == |words| == |bytes|
    requires forall f :: 0 <= f < |bytes| ==> |bytes[f]| == PAGE_SIZE
    ensures fresh(m) && m.frames == frames && m.kernelTable == kernel && |m.mem| == |words|
    ensures Good(m) && Reads(FlatOf(m)) == map[]
    ensures m.kernel == TablesOf(words, frames.given)
    ensures forall f :: f in frames.given && f < |words| ==> m.mem[f] == Table(words[f])
  {
    CountsTell(frames);
    GivenAreTables(frames, words, bytes);
    hide FL.Linked, FL.NoDup, FL.Counted, CowInv, Reads;
    m := new AddressSpaces(frames, Pages(words, bytes, frames.pagelist[..]), kernel, TablesOf(words, frames.given));
    BootIsGood(m);
  }

  /** The frames given out so far, as the tables they hold. */
  ghost function TablesOf(words: BM.Memory, given: seq<Frame>): map<Frame, Page> {
    map f | f in given && f < |words| :: Table(words[f])
  }

  lemma GivenAreTables(frames: FL.FrameList, words: BM.Memory, bytes: seq<Bytes>)
    requires frames.Valid() && frames.pagelist.Length == |words| == |bytes|
    ensures forall f :: f in TablesOf(words, frames.given) ==> f < |words| && f !in frames.free
    ensures forall f :: f in TablesOf(words, frames.given) ==>
      Pages(words, bytes, frames.pagelist[..])[f] == TablesOf(words, frames.given)[f]
  {
    CountsTell(frames);
  }

  /** initializeFreelist with the setupPageTables at its end. */
  method BuildTables(frames: FL.FrameList, ms: seq<FL.Smap>, physfree: nat, words: BM.Memory)
    returns (ok: bool, kcr3: Frame, tables: BM.Memory)
    requires frames.Valid() && frames.free == [] && frames.given == [] && frames.pagelist.Length == |words|
    requires FL.GoodMap(ms, |words|) && BM.PagesIn(FL.LastEnd(ms)) <= 0x4_0000
    modifies frames, frames.pagelist
    ensures frames.Valid() && |tables| == |words| && (!ok ==> frames.free == [])
    ensures forall f :: f in frames.free ==> FL.Usable(ms, physfree, f)
    ensures ok ==> kcr3 < |tables| && kcr3 in frames.given
    ensures ok ==> exists k: Frame :: tables[kcr3][511] == BM.KernelWord(k)
    ensures ok && 1 <= BM.PagesIn(FL.LastEnd(ms)) % 512 <= 507 ==>
      DirectMap(tables, frames.given, kcr3, BM.PagesIn(FL.LastEnd(ms)))
    ensures FL.Ascending(ms) ==> forall f: nat :: f in frames.free ==> f < BM.PagesIn(FL.LastEnd(ms))
  {
    hide FL.Linked, FL.NoDup, FL.Counted, FL.Usable, FL.Ascending, BM.MapsTo, BM.FinalFrame, BM.ExtraFits;
    var lastFreeFrame := frames.InitializeFreelist(ms, physfree);
    ghost var free0 := frames.free;
    var boot := new BM.BootTables(frames, words);
    ghost var kernel;
    ok, kcr3, kernel := boot.SetupPageTables(lastFreeFrame);
    tables := boot.mem;
    StillFree(free0, frames.given, frames.free);
    ghost var n := BM.PagesIn(lastFreeFrame);
    if ok && 1 <= n % 512 <= 507 {
      BM.DirectMapIsWhole(n, kernel);
      forall p: nat | p < n ensures BM.MapsTo(tables, frames.given, kcr3, p, p) {
        assert BM.MapsTo(tables, frames.given, kcr3, p, BM.FinalFrame(n, kernel, p));
      }
    }
  }

  /** The first `n` pages of the direct map translate to themselves. */
  ghost predicate DirectMap(tables: BM.Memory, used: seq<Frame>, root: Frame, n: nat) {
    forall p: nat :: p < n ==> BM.MapsTo(tables, used, root, p, p)
  }

  // ---------- The kernel's part of every address space ----------

  function FollowKernel(kernel: map<Frame, Page>, f: Frame, i: Index): Option<Entry> {
    if f in kernel && IsTable(kernel[f]) && kernel[f].entries[i].present then Some(kernel[f].entries[i]) else None
  }

  /** The MMU's walk over the kernel's own tables alone. */
  function KernelWalk(kernel: map<Frame, Page>, r: Frame, v: VPage): Option<Entry> {
    match FollowKernel(kernel, r, v.i4)
    case None => None
    case Some(e3) =>
      match FollowKernel(kernel, e3.frame, v.i3)
      case None => None
      case Some(e2) =>
        match FollowKernel(kernel, e2.frame, v.i2)
        case None => None
        case Some(e1) => FollowKernel(kernel, e1.frame, v.i1)
  }

  function KernelPageOf(p: nat): VPage { PageOf(BM.KERNBASE + p * 0x1000) }

  /** Page `p` behind kernbase leads to frame `f`, in tables that no task can change. */
  predicate KernelMaps(kernel: map<Frame, Page>, kcr3: Frame, p: nat, f: Frame) {
    && KernelWalk(kernel, kcr3, KernelPageOf(p)).Some?
    && KernelWalk(kernel, kcr3, KernelPageOf(p)).value.frame == f
  }

  lemma BootWalk(tables: BM.Memory, given: seq<Frame>, root: Frame, p: nat, f: Frame)
    requires BM.MapsTo(tables, given, root, p, f)
    ensures KernelMaps(TablesOf(tables, given), root, p, f)
  {
    hide PageOf;
  }

  lemma FollowIsKernels(s: Phys, f: Frame, i: Index)
    requires Inv(s) && FollowKernel(s.kernel, f, i).Some?
    ensures Follow(s.mem, f, i) == FollowKernel(s.kernel, f, i)
  {
    hide Inv;
    KernelAt(s, f);
  }

  /** In every state the machine reaches the MMU finds in memory what boot left there. */
  lemma WalkIsKernels(s: Phys, r: Frame, v: VPage)
    requires Inv(s) && KernelWalk(s.kernel, r, v).Some?
    ensures Walk(s.mem, r, v) == KernelWalk(s.kernel, r, v)
  {
    hide Inv, Follow, FollowKernel;
    FollowIsKernels(s, r, v.i4);
    var f3 := FollowKernel(s.kernel, r, v.i4).value.frame;
    FollowIsKernels(s, f3, v.i3);
    var f2 := FollowKernel(s.kernel, f3, v.i3).value.frame;
    FollowIsKernels(s, f2, v.i2);
    FollowIsKernels(s, FollowKernel(s.kernel, f2, v.i2).value.frame, v.i1);
  }

  /** Slot 511 of `kcr3` links the table all tasks share. */
  ghost predicate SharesSlot(m: AddressSpaces, kcr3: Frame) {
    && kcr3 in m.kernel && IsTable(m.kernel[kcr3])
    && m.kernel[kcr3].entries[511].present && m.kernel[kcr3].entries[511].frame == m.kernelTable
  }

  /** A kernel address leads from the root of any task that maps something where it leads from the kernel's own. */
  lemma KernelIsEverywhere(m: AddressSpaces, kcr3: Frame, r: Frame, p: nat, f: Frame)
    requires Good(m) && r in m.roots && !MapsNothing(m.maps, r) && SharesSlot(m, kcr3)
    requires p < 0x4_0000 && KernelMaps(m.kernel, kcr3, p, f)
    ensures Walk(m.mem, r, KernelPageOf(p)) == Walk(m.mem, kcr3, KernelPageOf(p))
    ensures Walk(m.mem, r, KernelPageOf(p)).Some? && Walk(m.mem, r, KernelPageOf(p)).value.frame == f
  {
    hide Inv, PageOf, CowInv, RefsOk;
    BM.KernelPage(p);
    WalkIsKernels(m.View(), kcr3, KernelPageOf(p));
    FollowIsKernels(m.View(), kcr3, 511);
    RootHasTable(m.View(), r);
    TableAt(m.View(), Top(r));
  }

  /**
   The whole of it.  `words` and `bytes` are what memory holds before, seen as tables and
   as data.  The machine left is a start of runs; its free frames are usable ones; the
   kernel's root links the table every task will share, and the direct map is whole when
   the last table has room.
   */
  method Start(pagelist: array<FL.PageInfo>, ms: seq<FL.Smap>, physfree: nat, words: BM.Memory, bytes: seq<Bytes>)
    returns (ok: bool, m: AddressSpaces?, kcr3: Frame, tables: BM.Memory)
    requires FL.GoodMap(ms, pagelist.Length) && BM.PagesIn(FL.LastEnd(ms)) <= 0x4_0000
    requires FL.Counted(pagelist[..], [], []) && pagelist.Length == |words| == |bytes|
    requires forall f :: 0 <= f < |bytes| ==> |bytes[f]| == PAGE_SIZE
    modifies pagelist
    ensures ok ==> m != null && fresh(m) && fresh(m.frames) && m.frames.pagelist == pagelist
    ensures ok ==> Good(m) && Reads(FlatOf(m)) == map[]
    ensures ok ==> forall f :: f in m.frames.free ==> FL.Usable(ms, physfree, f)
    ensures ok ==> |tables| == |m.mem|
    ensures ok ==> forall f :: f in m.frames.given && f < |tables| ==> m.mem[f] == Table(tables[f])
    ensures ok ==> kcr3 < |m.mem| && Word(m.mem, kcr3, 511) == BM.KernelWord(m.kernelTable)
    ensures ok ==> SharesSlot(m, kcr3)
    ensures ok && 1 <= BM.PagesIn(FL.LastEnd(ms)) % 512 <= 507 ==>
      forall p: nat :: p < BM.PagesIn(FL.LastEnd(ms)) ==> KernelMaps(m.kernel, kcr3, p, p)
    ensures ok && FL.Ascending(ms) && 1 <= BM.PagesIn(FL.LastEnd(ms)) % 512 <= 507 ==>
      forall f: nat :: f in m.frames.free ==>
        KernelMaps(m.kernel, kcr3, f, f) && BM.MapsTo(tables, m.frames.given, kcr3, f, f)
  {
    hide FL.Linked, FL.NoDup, FL.Counted, FL.Usable, FL.GoodMap, FL.Ascending;
    hide BM.MapsTo, Good, Reads, FlatOf, KernelMaps;
    m := null;
    var frames := new FL.FrameList(pagelist);
    ok, kcr3, tables := BuildTables(frames, ms, physfree, words);
    if !ok { return; }
    m := Enter(frames, tables, bytes, tables[kcr3][511].frame);
    if 1 <= BM.PagesIn(FL.LastEnd(ms)) % 512 <= 507 {
      forall p: nat | p < BM.PagesIn(FL.LastEnd(ms)) ensures KernelMaps(m.kernel, kcr3, p, p) {
        BootWalk(tables, frames.given, kcr3, p, p);
      }
    }
  }

  /**
   Boot, and then any commands: in every address space with anything in it the kernel
   finds each frame of its direct map where its own tables have it.
   */
  method StartAndExecute(pagelist: array<FL.PageInfo>, ms: seq<FL.Smap>, physfree: nat, words: BM.Memory,
                         bytes: seq<Bytes>, commands: seq<Command>)
    returns (ok: bool, m: AddressSpaces?, kcr3: Frame)
    requires FL.GoodMap(ms, pagelist.Length) && BM.PagesIn(FL.LastEnd(ms)) <= 0x4_0000
    requires FL.Counted(pagelist[..], [], []) && pagelist.Length == |words| == |bytes|
    requires forall f :: 0 <= f < |bytes| ==> |bytes[f]| == PAGE_SIZE
    requires forall c :: c in commands ==> WellFormed(c)
    modifies pagelist
    ensures ok ==> m != null && Good(m)
    ensures ok && 1 <= BM.PagesIn(FL.LastEnd(ms)) % 512 <= 507 ==> forall r, p: nat ::
      r in m.roots && !MapsNothing(m.maps, r) && p < BM.PagesIn(FL.LastEnd(ms)) ==>
        Walk(m.mem, r, KernelPageOf(p)).Some? && Walk(m.mem, r, KernelPageOf(p)).value.frame == p
  {
    hide FL.Linked, FL.NoDup, FL.Counted, FL.Usable, FL.GoodMap, FL.Ascending;
    hide BM.MapsTo, Good, Reads, FlatOf, KernelMaps;
    hide WellFormed, PerformsAll, Walk, SharesSlot, MapsNothing, KernelPageOf;
    var tables;
    ok, m, kcr3, tables := Start(pagelist, ms, physfree, words, bytes);
    if !ok { return; }
    ghost var n := BM.PagesIn(FL.LastEnd(ms));
    assert SharesSlot(m, kcr3);
    ghost var parts;
    ok, parts := ExecuteAll(m, commands);
    if ok && 1 <= n % 512 <= 507 {
      forall r, p: nat | r in m.roots && !MapsNothing(m.maps, r) && p < n
        ensures Walk(m.mem, r, KernelPageOf(p)).Some? && Walk(m.mem, r, KernelPageOf(p)).value.frame == p
      {
        KernelIsEverywhere(m, kcr3, r, p, p);
      }
    }
  }

  lemma StillFree(free0: seq<Frame>, given: seq<Frame>, free: seq<Frame>)
    requires given + free == free0
    ensures forall f :: f in free ==> f in free0
  {
    forall f | f in free ensures f in given + free {}
  }

  lemma CountsTell(frames: FL.FrameList)
    requires frames.Valid()
    ensures forall f :: f in frames.free ==> f < frames.pagelist.Length && frames.pagelist[f].refCount == 0
    ensures forall f :: f in frames.given && f < frames.pagelist.Length ==> frames.pagelist[f].refCount > 0
  {
    hide FL.NoDup;
    forall f | f in frames.free ensures f < frames.pagelist.Length {
      var i :| 0 <= i < |frames.free| && frames.free[i] == f;
      FL.LinkedAt(frames.pagelist[..], frames.head, frames.free, i);
    }
    assert forall f :: 0 <= f < frames.pagelist.Length ==>
      FL.CountOk(frames.pagelist[..][f].refCount, f in frames.given, f in frames.free);
  }
}
