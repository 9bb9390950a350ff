/**
 The user heap on its pages: every byte malloc hands out lies in a page the kernel has
 mapped for the task, before and after any fork, and no store to it kills the task.
 */
module HeapPages {
  import opened PageModel
  import opened CowModel
  import opened Paging
  import opened Address
  import opened Fault
  import HM = HeapModel
  import UH = UserHeap

  /** The address of a unit. */
  function At(unit: nat): nat { 16 * unit }

  predicate Mapped(m: map<Pos, Entry>, root: Frame, a: nat) {
    Leaf(root, PageOf(a)) in m
  }

  predicate Writable(m: map<Pos, Entry>, root: Frame, a: nat) {
    Entry0(m, Leaf(root, PageOf(a))).writable
  }

  ghost predicate AreaMapped(m: map<Pos, Entry>, root: Frame, low: nat, high: nat) {
    forall a :: low <= a < high ==> Mapped(m, root, a)
  }

  ghost predicate AreaWritable(m: map<Pos, Entry>, root: Frame, low: nat, high: nat) {
    forall a :: low <= a < high ==> Writable(m, root, a)
  }

  /** The heap lies in the task's second memory area, from its beginning to its end all mapped. */
  ghost predicate Joined(h: UH.Heap, m: AddressSpaces, root: Frame, vm: seq<Vma>)
    reads h, m
  {
    && |vm| >= 2 && vm[1].beginAddress <= At(h.start) && vm[1].lastAddress == At(h.brk) && h.brk % 256 == 0
    && AreaMapped(m.maps, root, At(h.start), At(h.brk))
  }

  // ---------- malloc ----------

  /**
   malloc with the kernel behind its sbrk.  The two share no state but the end of the
   area, so the page tables are grown after the list rather than in the middle.  What a
   refill adds is writable at once; the rest is unless a fork has shared it.
   */
  method MallocOnPages(h: UH.Heap, m: AddressSpaces, root: Frame, vm: seq<Vma>, nbytes: nat)
    returns (ok: bool, r: UH.Result, vm': seq<Vma>)
    requires h.Valid() && nbytes <= 0x7FFF_FFE0 && Good(m) && root in m.roots && Joined(h, m, root, vm)
    requires At(h.brk) + PagesFor(UH.RefillBytes(UH.Units(nbytes))) * 0x1000 <= 0xFF80_0000_0000
    modifies h, h.mem, m, m.frames, m.frames.pagelist
    ensures !ok ==> m.frames.free == []
    ensures ok && !r.Halted? ==> h.Valid() && Good(m) && root in m.roots && Joined(h, m, root, vm')
    ensures ok && r.Got? ==> r.ap > 0 && r.ap - 1 in h.live && h.live[r.ap - 1] == UH.Units(nbytes)
    ensures ok && r.Got? ==> AreaMapped(m.maps, root, At(r.ap), At(r.ap) + nbytes)
    ensures ok && !r.Halted? ==> forall b :: b in h.live ==> AreaMapped(m.maps, root, At(b), At(b + h.live[b]))
    ensures ok && !r.Halted? ==> AreaWritable(m.maps, root, old(At(h.brk)), At(h.brk))
    ensures ok && !r.Halted? && old(AreaWritable(m.maps, root, At(h.start), At(h.brk))) ==>
      AreaWritable(m.maps, root, At(h.start), At(h.brk))
  {
    hide UH.Heap.Valid, Good, Mapped, Writable, UH.Units, UH.RefillBytes, UH.FirstFit, UH.HasRoom, HM.Insert, HM.Take;
    hide HM.Place, HM.Range, UH.RefillSuffices, PagesFor, At, AreaMapped, AreaWritable;
    ghost var pages := PagesFor(UH.RefillBytes(UH.Units(nbytes)));
    ghost var refilled, searched, tried, c;
    ok, vm' := true, vm;
    var brk := h.brk;
    RefillGrows(nbytes);
    PagesOfUnits(brk, pages);
    NothingAdded(m.maps, root, At(brk));
    r, refilled, searched, tried, c := h.Malloc(nbytes, false);
    if r.Halted? { return; }
    if h.brk > brk {
      ok, vm' := Grow(m, root, vm, UH.RefillBytes(UH.Units(nbytes)), At(h.start));
      if !ok { return; }
    }
    LiveIsMapped(h, m, root, vm');
    if r.Got? { RequestIsMapped(h, m, root, vm', r.ap, nbytes); }
  }

  /** Units and addresses at a page boundary. */
  lemma PagesOfUnits(brk: nat, pages: int)
    requires brk % 256 == 0 && pages > 0
    ensures At(brk) % 0x1000 == 0 && (brk + pages * 256) % 256 == 0
    ensures At(brk + pages * 256) == At(brk) + pages * 0x1000
  {
  }

  lemma NothingAdded(m: map<Pos, Entry>, root: Frame, a: nat)
    ensures AreaWritable(m, root, a, a)
  {
  }

  lemma RefillGrows(nbytes: nat)
    requires nbytes <= 0x7FFF_FFE0
    ensures PagesFor(UH.RefillBytes(UH.Units(nbytes))) > 0
  {
    UH.RefillIsSound(nbytes);
  }

  lemma LiveIsMapped(h: UH.Heap, m: AddressSpaces, root: Frame, vm: seq<Vma>)
    requires h.Valid() && Joined(h, m, root, vm)
    ensures forall b :: b in h.live ==> AreaMapped(m.maps, root, At(b), At(b + h.live[b]))
  {
    hide UH.Heap.Valid, Mapped;
    forall b | b in h.live ensures AreaMapped(m.maps, root, At(b), At(b + h.live[b])) {
      h.LiveIsInside(b);
    }
  }

  lemma RequestIsMapped(h: UH.Heap, m: AddressSpaces, root: Frame, vm: seq<Vma>, ap: nat, nbytes: nat)
    requires h.Valid() && Joined(h, m, root, vm)
    requires ap > 0 && ap - 1 in h.live && nbytes <= (h.live[ap - 1] - 1) * 16
    ensures AreaMapped(m.maps, root, At(ap), At(ap) + nbytes)
  {
    hide UH.Heap.Valid, Mapped;
    h.LiveIsInside(ap - 1);
  }

  /** sbrk in the page tables: the area from `low` on stays mapped, and what is added is writable. */
  method Grow(m: AddressSpaces, root: Frame, vm: seq<Vma>, bytes: int, ghost low: nat)
    returns (ok: bool, vm': seq<Vma>)
    requires Good(m) && root in m.roots && |vm| >= 2 && vm[1].lastAddress % 0x1000 == 0 && PagesFor(bytes) > 0
    requires vm[1].lastAddress + PagesFor(bytes) * 0x1000 <= 0xFF80_0000_0000
    requires AreaMapped(m.maps, root, low, vm[1].lastAddress)
    modifies m, m.frames, m.frames.pagelist
    ensures !ok ==> m.frames.free == []
    ensures ok ==> Good(m) && root in m.roots && |vm'| >= 2 && vm'[1].beginAddress == vm[1].beginAddress
    ensures ok ==> vm'[1].lastAddress == vm[1].lastAddress + PagesFor(bytes) * 0x1000
    ensures ok ==> AreaMapped(m.maps, root, low, vm'[1].lastAddress)
    ensures ok ==> AreaWritable(m.maps, root, vm[1].lastAddress, vm'[1].lastAddress)
    ensures ok && old(AreaWritable(m.maps, root, low, vm[1].lastAddress)) ==>
      AreaWritable(m.maps, root, low, vm'[1].lastAddress)
  {
    hide Good, PageOf, PagesFor;
    var ret;
    ghost var maps0, steps := m.maps, [];
    ok, ret, vm', steps := KernelMalloc(m, root, vm, bytes);
    if ok {
      forall a | ret <= a < vm'[1].lastAddress ensures Writable(m.maps, root, a) && Mapped(m.maps, root, a) {}
      forall a | low <= a < vm'[1].lastAddress ensures Mapped(m.maps, root, a) {
        if a < ret { assert Mapped(maps0, root, a); }
      }
      if AreaWritable(maps0, root, low, vm[1].lastAddress) {
        forall a | low <= a < vm'[1].lastAddress ensures Writable(m.maps, root, a) {
          if a < ret { assert Writable(maps0, root, a); }
        }
      }
    }
  }

  // ---------- fork and the other steps ----------

  /** No step but the end of the task unmaps a page of its heap. */
  lemma StepKeepsArea(s: Flat, st: Step, root: Frame, low: nat, high: nat)
    requires Enabled(s, st) && AreaMapped(s.maps, root, low, high)
    requires st.Dealloc? || st.Reap? ==> st.root != root
    ensures AreaMapped(Apply(s, st).maps, root, low, high)
  {
    hide PageOf;
    forall a | low <= a < high ensures Mapped(Apply(s, st).maps, root, a) {
      assert Mapped(s.maps, root, a);
      PathFacts(root, PageOf(a));
    }
  }

  /** The child has the heap's pages too, at the same addresses. */
  lemma ForkCopiesArea(s: Flat, parent: Frame, child: Frame, n: nat, low: nat, high: nat)
    requires CowInv(s) && Enabled(s, Fork(parent, child, n)) && AreaMapped(s.maps, parent, low, high)
    ensures AreaMapped(Apply(s, Fork(parent, child, n)).maps, child, low, high)
  {
    NoTreeUnderFree(s, child);
    KeysInRoots(s);
    assert parent != child by { RootIsNotFree(s, parent); }
    hide PageOf, CowInv, ForkMaps;
    forall a | low <= a < high ensures Mapped(Apply(s, Fork(parent, child, n)).maps, child, a) {
      assert Mapped(s.maps, parent, a);
      PathFacts(child, PageOf(a));
      RetargetPage(child, PageOf(a), parent);
      ForkMapsAt(s.maps, parent, child, Leaf(child, PageOf(a)));
    }
  }

  lemma RootIsNotFree(s: Flat, r: Frame)
    requires CowInv(s) && r in s.roots
    ensures r !in s.free
  {
  }

  ghost predicate Spares(steps: seq<Step>, root: Frame) {
    forall st :: st in steps ==> (st.Dealloc? || st.Reap? ==> st.root != root)
  }

  /** Over every run in which the task neither execs nor is reaped. */
  lemma {:induction false} RunKeepsArea(s: Flat, steps: seq<Step>, root: Frame, low: nat, high: nat)
    requires ValidRun(s, steps) && Spares(steps, root) && AreaMapped(s.maps, root, low, high)
    ensures AreaMapped(Run(s, steps).maps, root, low, high)
    decreases |steps|
  {
    hide Enabled, Apply, AreaMapped;
    if steps != [] {
      StepKeepsArea(s, steps[0], root, low, high);
      RunKeepsArea(Apply(s, steps[0]), steps[1..], root, low, high);
    }
  }

  // ---------- Stores to live blocks ----------

  /** No store to a byte of a live block kills the task, shared or not. */
  lemma LiveStoreLives(h: UH.Heap, m: AddressSpaces, root: Frame, vm: seq<Vma>, b: nat, a: nat)
    requires h.Valid() && Joined(h, m, root, vm) && b in h.live && At(b) + 16 <= a < At(b + h.live[b])
    ensures Mapped(m.maps, root, a) && ValidAddress(vm, a) && !Kills(FlatOf(m), Leaf(root, PageOf(a)), vm, a)
  {
    hide UH.Heap.Valid, PageOf;
    h.LiveIsInside(b);
    assert vm[1].beginAddress < a < vm[1].lastAddress;
    assert Mapped(m.maps, root, a);
  }

  /** A user store to a live block, whatever fork has made of its page: it is done, and seen by no other task. */
  method StoreToBlock(h: UH.Heap, m: AddressSpaces, root: Frame, vm: seq<Vma>, ghost b: nat, a: nat, value: Byte,
                      stray: Entry)
    returns (ok: bool)
    requires h.Valid() && Good(m) && root in m.roots && Joined(h, m, root, vm)
    requires At(h.brk) <= 0xFF80_0000_0000 && b in h.live && At(b) + 16 <= a < At(b + h.live[b])
    modifies m, m.frames, m.frames.pagelist
    ensures !ok ==> m.frames.free == []
    ensures ok ==> Good(m) && root in m.roots && Joined(h, m, root, vm)
    ensures ok ==>
      Reads(FlatOf(m)) == EagerApply(old(Reads(FlatOf(m))), Store(Leaf(root, PageOf(a)), OffsetOf(a), value))
  {
    hide UH.Heap.Valid, Good, PageOf, Kills, ValidAddress, CowInv, Reads, EagerApply, Apply, Enabled, Misled;
    hide AreaMapped;
    h.LiveIsInside(b);
    LiveStoreLives(h, m, root, vm, b, a);
    LowAddressIsUser(a);
    MappedIsNotMisled(m, root, a, stray);
    ghost var s, k := FlatOf(m), Leaf(root, PageOf(a));
    GoodIsCow(m);
    var result;
    ghost var steps;
    result, steps := UserStore(m, root, vm, a, value, stray);
    ok := result.Resume?;
    if ok { AfterStore(s, k, vm, a, value, steps, root, At(h.start), At(h.brk)); }
  }

  lemma GoodIsCow(m: AddressSpaces)
    requires Good(m)
    ensures CowInv(FlatOf(m))
  {
  }

  lemma MappedIsNotMisled(m: AddressSpaces, root: Frame, a: nat, stray: Entry)
    requires Good(m) && root in m.roots && UserPage(PageOf(a)) && Mapped(m.maps, root, a)
    ensures !Misled(m.mem, root, PageOf(a), stray)
  {
    hide Inv, RefsOk, PageOf, CowInv;
    MappedIsPresent(m.View(), root, PageOf(a));
  }

  lemma AfterStore(s: Flat, k: Pos, vm: seq<Vma>, a: nat, value: Byte, steps: seq<Step>,
                   root: Frame, low: nat, high: nat)
    requires CowInv(s) && ValidRun(s, steps) && k in s.maps && vm != [] && ValidAddress(vm, a)
    requires StorePerforms(s, k, vm, a, value, steps) && AreaMapped(s.maps, root, low, high)
    ensures Run(s, steps).roots == s.roots && AreaMapped(Run(s, steps).maps, root, low, high)
    ensures Reads(Run(s, steps)) == EagerApply(Reads(s), Store(k, OffsetOf(a), value))
  {
    hide CowInv, Reads, EagerApply, ValidAddress, AreaMapped, OffsetOf;
    StoreIsTakenIff(s, k, vm, a, value, steps);
    assert Spares(steps, root);
    RunKeepsArea(s, steps, root, low, high);
    RunKeepsRoots(s, steps);
  }

  lemma {:induction false} RunKeepsRoots(s: Flat, steps: seq<Step>)
    requires ValidRun(s, steps) && forall st :: st in steps ==> st.MapFresh? || st.CopyOnWrite? || st.Store?
    ensures Run(s, steps).roots == s.roots
    decreases |steps|
  {
    hide Apply, Enabled;
    if steps != [] {
      assert steps[0] in steps;
      StepKeepsRoots(s, steps[0]);
      RunKeepsRoots(Apply(s, steps[0]), steps[1..]);
    }
  }

  lemma StepKeepsRoots(s: Flat, st: Step)
    requires Enabled(s, st) && (st.MapFresh? || st.CopyOnWrite? || st.Store?)
    ensures Apply(s, st).roots == s.roots
  {
  }
}
