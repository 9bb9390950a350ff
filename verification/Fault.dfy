/**
 User-level memory events as the kernel handles them: fork's address-space copy, a
 fresh mapping, a user store with the page-fault handler behind it, exec and reaping.
 Each method is proved to be one or two steps of the machine of CowModel.
 */
module Fault {
  import opened PageModel
  import opened TreeCopy
  import opened CowModel
  import opened Paging
  import opened Address
  import FL = FrameList

  // ---------- From the machine to the flat machine ----------

  ghost function DataOf(mem: seq<Page>): map<Frame, Bytes> {
    map f: nat | f < |mem| && IsData(mem[f]) :: mem[f].bytes
  }

  ghost function FlatOf(m: AddressSpaces): Flat
    reads m, m.frames
  {
    Flat(m.maps, DataOf(m.mem), m.frames.free, m.roots)
  }

  ghost predicate Good(m: AddressSpaces)
    reads m, m.frames, m.frames.pagelist
  {
    m.Valid() && CowInv(FlatOf(m)) && KernelLinked(m.mem, m.kernelTable, m.maps, m.roots)
  }

  // ---------- The kernel in every address space ----------

  ghost predicate MapsNothing(maps: map<Pos, Entry>, r: Frame) {
    forall k :: k in maps ==> RootOf(k) != r
  }

  /** Every root that maps anything links the kernel's table in slot 511. */
  ghost predicate KernelLinked(mem: seq<Page>, kernelTable: Frame, maps: map<Pos, Entry>, roots: set<Frame>) {
    forall r :: r in roots ==> Word(mem, r, 511) == UserEntry(kernelTable) || MapsNothing(maps, r)
  }

  lemma LinkedAfterRoot(mem: seq<Page>, mem': seq<Page>, kt: Frame, maps: map<Pos, Entry>, roots: set<Frame>, c: Frame)
    requires KernelLinked(mem, kt, maps, roots) && MapsNothing(maps, c)
    requires forall r :: r in roots ==> Word(mem', r, 511) == Word(mem, r, 511)
    ensures KernelLinked(mem', kt, maps, roots + {c})
  {
  }

  lemma LinkedAfterFork(mem: seq<Page>, mem': seq<Page>, kt: Frame, maps: map<Pos, Entry>, roots: set<Frame>,
                        p: Frame, c: Frame)
    requires KernelLinked(mem, kt, maps, roots) && p in roots && p != c && c !in roots
    requires forall k :: k in maps ==> RootOf(k) in roots
    requires forall r :: r in roots ==> Word(mem', r, 511) == Word(mem, r, 511)
    requires Word(mem', c, 511) == Word(mem, p, 511)
    ensures KernelLinked(mem', kt, ForkMaps(maps, p, c), roots + {c})
  {
    forall r | r in roots + {c}
      ensures Word(mem', r, 511) == UserEntry(kt) || MapsNothing(ForkMaps(maps, p, c), r)
    {
      var q := if r == c then p else r;
      if MapsNothing(maps, q) {
        forall k | k in ForkMaps(maps, p, c) ensures RootOf(k) != r {
          ForkMapsAt(maps, p, c, k);
        }
      }
    }
  }

  lemma LinkedAfterMap(mem: seq<Page>, mem': seq<Page>, kt: Frame, maps: map<Pos, Entry>, roots: set<Frame>,
                       k: Pos, e: Entry)
    requires KernelLinked(mem, kt, maps, roots) && Word(mem', RootOf(k), 511) == UserEntry(kt)
    requires forall r :: r in roots && r != RootOf(k) ==> Word(mem', r, 511) == Word(mem, r, 511)
    ensures KernelLinked(mem', kt, maps[k := e], roots)
  {
  }

  lemma LinkedAfterRemoval(mem: seq<Page>, mem': seq<Page>, kt: Frame, maps: map<Pos, Entry>, maps': map<Pos, Entry>,
                           roots: set<Frame>)
    requires KernelLinked(mem, kt, maps, roots) && KernelSlotsKept(mem, mem', roots)
    requires forall k :: k in maps' ==> k in maps
    ensures KernelLinked(mem', kt, maps', roots)
  {
  }

  lemma LinkedAfterData(s: Phys, kt: Frame, f: Frame, pg: Page)
    requires Inv(s) && f < |s.mem| && IsData(s.mem[f]) && KernelLinked(s.mem, kt, s.maps, s.roots)
    ensures KernelLinked(s.mem[f := pg], kt, s.maps, s.roots)
  {
    hide Inv;
    forall r | r in s.roots ensures Word(s.mem[f := pg], r, 511) == Word(s.mem, r, 511) {
      RootHasTable(s, r);
      TableAt(s, Top(r));
    }
  }

  /** The frames handed out between two states are a prefix of the earlier free list. */
  lemma TakenIsPrefix(given0: seq<nat>, free0: seq<nat>, given1: seq<nat>, free1: seq<nat>)
    requires given0 + free0 == given1 + free1 && given0 <= given1 && FL.NoDup(given0 + free0)
    ensures var n := |given1| - |given0|;
            && 0 <= n <= |free0| && free1 == free0[n..]
            && forall f :: f in free0[..n] <==> f in given1 && f !in given0
  {
    var n := |given1| - |given0|;
    assert |free1| == |free0| - n;
    assert given1 == (given1 + free1)[..|given1|] == (given0 + free0)[..|given1|] == given0 + free0[..n];
    assert free1 == (given1 + free1)[|given1|..] == free0[n..];
    forall f | f in free0[..n] ensures f !in given0 {
      var i :| 0 <= i < n && free0[i] == f;
      assert (given0 + free0)[|given0| + i] == f;
      forall j | 0 <= j < |given0| ensures given0[j] != f {
        assert (given0 + free0)[j] == given0[j];
      }
    }
  }

  lemma FirstTaken(given0: seq<nat>, free0: seq<nat>, given1: seq<nat>, given2: seq<nat>, free2: seq<nat>, g: nat)
    requires given0 + free0 == given2 + free2 && given1 == given0 + [g] && given1 <= given2
    ensures free0 != [] && free0[0] == g
  {
    assert (given0 + free0)[|given0|] == (given2 + free2)[|given0|] == given2[|given0|] == given1[|given0|];
  }

  /** Beyond the first frame, the frames taken are those taken since. */
  lemma TakenAfterFirst(given0: seq<nat>, given2: seq<nat>, free0: seq<nat>, g: nat, n: nat)
    requires 1 <= n <= |free0| && free0[0] == g && FL.NoDup(given0 + free0)
    requires forall f :: f in free0[..n] <==> f in given2 && f !in given0
    ensures forall f :: f in free0[1..n] <==> f in given2 && f !in given0 + [g]
  {
    assert free0[..n] == [g] + free0[1..n];
    forall i | 1 <= i < n ensures free0[i] != g {
      assert (given0 + free0)[|given0| + i] != (given0 + free0)[|given0|];
    }
  }

  lemma OnlyTablesPrefix(mem0: seq<Page>, mem1: seq<Page>, given0: seq<nat>, given1: seq<nat>)
    requires OnlyTables(mem0, mem1, given0, given1)
    ensures given0 <= given1
  {
  }

  lemma KeysInRoots(s: Flat)
    requires CowInv(s)
    ensures forall k :: k in s.maps ==> RootOf(k) in s.roots
  {
    forall k | k in s.maps ensures RootOf(k) in s.roots {
      assert EntryOk(s, k);
    }
  }

  /** Building tables takes their frames out of the data and leaves the rest. */
  lemma DataAfterTables(mem0: seq<Page>, mem1: seq<Page>, given0: seq<nat>, given1: seq<nat>, taken: seq<nat>)
    requires OnlyTables(mem0, mem1, given0, given1)
    requires forall f :: f in taken <==> f in given1 && f !in given0
    ensures DataOf(mem1) == WithoutFrames(DataOf(mem0), taken)
  {
    forall f | 0 <= f < |mem0|
      ensures f in DataOf(mem1) <==> f in DataOf(mem0) && f !in taken
      ensures f in DataOf(mem1) ==> mem1[f] == mem0[f]
    {
      assert TableOrSame(mem0[f], mem1[f], f in given1 && f !in given0);
    }
  }

  lemma DataAfterWrite(mem: seq<Page>, f: Frame, bytes: Bytes)
    requires f < |mem| && IsData(mem[f]) && |bytes| == PAGE_SIZE
    ensures DataOf(mem[f := Data(bytes)]) == DataOf(mem)[f := bytes]
  {
  }

  lemma WithoutNothing(d: map<Frame, Bytes>)
    ensures WithoutFrames(d, []) == d
  {
  }

  /** Cloning the whole tree of a task is the fork of the flat machine. */
  lemma ClonedIsFork(s: Phys, maps: map<Pos, Entry>, p: Frame, c: Frame)
    requires Inv(s) && p != c && (forall k :: k in s.maps ==> RootOf(k) != c)
    requires Cloned(s.maps, maps, Top(p), c, 511)
    ensures maps == ForkMaps(s.maps, p, c)
  {
    hide Inv;
    forall k
      ensures k in maps <==> k in ForkMaps(s.maps, p, c)
      ensures k in maps ==> maps[k] == ForkMaps(s.maps, p, c)[k]
    {
      assert ClonedAt(s.maps, maps, Top(p), c, 511, k);
      ForkMapsAt(s.maps, p, c, k);
      BelowRoot(s, p, k);
      BelowRoot(s, p, Retarget(k, p));
    }
  }

  lemma BelowRoot(s: Phys, r: Frame, k: Pos)
    requires Inv(s)
    ensures k in s.maps ==> (Below(Top(r), 511, k) <==> RootOf(k) == r)
  {
    hide Inv;
    if k in s.maps {
      MappedAt(s, k);
      ViaBound(s, Top(r), k);
      ViaTop(r, k);
    }
  }

  /** Removing a task's tree is the removal of the flat machine. */
  lemma PrunedIsRemoval(s: Phys, r: Frame)
    requires Inv(s)
    ensures Pruned(s.maps, Top(r), 511) == WithoutRoot(s.maps, r)
  {
    hide Inv;
    forall k | k in s.maps ensures Below(Top(r), 511, k) <==> RootOf(k) == r {
      BelowRoot(s, r, k);
    }
    hide Below;
  }

  /** What a task reads is what lies in the frame the MMU finds for it. */
  lemma ReadsAreMemory(m: AddressSpaces, r: Frame, v: VPage)
    requires Good(m) && r in m.roots && UserPage(v)
    ensures Leaf(r, v) in Reads(FlatOf(m)) <==> Walk(m.mem, r, v).Some?
    ensures Walk(m.mem, r, v).Some? ==>
      var f := Walk(m.mem, r, v).value.frame;
      f < |m.mem| && IsData(m.mem[f]) && Reads(FlatOf(m))[Leaf(r, v)] == m.mem[f].bytes
  {
    hide Inv, RefsOk, FL.Linked, FL.NoDup, FL.Counted, CowInv, KernelLinked, Walk, Reads;
    WalkIsFlat(m.View(), r, v);
    ReadsAt(FlatOf(m), Leaf(r, v));
    if Leaf(r, v) in m.maps {
      MappedAt(m.View(), Leaf(r, v));
      EntryAt(FlatOf(m), Leaf(r, v));
    }
  }

  // ---------- Boot, fork, exec and reaping ----------

  /** The machine the constructor of AddressSpaces leaves is a start of runs. */
  lemma BootIsGood(m: AddressSpaces)
    requires m.Valid() && m.maps == map[] && m.roots == {}
    ensures Good(m) && Reads(FlatOf(m)) == map[]
  {
    hide StoredOk, RootsOk, LinkOk, LeafOk, AbsentOk, MappedOk, RefsOk, FL.Linked;
    FL.NoDupSplit(m.frames.given, m.frames.free);
    forall f | f in m.frames.free ensures f in DataOf(m.mem) && |DataOf(m.mem)[f]| == PAGE_SIZE {
      FreeAt(m.View(), f);
    }
  }

  /** createNewTask's root: a zeroed fresh frame. */
  method CreateSpace(m: AddressSpaces) returns (ok: bool, root: Frame)
    requires Good(m)
    modifies m, m.frames, m.frames.pagelist
    ensures !ok ==> m.frames.free == []
    ensures ok ==> Good(m) && Enabled(old(FlatOf(m)), Create(root))
    ensures ok ==> FlatOf(m) == Apply(old(FlatOf(m)), Create(root))
  {
    hide Inv, RefsOk, OnlyTables, Extends, FL.Linked, FL.NoDup, FL.Counted, CowInv, KernelLinked;
    ghost var s0, f0, mem0, given0 := m.View(), FlatOf(m), m.mem, m.frames.given;
    ok, root := m.NewRootTable();
    if ok {
      ghost var given1 := m.frames.given;
      ExtendsMeans(mem0, s0.tab, given0, m.mem, m.tab, given1, s0.roots, root);
      FirstTaken(given0, f0.free, given1, given1, m.frames.free, root);
      TakenIsPrefix(given0, f0.free, given1, m.frames.free);
      DataAfterTables(mem0, m.mem, given0, given1, [root]);
      KeysInRoots(f0);
      LinkedAfterRoot(mem0, m.mem, m.kernelTable, m.maps, s0.roots, root);
      StepKeepsInv(f0, Create(root));
    }
  }

  /** copytask's address-space half: a fresh zeroed root, then copytables. */
  method ForkSpace(m: AddressSpaces, parent: Frame) returns (ok: bool, child: Frame, ghost taken: nat)
    requires Good(m) && parent in m.roots
    modifies m, m.frames, m.frames.pagelist
    ensures !ok ==> m.frames.free == []
    ensures ok ==> Good(m) && Enabled(old(FlatOf(m)), Fork(parent, child, taken))
    ensures ok ==> FlatOf(m) == Apply(old(FlatOf(m)), Fork(parent, child, taken))
    ensures ok ==> Word(m.mem, child, 511) == old(Word(m.mem, parent, 511))
  {
    hide Inv, RefsOk, OnlyTables, Extends, FL.Linked, FL.NoDup, FL.Counted, CowInv, KernelLinked, Cloned;
    ghost var s0, f0, mem0, given0 := m.View(), FlatOf(m), m.mem, m.frames.given;
    taken := 0;
    ok, child := m.NewRootTable();
    if !ok { return; }
    ghost var s1, mem1, tab1, given1 := m.View(), m.mem, m.tab, m.frames.given;
    ok := m.CopyTables(parent, child);
    if !ok { return; }
    ghost var given2 := m.frames.given;
    ExtendsMeans(mem0, s0.tab, given0, mem1, tab1, given1, s0.roots, child);
    OnlyTablesTrans(mem0, mem1, m.mem, given0, given1, given2);
    OnlyTablesPrefix(mem1, m.mem, given1, given2);
    taken := |given2| - |given0|;
    FirstTaken(given0, f0.free, given1, given2, m.frames.free, child);
    TakenIsPrefix(given0, f0.free, given2, m.frames.free);
    DataAfterTables(mem0, m.mem, given0, given2, f0.free[..taken]);
    KeysInRoots(f0);
    ClonedIsFork(s1, m.maps, parent, child);
    LinkedAfterFork(mem0, m.mem, m.kernelTable, s0.maps, s0.roots, parent, child);
    StepKeepsInv(f0, Fork(parent, child, taken));
  }

  /** getFreeFrame followed by initTaskPagetables: exec's segments, the stack, the heap. */
  method MapFreshPage(m: AddressSpaces, root: Frame, v: VPage) returns (ok: bool, ghost step: Step)
    requires Good(m) && root in m.roots && UserPage(v)
    modifies m, m.frames, m.frames.pagelist
    ensures !ok ==> m.frames.free == []
    ensures ok ==> Good(m) && step.MapFresh? && step.page == Leaf(root, v)
    ensures ok ==> Enabled(old(FlatOf(m)), step) && FlatOf(m) == Apply(old(FlatOf(m)), step)
  {
    hide Inv, RefsOk, OnlyTables, FL.Linked, FL.NoDup, FL.Counted, CowInv, KernelLinked, Walk;
    ghost var f0, mem0, given0 := FlatOf(m), m.mem, m.frames.given;
    step := Reap(root);
    var g;
    ok, g := m.TakeFrame();
    if !ok { return; }
    ghost var given1 := m.frames.given;
    ok := m.InitTaskPagetables(v, g, root);
    if !ok { return; }
    ghost var given2 := m.frames.given;
    OnlyTablesPrefix(mem0, m.mem, given1, given2);
    ghost var taken := |given2| - |given0|;
    FirstTaken(given0, f0.free, given1, given2, m.frames.free, g);
    TakenIsPrefix(given0, f0.free, given2, m.frames.free);
    TakenAfterFirst(given0, given2, f0.free, g, taken);
    DataAfterTables(mem0, m.mem, given1, given2, f0.free[1..taken]);
    PathFacts(root, v);
    step := MapFresh(Leaf(root, v), f0.data[g], taken);
    LinkedAfterMap(mem0, m.mem, m.kernelTable, f0.maps, f0.roots, Leaf(root, v), UserEntry(g));
    StepKeepsInv(f0, step);
  }

  /** copyNewMemory: a private copy of the page under the address that faulted. */
  method CopyNewMemory(m: AddressSpaces, root: Frame, v: VPage) returns (ok: bool)
    requires Good(m) && root in m.roots && UserPage(v)
    requires Leaf(root, v) in m.maps && Entry0(m.maps, Leaf(root, v)).cow
    modifies m, m.frames, m.frames.pagelist
    ensures !ok ==> m.frames.free == []
    ensures ok ==> Good(m) && Enabled(old(FlatOf(m)), CopyOnWrite(Leaf(root, v)))
    ensures ok ==> FlatOf(m) == Apply(old(FlatOf(m)), CopyOnWrite(Leaf(root, v)))
  {
    hide Inv, RefsOk, OnlyTables, FL.Linked, FL.NoDup, FL.Counted, CowInv, KernelLinked, Walk;
    ghost var s0, f0, mem0, given0 := m.View(), FlatOf(m), m.mem, m.frames.given;
    ParentHasTable(s0, Leaf(root, v));
    EntryAt(f0, Leaf(root, v));
    MappedAt(s0, Leaf(root, v));
    WalkIsFlat(s0, root, v);
    var source := Walk(m.mem, root, v).value.frame;
    var g;
    ok, g := m.TakeFrame();
    if !ok { return; }
    ghost var given1 := m.frames.given;
    ghost var s1 := m.View();
    m.WriteData(g, m.mem[source].bytes);
    ghost var mem1 := m.mem;
    ok := m.InitTaskPagetables(v, g, root);
    FirstTaken(given0, f0.free, given1, m.frames.given, m.frames.free, g);
    TakenIsPrefix(given0, f0.free, m.frames.given, m.frames.free);
    DataAfterTables(mem1, m.mem, given1, given1, []);
    WithoutNothing(DataOf(mem1));
    DataAfterWrite(mem0, g, mem0[source].bytes);
    PathFacts(root, v);
    LinkedAfterData(s1, m.kernelTable, g, Data(mem0[source].bytes));
    LinkedAfterMap(mem1, m.mem, m.kernelTable, f0.maps, f0.roots, Leaf(root, v), UserEntry(g));
    StepKeepsInv(f0, CopyOnWrite(Leaf(root, v)));
  }

  /** deallocTask, as exec calls it. */
  method ClearSpace(m: AddressSpaces, root: Frame)
    requires Good(m) && root in m.roots
    modifies m
    ensures Good(m) && Enabled(old(FlatOf(m)), Dealloc(root)) && Bare(m.View(), Top(root))
    ensures FlatOf(m) == Apply(old(FlatOf(m)), Dealloc(root))
  {
    hide Inv, RefsOk, OnlyTables, FL.Linked, FL.NoDup, FL.Counted, CowInv, KernelLinked, Walk, Pruned;
    ghost var s0, f0, mem0 := m.View(), FlatOf(m), m.mem;
    m.DeallocTask(root);
    PrunedIsRemoval(s0, root);
    LinkedAfterRemoval(mem0, m.mem, m.kernelTable, s0.maps, m.maps, s0.roots);
    DataAfterTables(mem0, m.mem, m.frames.given, m.frames.given, []);
    WithoutNothing(DataOf(mem0));
    StepKeepsInv(f0, Dealloc(root));
  }

  /** removeProcess: deallocTask, and the root is gone with the task. */
  method ReapSpace(m: AddressSpaces, root: Frame)
    requires Good(m) && root in m.roots
    modifies m
    ensures Good(m) && Enabled(old(FlatOf(m)), Reap(root))
    ensures FlatOf(m) == Apply(old(FlatOf(m)), Reap(root))
  {
    hide Inv, RefsOk, OnlyTables, FL.Linked, FL.NoDup, FL.Counted, CowInv, KernelLinked, Walk, Pruned;
    ghost var f0 := FlatOf(m);
    ClearSpace(m, root);
    FewerRoots(m.mem, m.kernelTable, m.maps, m.roots, root);
    m.ForgetRoot(root);
    StepKeepsInv(f0, Reap(root));
  }

  lemma FewerRoots(mem: seq<Page>, kt: Frame, maps: map<Pos, Entry>, roots: set<Frame>, r: Frame)
    requires KernelLinked(mem, kt, maps, roots)
    ensures KernelLinked(mem, kt, maps, roots - {r})
  {
  }

  // ---------- The page-fault handler ----------

  /** The tag of the word the handler looks at tells a shared page from an unmapped one. */
  lemma MappedMeans(m: AddressSpaces, root: Frame, v: VPage, entry: Entry, stray: Entry)
    requires Good(m) && root in m.roots && UserPage(v)
    requires !Entry0(m.maps, Leaf(root, v)).writable
    requires LeafTable(root, v) in m.tab ==> entry == Word(m.mem, m.tab[LeafTable(root, v)], v.i1)
    requires LeafTable(root, v) !in m.tab ==> entry == stray
    ensures LeafTable(root, v) in m.tab || !stray.cow ==> (entry.cow <==> Leaf(root, v) in m.maps)
    ensures LeafTable(root, v) !in m.tab ==> Leaf(root, v) !in m.maps
    ensures Leaf(root, v) in m.maps ==> Entry0(m.maps, Leaf(root, v)).cow
  {
    hide Inv, RefsOk, FL.Linked, FL.NoDup, FL.Counted, CowInv, KernelLinked;
    PathFacts(root, v);
    if Leaf(root, v) in m.maps {
      ParentHasTable(m.View(), Leaf(root, v));
      EntryAt(FlatOf(m), Leaf(root, v));
      LeafAt(m.View(), LeafTable(root, v), v.i1);
    } else if LeafTable(root, v) in m.tab {
      LeafAt(m.View(), LeafTable(root, v), v.i1);
      AbsentAt(m.View(), LeafTable(root, v), v.i1);
    }
  }

  /** A task's memory areas, newest first; the first is the stack, from its top page down. */
  datatype Vma = Vma(beginAddress: nat, lastAddress: nat)

  predicate InSome(vm: seq<Vma>, v: nat) {
    exists i :: 0 <= i < |vm| && vm[i].beginAddress < v < vm[i].lastAddress
  }

  predicate ValidAddress(vm: seq<Vma>, v: nat)
    requires vm != []
  {
    (vm[0].beginAddress + 0x1000 > v && vm[0].lastAddress < v) || InSome(vm, v)
  }

  predicate Grows(vm: seq<Vma>, v: nat)
    requires vm != []
  {
    vm[0].lastAddress < v < vm[0].beginAddress
  }

  method CheckForVM(vm: seq<Vma>, cr2: nat) returns (flag: bool)
    ensures flag <==> exists i :: 0 <= i < |vm| && vm[i].beginAddress < cr2 < vm[i].lastAddress
  {
    flag := false;
    var n := 0;
    while n < |vm|
      invariant n <= |vm| && !flag
      invariant forall i :: 0 <= i < n ==> !(vm[i].beginAddress < cr2 < vm[i].lastAddress)
    {
      if vm[n].beginAddress < cr2 && vm[n].lastAddress > cr2 {
        flag := true;
        break;
      }
      n := n + 1;
    }
  }

  method CheckValid(vm: seq<Vma>, vmem: nat) returns (isValid: bool)
    requires vm != []
    ensures isValid <==> ValidAddress(vm, vmem)
    ensures isValid <==>
      || vm[0].lastAddress < vmem < vm[0].beginAddress + 0x1000
      || exists i :: 0 <= i < |vm| && vm[i].beginAddress < vmem < vm[i].lastAddress
  {
    if vm[0].beginAddress + 0x1000 > vmem && vm[0].lastAddress < vmem {
      isValid := true;
    } else {
      isValid := CheckForVM(vm, vmem);
    }
  }

  /** Are the three upper words on the way to `v` present? */
  function UpperPresent(mem: seq<Page>, r: Frame, v: VPage): bool {
    && Word(mem, r, v.i4).present
    && Word(mem, Word(mem, r, v.i4).frame, v.i3).present
    && Word(mem, Word(mem, Word(mem, r, v.i4).frame, v.i3).frame, v.i2).present
  }

  lemma UpperPresentIsLinked(s: Phys, r: Frame, v: VPage)
    requires Inv(s) && r in s.roots && UserPage(v)
    ensures UpperPresent(s.mem, r, v) <==> LeafTable(r, v) in s.tab
  {
    hide Inv;
    PathFacts(r, v);
    RootHasTable(s, r);
    if Word(s.mem, r, v.i4).present {
      LinkFrom(s, Top(r), v.i4);
      if Word(s.mem, s.tab[Sub(Top(r), v.i4)], v.i3).present {
        LinkFrom(s, Sub(Top(r), v.i4), v.i3);
        if Word(s.mem, s.tab[Sub(Sub(Top(r), v.i4), v.i3)], v.i2).present {
          LinkFrom(s, Sub(Sub(Top(r), v.i4), v.i3), v.i2);
        }
      }
    }
    if LeafTable(r, v) in s.tab {
      LinkAt(s, Sub(Sub(Top(r), v.i4), v.i3), v.i2);
      LinkAt(s, Sub(Top(r), v.i4), v.i3);
      LinkAt(s, Top(r), v.i4);
    }
  }

  lemma MappedIsPresent(s: Phys, r: Frame, v: VPage)
    requires Inv(s) && r in s.roots && UserPage(v)
    ensures Leaf(r, v) in s.maps ==> UpperPresent(s.mem, r, v)
  {
    hide Inv;
    UpperPresentIsLinked(s, r, v);
    if Leaf(r, v) in s.maps { ParentHasTable(s, Leaf(r, v)); }
  }

  /**
   Resume retries the access; Exit kills the task; Halt is the empty free list; Refault is
   the fault in the handler's own memcpy, from a page that is not mapped.
   */
  datatype FaultResult = Resume | Exit | Halt | Refault

  /** The handler takes an unmapped page for a shared one: a table is missing, the word found has the tag. */
  predicate Misled(mem: seq<Page>, r: Frame, v: VPage, stray: Entry) {
    stray.cow && !UpperPresent(mem, r, v)
  }

  /** The handler's one step, when it resumes the task. */
  predicate Repairs(s: Flat, k: Pos, step: Step) {
    if k in s.maps then step == CopyOnWrite(k) else step.MapFresh? && step.page == k
  }

  /** When the handler kills the task: a fault outside the areas, or on no growable page. */
  predicate Kills(s: Flat, k: Pos, vm: seq<Vma>, v: nat)
    requires vm != []
  {
    !ValidAddress(vm, v) || (k !in s.maps && !Grows(vm, v))
  }

  /**
   isr14 for an access that faulted.  Where the upper tables of the address are missing,
   getPTE reads through frame 0; `stray` is the word it then finds.
   */
  method PageFault(m: AddressSpaces, root: Frame, vm: seq<Vma>, vaddr: nat, stray: Entry)
    returns (result: FaultResult, ghost step: Step)
    requires Good(m) && root in m.roots && vm != [] && UserPage(PageOf(vaddr))
    requires !Entry0(m.maps, Leaf(root, PageOf(vaddr))).writable
    modifies m, m.frames, m.frames.pagelist
    ensures result.Halt? ==> m.frames.free == []
    ensures !result.Halt? ==>
      (result.Refault? <==> ValidAddress(vm, vaddr) && Misled(old(m.mem), root, PageOf(vaddr), stray))
    ensures result.Refault? ==> Good(m) && FlatOf(m) == FrameLost(old(FlatOf(m)))
    ensures !result.Halt? && !result.Refault? ==>
      (result.Exit? <==> Kills(old(FlatOf(m)), Leaf(root, PageOf(vaddr)), vm, vaddr))
    ensures result.Exit? ==> Good(m) && FlatOf(m) == old(FlatOf(m))
    ensures result.Resume? ==> Good(m) && Repairs(old(FlatOf(m)), Leaf(root, PageOf(vaddr)), step)
    ensures result.Resume? ==> Enabled(old(FlatOf(m)), step) && FlatOf(m) == Apply(old(FlatOf(m)), step)
  {
    hide Inv, RefsOk, OnlyTables, FL.Linked, FL.NoDup, FL.Counted, CowInv, KernelLinked, Walk, PageOf, InSome;
    step := Reap(root);
    var v := PageOf(vaddr);
    var isValid := CheckValid(vm, vaddr);
    if !isValid { return Exit, step; }
    UpperPresentIsLinked(m.View(), root, v);
    var entry := stray;
    if UpperPresent(m.mem, root, v) {
      var pte := m.GetPTE(v, root);
      entry := Word(m.mem, pte, v.i1);
    }
    MappedMeans(m, root, v, entry, stray);
    var ok;
    if entry.cow && !UpperPresent(m.mem, root, v) {
      ok := TakeForCopy(m);
      return if ok then Refault else Halt, step;
    } else if entry.cow {
      ok := CopyNewMemory(m, root, v);
      return if ok then Resume else Halt, CopyOnWrite(Leaf(root, v));
    } else if vm[0].beginAddress > vaddr && vm[0].lastAddress < vaddr {
      ok, step := MapFreshPage(m, root, v);
      return if ok then Resume else Halt, step;
    } else {
      return Exit, step;
    }
  }

  /** The machine with its first free frame gone, and nothing else changed. */
  function FrameLost(s: Flat): Flat {
    if s.free == [] then s else s.(free := s.free[1..])
  }

  lemma LostKeepsInv(s: Flat)
    requires CowInv(s) && s.free != []
    ensures CowInv(FrameLost(s)) && Reads(FrameLost(s)) == Reads(s)
  {
    var s' := FrameLost(s);
    assert FreeListOk(s');
    forall k | k in s'.maps ensures EntryOk(s', k) {
      assert EntryOk(s, k);
    }
    forall k, j | k in s'.maps && j in s'.maps ensures SharedOk(s'.maps, k, j) {
      assert SharedOk(s.maps, k, j);
    }
  }

  /** copyNewMemory up to its memcpy. */
  method TakeForCopy(m: AddressSpaces) returns (ok: bool)
    requires Good(m)
    modifies m.frames, m.frames.pagelist
    ensures !ok ==> m.frames.free == []
    ensures ok ==> Good(m) && FlatOf(m) == FrameLost(old(FlatOf(m)))
  {
    hide Inv, RefsOk, FL.Linked, FL.NoDup, FL.Counted, CowInv, KernelLinked;
    ghost var f0, given0 := FlatOf(m), m.frames.given;
    var g;
    ok, g := m.TakeFrame();
    if ok {
      FirstTaken(given0, f0.free, m.frames.given, m.frames.given, m.frames.free, g);
      TakenIsPrefix(given0, f0.free, m.frames.given, m.frames.free);
      LostKeepsInv(f0);
    }
  }

  /** The store itself, once the MMU lets it through. */
  method StoreByte(m: AddressSpaces, root: Frame, v: VPage, offset: nat, value: Byte)
    requires Good(m) && root in m.roots && UserPage(v) && offset < PAGE_SIZE
    requires Leaf(root, v) in m.maps && Entry0(m.maps, Leaf(root, v)).writable
    modifies m
    ensures Good(m) && Enabled(old(FlatOf(m)), Store(Leaf(root, v), offset, value))
    ensures FlatOf(m) == Apply(old(FlatOf(m)), Store(Leaf(root, v), offset, value))
    ensures Walk(m.mem, root, v) == old(Walk(m.mem, root, v)) && Walk(m.mem, root, v).Some?
    ensures Walk(m.mem, root, v).value.writable
    ensures ByteStored(old(m.mem), m.mem, Walk(m.mem, root, v).value.frame, offset, value)
  {
    hide Inv, RefsOk, OnlyTables, FL.Linked, FL.NoDup, FL.Counted, CowInv, KernelLinked, Walk;
    ghost var f0 := FlatOf(m);
    MappedAt(m.View(), Leaf(root, v));
    EntryAt(f0, Leaf(root, v));
    WalkIsFlat(m.View(), root, v);
    var f := Walk(m.mem, root, v).value.frame;
    DataAfterWrite(m.mem, f, m.mem[f].bytes[offset := value]);
    LinkedAfterData(m.View(), m.kernelTable, f, Data(m.mem[f].bytes[offset := value]));
    m.WriteData(f, m.mem[f].bytes[offset := value]);
    StepKeepsInv(f0, Store(Leaf(root, v), offset, value));
    WalkIsFlat(m.View(), root, v);
  }

  /** One byte of one frame has changed. */
  predicate ByteStored(before: seq<Page>, after: seq<Page>, f: Frame, offset: nat, value: Byte) {
    && f < |before| == |after| && IsData(before[f]) && offset < PAGE_SIZE
    && after == before[f := Data(before[f].bytes[offset := value])]
  }

  lemma ByteIsThere(before: seq<Page>, after: seq<Page>, f: Frame, offset: nat, value: Byte)
    requires ByteStored(before, after, f, offset, value)
    ensures f < |after| && IsData(after[f]) && offset < PAGE_SIZE && after[f].bytes[offset] == value
    ensures forall i :: 0 <= i < PAGE_SIZE && i != offset ==> after[f].bytes[i] == before[f].bytes[i]
    ensures forall g :: 0 <= g < |after| && g != f ==> after[g] == before[g]
  {
  }

  /**
   One user store.  A writable page takes it directly; otherwise the handler runs, and
   if it resumes the task the store is tried again and succeeds.  The task is killed, its
   memory untouched, exactly when the page is not writable and the handler kills.
   */
  method UserStore(m: AddressSpaces, root: Frame, vm: seq<Vma>, vaddr: nat, value: Byte, stray: Entry)
    returns (result: FaultResult, ghost steps: seq<Step>)
    requires Good(m) && root in m.roots && vm != [] && UserPage(PageOf(vaddr))
    modifies m, m.frames, m.frames.pagelist
    ensures result.Halt? ==> m.frames.free == []
    ensures !result.Halt? ==>
      (result.Refault? <==> ValidAddress(vm, vaddr) && Misled(old(m.mem), root, PageOf(vaddr), stray))
    ensures result.Refault? ==> Good(m) && FlatOf(m) == FrameLost(old(FlatOf(m))) && steps == []
    ensures result.Exit? || result.Resume? ==>
      Good(m) && ValidRun(old(FlatOf(m)), steps) && FlatOf(m) == Run(old(FlatOf(m)), steps)
    ensures var s, k := old(FlatOf(m)), Leaf(root, PageOf(vaddr));
            var store := Store(k, OffsetOf(vaddr), value);
            && (result.Exit? || result.Resume? ==>
                  (result.Exit? <==> !Entry0(s.maps, k).writable && Kills(s, k, vm, vaddr)))
            && (result.Exit? ==> steps == [])
            && (result.Resume? ==>
                  if Entry0(s.maps, k).writable then steps == [store]
                  else |steps| == 2 && Repairs(s, k, steps[0]) && steps[1] == store)
    ensures result.Resume? ==>
      var e := Walk(m.mem, root, PageOf(vaddr));
      e.Some? && e.value.writable && e.value.frame < |m.mem| && IsData(m.mem[e.value.frame]) &&
      m.mem[e.value.frame].bytes[OffsetOf(vaddr)] == value
  {
    hide Inv, RefsOk, OnlyTables, FL.Linked, FL.NoDup, FL.Counted, CowInv, KernelLinked, Walk, PageOf, Kills;
    hide UpperPresent, ValidAddress, ByteStored;
    ghost var f0, k := FlatOf(m), Leaf(root, PageOf(vaddr));
    steps := [];
    var v := PageOf(vaddr);
    WalkIsFlat(m.View(), root, v);
    var e := Walk(m.mem, root, v);
    MappedIsPresent(m.View(), root, v);
    if e.None? || !e.value.writable {
      ghost var step;
      result, step := PageFault(m, root, vm, vaddr, stray);
      if !result.Resume? { return; }
      RunAppend(f0, steps, step);
      steps := steps + [step];
    }
    result := Resume;
    RunAppend(f0, steps, Store(k, OffsetOf(vaddr), value)) by {
      StoreEnabled(FlatOf(m), k, OffsetOf(vaddr), value);
    }
    steps := steps + [Store(k, OffsetOf(vaddr), value)];
    ghost var before := m.mem;
    StoreByte(m, root, v, OffsetOf(vaddr), value);
    ByteIsThere(before, m.mem, Walk(m.mem, root, v).value.frame, OffsetOf(vaddr), value);
  }

  lemma StoreEnabled(s: Flat, k: Pos, offset: nat, value: Byte)
    requires CowInv(s) && k in s.maps && Entry0(s.maps, k).writable && offset < PAGE_SIZE
    ensures Enabled(s, Store(k, offset, value))
  {
    hide CowInv;
    EntryAt(s, k);
  }

  // ---------- The kernel's sbrk ----------

  /**
   malloc of sys/process.c: map pages at the end of the heap area, the second of the
   task's areas.  Every byte of the grown part then lies in a writable page of the task.
   */
  method KernelMalloc(m: AddressSpaces, root: Frame, vm: seq<Vma>, bytes: int)
    returns (ok: bool, ret: nat, vm': seq<Vma>, ghost steps: seq<Step>)
    requires Good(m) && root in m.roots && |vm| >= 2 && vm[1].lastAddress % 0x1000 == 0
    requires vm[1].lastAddress + (if PagesFor(bytes) > 0 then PagesFor(bytes) else 0) * 0x1000 <= 0xFF80_0000_0000
    modifies m, m.frames, m.frames.pagelist
    ensures !ok ==> m.frames.free == []
    ensures ok ==> ret == vm[1].lastAddress && |vm'| == |vm|
    ensures ok ==> (forall i :: 0 <= i < |vm| && i != 1 ==> vm'[i] == vm[i])
    ensures ok ==> vm'[1].beginAddress == vm[1].beginAddress
    ensures ok ==> vm'[1].lastAddress == ret + (if PagesFor(bytes) > 0 then PagesFor(bytes) else 0) * 0x1000
    ensures ok && bytes >= 0 ==> ret + bytes < vm'[1].lastAddress
    ensures ok ==> Good(m) && ValidRun(old(FlatOf(m)), steps) && FlatOf(m) == Run(old(FlatOf(m)), steps)
    ensures ok ==> forall a :: ret <= a < vm'[1].lastAddress ==> Entry0(m.maps, Leaf(root, PageOf(a))).writable
    ensures ok ==> forall st :: st in steps ==> st.MapFresh? && RootOf(st.page) == root
    ensures ok ==> StillWritable(old(m.maps), m.maps) && StillMapped(old(m.maps), m.maps) && m.roots == old(m.roots)
  {
    hide Inv, RefsOk, OnlyTables, FL.Linked, FL.NoDup, FL.Counted, CowInv, KernelLinked, Walk, PageOf, Apply, Enabled;
    ret, vm', steps, ok := vm[1].lastAddress, vm, [], true;
    ghost var f0 := FlatOf(m);
    var n := PagesFor(bytes);
    var i := 0;
    while i < n
      invariant 0 <= i && (n >= 0 ==> i <= n) && (n < 0 ==> i == 0)
      invariant Good(m) && m.roots == old(m.roots)
      invariant |vm'| == |vm| && (forall j :: 0 <= j < |vm| && j != 1 ==> vm'[j] == vm[j])
      invariant vm'[1] == Vma(vm[1].beginAddress, ret + i * 0x1000)
      invariant ValidRun(f0, steps) && FlatOf(m) == Run(f0, steps)
      invariant forall a :: ret <= a < ret + i * 0x1000 ==> Entry0(m.maps, Leaf(root, PageOf(a))).writable
      invariant forall st :: st in steps ==> st.MapFresh? && RootOf(st.page) == root
      invariant StillWritable(f0.maps, m.maps) && StillMapped(f0.maps, m.maps)
    {
      var last := vm'[1].lastAddress;
      LowAddressIsUser(last);
      ghost var step;
      ok, step := MapFreshPage(m, root, PageOf(last));
      if !ok { return; }
      MapFreshMeans(Run(f0, steps), step);
      PathFacts(root, PageOf(last));
      RunAppend(f0, steps, step);
      steps := steps + [step];
      forall a | last <= a < last + 0x1000 ensures PageOf(a) == PageOf(last) {
        SamePage(last, a);
      }
      vm' := vm'[1 := Vma(vm'[1].beginAddress, last + 0x1000)];
      i := i + 1;
    }
  }

  /** What could be written before can be written still. */
  ghost predicate StillWritable(before: map<Pos, Entry>, after: map<Pos, Entry>) {
    forall k :: Entry0(before, k).writable ==> Entry0(after, k).writable
  }

  predicate StillMapped(before: map<Pos, Entry>, after: map<Pos, Entry>) {
    forall k :: k in before ==> k in after
  }

  lemma MapFreshMeans(s: Flat, step: Step)
    requires Enabled(s, step) && step.MapFresh?
    ensures Apply(s, step).maps == s.maps[step.page := UserEntry(s.free[0])] && Apply(s, step).roots == s.roots
  {
  }

  // ---------- Whole runs ----------

  /** What user tasks and the kernel do to memory; `vm` are the areas of the storing task. */
  datatype Command =
    | DoCreate
    | DoFork(task: Frame)
    | DoMap(task: Frame, page: VPage)
    | DoStore(task: Frame, vm: seq<Vma>, vaddr: nat, value: Byte, stray: Entry)
    | DoExec(task: Frame)
    | DoReap(task: Frame)

  predicate WellFormed(c: Command) {
    match c
    case DoMap(_, page) => UserPage(page)
    case DoStore(_, vm, vaddr, _, _) => vm != [] && UserPage(PageOf(vaddr))
    case _ => true
  }

  /** The steps a command amounts to in state `s`; a command of a task that is gone is none. */
  predicate Performs(s: Flat, c: Command, steps: seq<Step>)
    requires WellFormed(c)
  {
    if !c.DoCreate? && c.task !in s.roots then steps == [] else
      match c
      case DoCreate => |steps| == 1 && steps[0].Create?
      case DoFork(task) => |steps| == 1 && steps[0].Fork? && steps[0].parent == task
      case DoMap(task, page) => |steps| == 1 && steps[0].MapFresh? && steps[0].page == Leaf(task, page)
      case DoStore(task, vm, vaddr, value, _) =>
        StorePerforms(s, Leaf(task, PageOf(vaddr)), vm, vaddr, value, steps)
      case DoExec(task) => steps == [Dealloc(task)]
      case DoReap(task) => steps == [Reap(task)]
  }

  /** A store alone, a repair and the store, or nothing when the handler kills the task. */
  predicate StorePerforms(s: Flat, k: Pos, vm: seq<Vma>, vaddr: nat, value: Byte, steps: seq<Step>)
    requires vm != []
  {
    var store := Store(k, OffsetOf(vaddr), value);
    if Entry0(s.maps, k).writable then steps == [store]
    else if Kills(s, k, vm, vaddr) then steps == []
    else |steps| == 2 && Repairs(s, k, steps[0]) && steps[1] == store
  }

  function Flatten(parts: seq<seq<Step>>): seq<Step> {
    if parts == [] then [] else Flatten(parts[..|parts| - 1]) + parts[|parts| - 1]
  }

  /** `parts[i]` is what `commands[i]` amounts to in the state the earlier ones led to. */
  ghost predicate PerformsAll(s: Flat, commands: seq<Command>, parts: seq<seq<Step>>)
    requires forall c :: c in commands ==> WellFormed(c)
  {
    && |parts| == |commands|
    && (commands == [] ||
        var n := |commands| - 1;
        && PerformsAll(s, commands[..n], parts[..n])
        && ValidRun(s, Flatten(parts[..n]))
        && Performs(Run(s, Flatten(parts[..n])), commands[n], parts[n]))
  }

  /** A store whose word, should a table be missing, carries the tag: the only command that can refault. */
  predicate MayRefault(c: Command) {
    c.DoStore? && c.vm != [] && c.stray.cow && ValidAddress(c.vm, c.vaddr)
  }

  method Execute(m: AddressSpaces, c: Command) returns (ok: bool, ghost steps: seq<Step>)
    requires Good(m) && WellFormed(c)
    modifies m, m.frames, m.frames.pagelist
    ensures !ok ==> m.frames.free == [] || (MayRefault(c) && Good(m) && Reads(FlatOf(m)) == old(Reads(FlatOf(m))))
    ensures ok ==> Good(m) && ValidRun(old(FlatOf(m)), steps) && FlatOf(m) == Run(old(FlatOf(m)), steps)
    ensures ok ==> Performs(old(FlatOf(m)), c, steps)
    ensures ok && c.DoCreate? ==> |steps| == 1 && steps[0].Create?
    ensures ok && c.DoFork? && c.task in old(m.roots) ==> |steps| == 1 && steps[0].Fork? && steps[0].parent == c.task
    ensures ok && c.DoMap? && c.task in old(m.roots) ==>
      |steps| == 1 && steps[0].MapFresh? && steps[0].page == Leaf(c.task, c.page)
    ensures ok && c.DoExec? && c.task in old(m.roots) ==> steps == [Dealloc(c.task)]
    ensures ok && c.DoReap? && c.task in old(m.roots) ==> steps == [Reap(c.task)]
  {
    hide Inv, RefsOk, OnlyTables, FL.Linked, FL.NoDup, FL.Counted;
    hide CowInv, KernelLinked, Walk, PageOf, Apply, Enabled, Kills;
    steps, ok := [], true;
    ghost var s := FlatOf(m);
    if !c.DoCreate? && c.task !in m.roots { return; }
    match c
    case DoCreate =>
      var root;
      ok, root := CreateSpace(m);
      if ok {
        steps := [Create(root)];
        RunOne(s, steps[0]);
      }
    case DoFork(task) =>
      var child;
      ghost var taken;
      ok, child, taken := ForkSpace(m, task);
      if ok {
        steps := [Fork(task, child, taken)];
        RunOne(s, steps[0]);
      }
    case DoMap(task, page) =>
      ghost var step;
      ok, step := MapFreshPage(m, task, page);
      if ok {
        steps := [step];
        RunOne(s, step);
      }
    case DoStore(task, vm, vaddr, value, stray) =>
      var result;
      result, steps := UserStore(m, task, vm, vaddr, value, stray);
      ok := result.Exit? || result.Resume?;
    case DoExec(task) =>
      ClearSpace(m, task);
      steps := [Dealloc(task)];
      RunOne(s, steps[0]);
    case DoReap(task) =>
      ReapSpace(m, task);
      steps := [Reap(task)];
      RunOne(s, steps[0]);
  }

  /**
   Any sequence of commands on the real tables: unless frames run out, every task ends up
   reading what the eager machine gives it after the steps the commands amount to.
   */
  method ExecuteAll(m: AddressSpaces, commands: seq<Command>) returns (ok: bool, ghost parts: seq<seq<Step>>)
    requires Good(m) && forall c :: c in commands ==> WellFormed(c)
    modifies m, m.frames, m.frames.pagelist
    ensures !ok ==> m.frames.free == [] || exists c :: c in commands && MayRefault(c)
    ensures ok ==> Good(m) && PerformsAll(old(FlatOf(m)), commands, parts)
    ensures ok ==> Reads(FlatOf(m)) == EagerRun(old(Reads(FlatOf(m))), Flatten(parts))
  {
    hide Inv, RefsOk, OnlyTables, FL.Linked, FL.NoDup, FL.Counted, CowInv, KernelLinked, Walk, PageOf;
    hide Apply, Enabled, Reads, Performs;
    parts, ok := [], true;
    ghost var s := FlatOf(m);
    for i := 0 to |commands|
      invariant ok && Good(m) && ValidRun(s, Flatten(parts)) && FlatOf(m) == Run(s, Flatten(parts))
      invariant PerformsAll(s, commands[..i], parts)
    {
      ghost var more;
      ok, more := Execute(m, commands[i]);
      if !ok { return; }
      RunConcat(s, Flatten(parts), more);
      assert (parts + [more])[..i] == parts;
      assert commands[..i + 1][..i] == commands[..i];
      parts := parts + [more];
    }
    assert commands[..|commands|] == commands;
    CowRefinesEagerCopy(s, Flatten(parts));
  }

  /**
   Against the eager machine, which takes every store to a mapped page: the kernel takes
   the store too if and only if the page is writable or the address passes checkValid.
   */
  lemma StoreIsTakenIff(s: Flat, k: Pos, vm: seq<Vma>, vaddr: nat, value: Byte, steps: seq<Step>)
    requires vm != [] && k in s.maps && StorePerforms(s, k, vm, vaddr, value, steps)
    requires CowInv(s) && ValidRun(s, steps)
    ensures Store(k, OffsetOf(vaddr), value) in steps <==> s.maps[k].writable || ValidAddress(vm, vaddr)
    ensures Reads(Run(s, steps)) ==
              if s.maps[k].writable || ValidAddress(vm, vaddr)
              then EagerApply(Reads(s), Store(k, OffsetOf(vaddr), value))
              else Reads(s)
  {
    hide CowInv, Enabled, Apply, Reads, ValidAddress;
    var store := Store(k, OffsetOf(vaddr), value);
    CowRefinesEagerCopy(s, steps);
    if store in steps {
      assert EagerRun(Reads(s), [store]) == EagerRun(EagerApply(Reads(s), store), []) by {
        assert [store][1..] == [];
      }
      if |steps| == 2 {
        assert steps[1..] == [store];
        assert EagerApply(Reads(s), steps[0]) == Reads(s);
      }
    }
  }

  /** A stack area and a program area of two pages. */
  function TwoAreas(): seq<Vma> {
    [Vma(0x100F_FFFF_0000, 0x100F_FEFF_0000), Vma(0x60_0000, 0x60_2000)]
  }

  /** After a fork the parent's page is mapped read-only. */
  lemma ForkShares(s: Flat, r: Frame, c: Frame, n: nat, k: Pos)
    requires CowInv(s) && Enabled(s, Fork(r, c, n)) && k in s.maps && RootOf(k) == r
    ensures CowInv(Apply(s, Fork(r, c, n))) && k in Apply(s, Fork(r, c, n)).maps
    ensures Apply(s, Fork(r, c, n)).maps[k] == CowTag(s.maps[k])
  {
    ForkKeepsInv(s, r, c, n);
    KeysInRoots(s);
    assert c in s.free;
    assert forall j :: j in s.maps ==> RootOf(j) != c by { NoTreeUnderFree(s, c); }
    ForkMapsAt(s.maps, r, c, k);
  }

  lemma NoTreeUnderFree(s: Flat, c: Frame)
    requires CowInv(s) && c in s.free
    ensures forall j :: j in s.maps ==> RootOf(j) != c
  {
    KeysInRoots(s);
  }

  /**
   The strict bounds of checkForVM: the first byte of an area is outside it.  After a
   fork a store there is dropped and kills the task; what the task reads stays as it was,
   where the eager machine would read the stored value.
   */
  lemma FirstByteOfAreaIsKilled(s: Flat, r: Frame, c: Frame, n: nat, value: Byte, steps: seq<Step>)
    requires CowInv(s) && Enabled(s, Fork(r, c, n)) && Leaf(r, PageOf(0x60_0000)) in s.maps
    requires StorePerforms(Apply(s, Fork(r, c, n)), Leaf(r, PageOf(0x60_0000)), TwoAreas(), 0x60_0000, value, steps)
    ensures steps == []
    ensures
      var s', k := Apply(s, Fork(r, c, n)), Leaf(r, PageOf(0x60_0000));
      && k in Reads(s') && |Reads(s')[k]| == PAGE_SIZE
      && (Reads(s')[k][0] != value <==> Reads(Run(s', steps)) != EagerApply(Reads(s'), Store(k, 0, value)))
  {
    hide CowInv, Enabled, Apply, Reads, PageOf, EagerApply;
    var s', k := Apply(s, Fork(r, c, n)), Leaf(r, PageOf(0x60_0000));
    PathFacts(r, PageOf(0x60_0000));
    ForkShares(s, r, c, n, k);
    FirstByteIsOutside();
    assert steps == [];
    assert OffsetOf(0x60_0000) == 0;
    StoreIsTakenIff(s', k, TwoAreas(), 0x60_0000, value, steps);
    PageReads(s', k);
    StoreChanges(Reads(s'), k, value);
  }

  lemma FirstByteIsOutside()
    ensures !ValidAddress(TwoAreas(), 0x60_0000) && ValidAddress(TwoAreas(), 0x60_0001)
  {
    assert TwoAreas()[1].beginAddress < 0x60_0001 < TwoAreas()[1].lastAddress;
  }

  lemma PageReads(s: Flat, k: Pos)
    requires CowInv(s) && k in s.maps
    ensures k in Reads(s) && |Reads(s)[k]| == PAGE_SIZE
  {
    hide CowInv;
    EntryAt(s, k);
    ReadsAt(s, k);
  }

  /** A store changes what its task reads, unless the byte was there already. */
  lemma StoreChanges(e: Spaces, k: Pos, value: Byte)
    requires k in e && |e[k]| == PAGE_SIZE
    ensures e[k][0] != value <==> e != EagerApply(e, Store(k, 0, value))
  {
    if e[k][0] == value {
      assert e[k][0 := value] == e[k];
    } else {
      assert EagerApply(e, Store(k, 0, value))[k][0] == value;
    }
  }

  /** One byte further the store is repaired and taken. */
  lemma SecondByteOfAreaIsTaken(s: Flat, r: Frame, c: Frame, n: nat, value: Byte, steps: seq<Step>)
    requires CowInv(s) && Enabled(s, Fork(r, c, n)) && Leaf(r, PageOf(0x60_0001)) in s.maps
    requires StorePerforms(Apply(s, Fork(r, c, n)), Leaf(r, PageOf(0x60_0001)), TwoAreas(), 0x60_0001, value, steps)
    ensures steps == [CopyOnWrite(Leaf(r, PageOf(0x60_0001))), Store(Leaf(r, PageOf(0x60_0001)), 1, value)]
  {
    hide CowInv, Enabled, Apply, PageOf;
    PathFacts(r, PageOf(0x60_0001));
    ForkShares(s, r, c, n, Leaf(r, PageOf(0x60_0001)));
    FirstByteIsOutside();
    assert OffsetOf(0x60_0001) == 1;
  }

  // ---------- The handler's bounds, written out ----------

  /** When the handler kills, in terms of the areas. */
  lemma KillsMeans(s: Flat, k: Pos, vm: seq<Vma>, v: nat)
    requires vm != []
    ensures Kills(s, k, vm, v) <==>
      || !(|| vm[0].lastAddress < v < vm[0].beginAddress + 0x1000
           || exists i :: 0 <= i < |vm| && vm[i].beginAddress < v < vm[i].lastAddress)
      || (k !in s.maps && !(vm[0].lastAddress < v < vm[0].beginAddress))
  {
  }

  /**
   The stack reaches one page above the beginning of its area: a store there to a page
   that a fork has shared is repaired and taken, like one below.
   */
  lemma StackStoreIsTaken(s: Flat, r: Frame, c: Frame, n: nat, vm: seq<Vma>, v: nat, value: Byte, steps: seq<Step>)
    requires CowInv(s) && Enabled(s, Fork(r, c, n)) && Leaf(r, PageOf(v)) in s.maps
    requires vm != [] && vm[0].lastAddress < v < vm[0].beginAddress + 0x1000
    requires StorePerforms(Apply(s, Fork(r, c, n)), Leaf(r, PageOf(v)), vm, v, value, steps)
    ensures steps == [CopyOnWrite(Leaf(r, PageOf(v))), Store(Leaf(r, PageOf(v)), v % 0x1000, value)]
  {
    hide CowInv, Enabled, Apply, PageOf;
    PathFacts(r, PageOf(v));
    ForkShares(s, r, c, n, Leaf(r, PageOf(v)));
    KillsMeans(Apply(s, Fork(r, c, n)), Leaf(r, PageOf(v)), vm, v);
  }

  /** From there on, outside every other area, it kills the task. */
  lemma AboveStackIsKilled(s: Flat, r: Frame, c: Frame, n: nat, vm: seq<Vma>, v: nat, value: Byte, steps: seq<Step>)
    requires CowInv(s) && Enabled(s, Fork(r, c, n)) && Leaf(r, PageOf(v)) in s.maps
    requires vm != [] && v >= vm[0].beginAddress + 0x1000
    requires forall i :: 0 <= i < |vm| ==> v <= vm[i].beginAddress || v >= vm[i].lastAddress
    requires StorePerforms(Apply(s, Fork(r, c, n)), Leaf(r, PageOf(v)), vm, v, value, steps)
    ensures steps == []
  {
    hide CowInv, Enabled, Apply, PageOf;
    PathFacts(r, PageOf(v));
    ForkShares(s, r, c, n, Leaf(r, PageOf(v)));
    KillsMeans(Apply(s, Fork(r, c, n)), Leaf(r, PageOf(v)), vm, v);
  }

  /** A store to a page not mapped, strictly inside the stack's area, maps a fresh one first. */
  lemma StackGrows(s: Flat, r: Frame, vm: seq<Vma>, v: nat, value: Byte, steps: seq<Step>)
    requires Leaf(r, PageOf(v)) !in s.maps && vm != [] && vm[0].lastAddress < v < vm[0].beginAddress
    requires StorePerforms(s, Leaf(r, PageOf(v)), vm, v, value, steps)
    ensures |steps| == 2 && steps[0].MapFresh? && steps[0].page == Leaf(r, PageOf(v))
    ensures steps[1] == Store(Leaf(r, PageOf(v)), v % 0x1000, value)
  {
    hide PageOf;
    KillsMeans(s, Leaf(r, PageOf(v)), vm, v);
  }

  /** In any other place a store to a page that is not mapped kills the task. */
  lemma ElsewhereIsKilled(s: Flat, r: Frame, vm: seq<Vma>, v: nat, value: Byte, steps: seq<Step>)
    requires Leaf(r, PageOf(v)) !in s.maps && vm != [] && !(vm[0].lastAddress < v < vm[0].beginAddress)
    requires StorePerforms(s, Leaf(r, PageOf(v)), vm, v, value, steps)
    ensures steps == []
  {
    hide PageOf;
    KillsMeans(s, Leaf(r, PageOf(v)), vm, v);
  }
}
