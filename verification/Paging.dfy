/**
 The kernel's user page tables: initTaskPagetables, getPTE, copytables and deallocTask
 as they write physical memory, each proved against the flat map of PageModel.

 Every pointer `kernbase + p` of the kernel is the frame `p` itself.  A method whose
 `ok` comes back false met an empty free list, where the kernel dereferences NULL.
 */
module Paging {
  import opened PageModel
  import opened TreeCopy
  import FL = FrameList

  ghost predicate RefsOk(maps: map<Pos, Entry>, pages: seq<FL.PageInfo>) {
    forall f :: 0 <= f < |pages| ==> Count(maps, f) <= pages[f].refCount
  }

  ghost function Elements(s: seq<Frame>): set<Frame> {
    set f | f in s
  }

  lemma ElementsAfterPop(s: seq<Frame>)
    requires s != [] && s[0] !in s[1..]
    ensures Elements(s[1..]) == Elements(s) - {s[0]}
  {
    assert s == [s[0]] + s[1..];
  }

  lemma RefsAfterTake(maps: map<Pos, Entry>, pages: seq<FL.PageInfo>, g: Frame)
    requires RefsOk(maps, pages) && g < |pages| && Count(maps, g) == 0
    ensures RefsOk(maps, pages[g := pages[g].(refCount := 1)])
  {
  }

  lemma RefsAfterSet(maps: map<Pos, Entry>, pages: seq<FL.PageInfo>, k: Pos, e: Entry)
    requires RefsOk(maps, pages)
    requires (k in maps && maps[k].frame == e.frame) ||
             (e.frame < |pages| ==> Count(maps, e.frame) < pages[e.frame].refCount)
    ensures RefsOk(maps[k := e], pages)
  {
    forall f | 0 <= f < |pages| ensures Count(maps[k := e], f) <= pages[f].refCount {
      CountAfterSet(maps, k, e, f);
    }
  }

  lemma RefsAfterClear(maps: map<Pos, Entry>, pages: seq<FL.PageInfo>, gone: set<Pos>)
    requires RefsOk(maps, pages)
    ensures RefsOk(maps - gone, pages)
  {
    forall f | 0 <= f < |pages| ensures Count(maps - gone, f) <= pages[f].refCount {
      CountAfterClear(maps, gone, f);
    }
  }

  lemma RefsAfterAdd(maps: map<Pos, Entry>, pages: seq<FL.PageInfo>, f: Frame)
    requires RefsOk(maps, pages) && f < |pages|
    ensures RefsOk(maps, pages[f := pages[f].(refCount := pages[f].refCount + 1)])
    ensures Count(maps, f) < pages[f].refCount + 1
  {
  }

  /**
   From state 0 to state 1 the kernel has built tables for `owner` out of fresh frames,
   and touched no other memory than tables.
   */
  ghost predicate Extends(mem0: seq<Page>, tab0: map<Pos, Frame>, given0: seq<Frame>,
                          mem1: seq<Page>, tab1: map<Pos, Frame>, given1: seq<Frame>, roots: set<Frame>, owner: Frame)
  {
    && OnlyTables(mem0, mem1, given0, given1)
    && KernelSlotsKept(mem0, mem1, roots)
    && (forall k :: k in tab0 ==> k in tab1 && tab1[k] == tab0[k])
    && (forall k :: k in tab1 && k !in tab0 ==> RootOf(k) == owner && tab1[k] in given1 && tab1[k] !in given0)
  }

  lemma ExtendsTrans(mem0: seq<Page>, tab0: map<Pos, Frame>, given0: seq<Frame>,
                     mem1: seq<Page>, tab1: map<Pos, Frame>, given1: seq<Frame>,
                     mem2: seq<Page>, tab2: map<Pos, Frame>, given2: seq<Frame>, roots: set<Frame>, owner: Frame)
    requires Extends(mem0, tab0, given0, mem1, tab1, given1, roots, owner)
    requires Extends(mem1, tab1, given1, mem2, tab2, given2, roots, owner)
    ensures Extends(mem0, tab0, given0, mem2, tab2, given2, roots, owner)
  {
    OnlyTablesTrans(mem0, mem1, mem2, given0, given1, given2);
  }

  lemma LinkTableExtends(s: Phys, p: Pos, i: nat, g: Frame, given: seq<Frame>)
    requires Inv(s) && g in s.free && g !in given && p in s.tab && i < Slots(p) && Sub(p, i) !in s.tab
    ensures Extends(s.mem, s.tab, given, LinkTable(s, p, i, g).mem, LinkTable(s, p, i, g).tab, given + [g],
                    s.roots, RootOf(p))
  {
    hide Inv, OnlyTables;
    TableAt(s, p);
    FreeAt(s, g);
    KernelSlotsAfterWrite(s, p, i, UserEntry(g));
    var mem1 := SetWord(s.mem, s.tab[p], i, UserEntry(g));
    OnlyTablesWrite(s.mem, given, s.tab[p], mem1[s.tab[p]]);
    OnlyTablesTake(mem1, given, g, ZeroTable());
    OnlyTablesTrans(s.mem, mem1, mem1[g := ZeroTable()], given, given, given + [g]);
  }

  lemma ExtendsSame(s: Phys, given: seq<Frame>, owner: Frame)
    ensures Extends(s.mem, s.tab, given, s.mem, s.tab, given, s.roots, owner)
  {
  }

  /** With no new table, whose tables they would have been does not matter. */
  lemma ExtendsOther(mem0: seq<Page>, mem1: seq<Page>, tab: map<Pos, Frame>, given: seq<Frame>, roots: set<Frame>,
                     owner: Frame, other: Frame)
    requires Extends(mem0, tab, given, mem1, tab, given, roots, owner)
    ensures Extends(mem0, tab, given, mem1, tab, given, roots, other)
  {
  }

  lemma ExtendsKeeps(mem0: seq<Page>, tab0: map<Pos, Frame>, given0: seq<Frame>,
                     mem1: seq<Page>, tab1: map<Pos, Frame>, given1: seq<Frame>, roots: set<Frame>, owner: Frame)
    requires Extends(mem0, tab0, given0, mem1, tab1, given1, roots, owner)
    ensures forall k :: k in tab0 ==> k in tab1 && tab1[k] == tab0[k]
  {
  }

  lemma NewRootExtends(s: Phys, g: Frame, given: seq<Frame>)
    requires Inv(s) && g in s.free && g !in given
    ensures Extends(s.mem, s.tab, given, NewRoot(s, g).mem, NewRoot(s, g).tab, given + [g], s.roots, g)
  {
    hide Inv, OnlyTables;
    FreeAt(s, g);
    OnlyTablesTake(s.mem, given, g, ZeroTable());
  }

  lemma ExtendsMeans(mem0: seq<Page>, tab0: map<Pos, Frame>, given0: seq<Frame>,
                     mem1: seq<Page>, tab1: map<Pos, Frame>, given1: seq<Frame>, roots: set<Frame>, owner: Frame)
    requires Extends(mem0, tab0, given0, mem1, tab1, given1, roots, owner)
    ensures OnlyTables(mem0, mem1, given0, given1)
    ensures forall r :: r in roots ==> Word(mem1, r, 511) == Word(mem0, r, 511)
    ensures forall k :: k in tab1 && k !in tab0 ==> RootOf(k) == owner && tab1[k] in given1 && tab1[k] !in given0
  {
    hide OnlyTables;
  }

  /** One page of one task after a clone. */
  lemma FlatAfterClone(s: Phys, maps: map<Pos, Entry>, parent: Frame, child: Frame, r: Frame, w: VPage)
    requires Inv(s) && Bare(s, Top(child)) && parent != child && UserPage(w)
    requires Cloned(s.maps, maps, Top(parent), child, 511)
    ensures Flat(maps, r, w) == var e := Flat(s.maps, if r == child then parent else r, w);
                                if r != child && r != parent then e
                                else match e case None => None case Some(x) => Some(CowTag(x))
  {
    hide Inv;
    var k := Leaf(r, w);
    PathFacts(r, w);
    PathFacts(parent, w);
    PathFacts(child, w);
    assert ClonedAt(s.maps, maps, Top(parent), child, 511, k);
    if Leaf(child, w) in s.maps {
      NothingBelowBare(s, Top(child), Leaf(child, w));
      ViaTop(child, Leaf(child, w));
    }
    ViaOfPage(parent, w);
    ViaOfPage(r, w);
    ViaTop(parent, k);
    RetargetPage(r, w, parent);
  }

  class AddressSpaces {
    const frames: FL.FrameList
    const kernelTable: Frame   // the table in slot 511 of the kernel's own root
    var mem: seq<Page>
    ghost var tab: map<Pos, Frame>
    ghost var own: map<Frame, Pos>
    ghost var tree: map<Pos, Words>
    ghost var maps: map<Pos, Entry>
    var roots: set<Frame>      // pml4e of the tasks in use
    ghost const kernel: map<Frame, Page>  // the kernel's own tables

    ghost function View(): Phys
      reads this, frames
    {
      Phys(mem, Elements(frames.free), tab, own, tree, maps, roots, kernel)
    }

    ghost predicate Valid()
      reads this, frames, frames.pagelist
    {
      && frames.Valid() && frames.pagelist.Length == |mem|
      && Inv(View()) && RefsOk(maps, frames.pagelist[..])
    }

    /** A data frame that may be mapped once more: its reference count has room for it. */
    ghost predicate Ready(f: Frame)
      reads this, frames, frames.pagelist
    {
      && f < |mem| && f < frames.pagelist.Length && IsData(mem[f]) && f !in frames.free
      && Count(maps, f) < frames.RefCount(f)
    }

    /** Boot: no task yet, every frame on the free list holds plain data. */
    constructor (fl: FL.FrameList, memory: seq<Page>, shared: Frame, ghost tables: map<Frame, Page>)
      requires fl.Valid() && fl.pagelist.Length == |memory|
      requires forall f :: f in fl.free ==> f < |memory| && IsData(memory[f])
      requires forall f :: f in tables ==> f < |memory| && memory[f] == tables[f] && tables[f].Table? && f !in fl.free
      ensures Valid() && frames == fl && mem == memory && kernelTable == shared && kernel == tables
      ensures maps == map[] && roots == {}
    {
      frames, kernelTable, mem, kernel := fl, shared, memory, tables;
      tab, own, tree, maps, roots := map[], map[], map[], map[], {};
      new;
      forall f | 0 <= f < |mem| ensures Count(maps, f) == 0 {
        CountOfUnmapped(maps, f);
      }
    }

    /** getFreeFrame. */
    method TakeFrame() returns (ok: bool, g: Frame)
      requires Valid()
      modifies frames, frames.pagelist
      ensures Valid() && frames.given + frames.free == old(frames.given + frames.free)
      ensures !ok ==> frames.free == [] == old(frames.free) && frames.given == old(frames.given)
      ensures ok ==> g in old(View()).free && View() == old(View()).(free := old(View()).free - {g})
      ensures ok ==> frames.given == old(frames.given) + [g] && g !in old(frames.given)
      ensures ok ==> g < |mem| && IsData(mem[g]) && g !in roots && g !in frames.free
      ensures ok ==> frames.RefCount(g) == 1 && Count(maps, g) == 0
      ensures forall f :: old(Ready(f)) ==> Ready(f)
    {
      hide FreeOk, StoredOk, RootsOk, LinkOk, LeafOk, AbsentOk, MappedOk, KernelOk, FL.Linked, FL.NoDup, FL.Counted;
      ghost var s, before := View(), frames.pagelist[..];
      ok, g := frames.GetFreeFrame();
      if ok {
        TakeFrameKeepsInv(s, g);
        FreeAt(s, g);
        FreeIsUnmapped(s, g);
        ElementsAfterPop(old(frames.free));
        RefsAfterTake(maps, before, g);
        assert frames.given + frames.free == old(frames.given + frames.free);
      }
    }

    /** `root[511] = e`. */
    method SetKernelSlot511(root: Frame, e: Entry)
      requires Valid() && root in roots && (e.present || e == ZERO_ENTRY)
      modifies this
      ensures Valid() && Top(root) in tab && View() == SetKernelSlot(old(View()), root, e)
      ensures Word(mem, root, 511) == e
      ensures forall r :: r in roots && r != root ==> Word(mem, r, 511) == old(Word(mem, r, 511))
      ensures maps == old(maps) && roots == old(roots) && tab == old(tab)
      ensures OnlyTables(old(mem), mem, frames.given, frames.given)
      ensures forall f :: old(Ready(f)) ==> Ready(f)
    {
      hide Inv, RefsOk, OnlyTables, FL.Linked, FL.NoDup, FL.Counted;
      ghost var s := View();
      RootHasTable(s, root);
      TableAt(s, Top(root));
      KernelSlotKeepsInv(s, root, e);
      OnlyTablesWrite(mem, frames.given, root, SetWord(mem, root, 511, e)[root]);
      tree := tree[Top(root) := tree[Top(root)][511 := e]];
      mem := SetWord(mem, root, 511, e);
    }

    /** `g = getFreeFrame(); t[i] = (g & validatebits) | 7; memset(g, 0, pageSize)`. */
    method AttachTable(ghost p: Pos, t: Frame, i: nat) returns (ok: bool, g: Frame)
      requires Valid() && p in tab && tab[p] == t && Depth(p) < 3 && i < Slots(p) && !Word(mem, t, i).present
      modifies this, frames, frames.pagelist
      ensures Valid() && frames.given + frames.free == old(frames.given + frames.free)
      ensures maps == old(maps) && roots == old(roots)
      ensures !ok ==> frames.free == [] && View() == old(View()) && frames.given == old(frames.given)
      ensures ok ==> frames.given == old(frames.given) + [g] && g !in old(frames.given)
      ensures ok ==> tab == old(tab)[Sub(p, i) := g] && Sub(p, i) !in old(tab) && Bare(View(), Sub(p, i))
      ensures Extends(old(mem), old(tab), old(frames.given), mem, tab, frames.given, roots, RootOf(p))
      ensures ok ==> forall j :: !Word(mem, g, j).present
      ensures forall f :: old(Ready(f)) ==> Ready(f)
    {
      hide Inv, RefsOk, OnlyTables, Extends, FL.Linked, FL.NoDup, FL.Counted;
      ghost var s, given0 := View(), frames.given;
      TableAt(s, p);
      ExtendsSame(s, given0, RootOf(p));
      ok, g := TakeFrame();
      if ok {
        LinkTableKeepsInv(s, p, i, g);
        LinkTableExtends(s, p, i, g, given0);
        FreeAt(s, g);
        mem := SetWord(mem, t, i, UserEntry(g));
        mem := mem[g := ZeroTable()];
        tab, own, tree := tab[Sub(p, i) := g], own[g := Sub(p, i)],
                          tree[p := tree[p][i := UserEntry(g)]][Sub(p, i) := NO_WORDS];
      }
    }

    /** `t[i] = e` in a last-level table. */
    method WriteLeaf(ghost p: Pos, t: Frame, i: Index, e: Entry)
      requires Valid() && p in tab && tab[p] == t && Depth(p) == 3
      requires e.present && e.frame < |mem| && IsData(mem[e.frame]) && e.frame !in frames.free
      requires (Sub(p, i) in maps && maps[Sub(p, i)].frame == e.frame) ||
               Count(maps, e.frame) < frames.RefCount(e.frame)
      modifies this
      ensures Valid() && View() == SetLeaf(old(View()), p, i, e)
      ensures maps == old(maps)[Sub(p, i) := e] && roots == old(roots) && tab == old(tab)
      ensures Extends(old(mem), old(tab), frames.given, mem, tab, frames.given, roots, RootOf(p))
    {
      hide Inv, RefsOk, OnlyTables, FL.Linked, FL.NoDup, FL.Counted;
      ghost var s := View();
      TableAt(s, p);
      SetLeafKeepsInv(s, p, i, e);
      KernelSlotsAfterWrite(s, p, i, e);
      RefsAfterSet(maps, frames.pagelist[..], Sub(p, i), e);
      OnlyTablesWrite(mem, frames.given, t, SetWord(mem, t, i, e)[t]);
      mem := SetWord(mem, t, i, e);
      tree := tree[p := tree[p][i := e]];
      maps := maps[Sub(p, i) := e];
    }

    /** How a mapping step ends: the flat map has been updated at one page, or frames ran out. */
    twostate predicate PageMapped(ok: bool, r: Frame, v: VPage, physical: Frame)
      reads this, frames, frames.pagelist
    {
      && roots == old(roots) && frames.given + frames.free == old(frames.given + frames.free)
      && Extends(old(mem), old(tab), old(frames.given), mem, tab, frames.given, roots, r)
      && (ok ==> maps == old(maps)[Leaf(r, v) := UserEntry(physical)])
      && (!ok ==> maps == old(maps) && frames.free == [])
      && (LeafTable(r, v) in old(tab) ==> ok && frames.given == old(frames.given))
    }

    method SetNewPagePDPTE(v: VPage, physical: Frame, pml4: Frame) returns (ok: bool)
      requires Valid() && pml4 in roots && UserPage(v) && Ready(physical) && !Word(mem, pml4, v.i4).present
      modifies this, frames, frames.pagelist
      ensures Valid() && PageMapped(ok, pml4, v, physical)
    {
      hide Inv, RefsOk, OnlyTables, Extends, FL.Linked, FL.NoDup, FL.Counted;
      PathFacts(pml4, v);
      ghost var mem0, tab0, given0 := mem, tab, frames.given;
      RootHasTable(View(), pml4);
      PathUnlinked(View(), pml4, v);
      var pdpte;
      ok, pdpte := AttachTable(Top(pml4), pml4, v.i4);
      if ok {
        // The rest of the C function repeats setNewPagePDPE word for word.
        ghost var mem1, tab1, given1 := mem, tab, frames.given;
        ok := SetNewPagePDPE(v, physical, pml4, pdpte);
        ExtendsTrans(mem0, tab0, given0, mem1, tab1, given1, mem, tab, frames.given, roots, pml4);
      }
    }

    method SetNewPagePDPE(v: VPage, physical: Frame, pml4: Frame, pdpte: Frame) returns (ok: bool)
      requires Valid() && UserPage(v) && Ready(physical)
      requires Sub(Top(pml4), v.i4) in tab && tab[Sub(Top(pml4), v.i4)] == pdpte && !Word(mem, pdpte, v.i3).present
      modifies this, frames, frames.pagelist
      ensures Valid() && PageMapped(ok, pml4, v, physical)
    {
      hide Inv, RefsOk, OnlyTables, Extends, FL.Linked, FL.NoDup, FL.Counted;
      PathFacts(pml4, v);
      ghost var p3, mem0, tab0, given0 := Sub(Top(pml4), v.i4), mem, tab, frames.given;
      PathUnlinked(View(), pml4, v);
      var pdpe;
      ok, pdpe := AttachTable(p3, pdpte, v.i3);
      if ok {
        ghost var mem1, tab1, given1 := mem, tab, frames.given;
        ok := NewLastTable(v, physical, pml4, pdpe);
        ExtendsTrans(mem0, tab0, given0, mem1, tab1, given1, mem, tab, frames.given, roots, pml4);
      }
    }

    /** The last step shared by the mapping functions: a fresh last-level table and its word. */
    method NewLastTable(v: VPage, physical: Frame, pml4: Frame, pdpe: Frame) returns (ok: bool)
      requires Valid() && UserPage(v) && Ready(physical)
      requires var p2 := Sub(Sub(Top(pml4), v.i4), v.i3); p2 in tab && tab[p2] == pdpe && !Word(mem, pdpe, v.i2).present
      modifies this, frames, frames.pagelist
      ensures Valid() && PageMapped(ok, pml4, v, physical)
    {
      hide Inv, RefsOk, OnlyTables, Extends, FL.Linked, FL.NoDup, FL.Counted;
      PathFacts(pml4, v);
      ghost var p2, mem0, tab0, given0 := Sub(Sub(Top(pml4), v.i4), v.i3), mem, tab, frames.given;
      PathUnlinked(View(), pml4, v);
      var pte;
      ok, pte := AttachTable(p2, pdpe, v.i2);
      if ok {
        ghost var mem1, tab1, given1 := mem, tab, frames.given;
        WriteLeaf(LeafTable(pml4, v), pte, v.i1, UserEntry(physical));
        ExtendsTrans(mem0, tab0, given0, mem1, tab1, given1, mem, tab, frames.given, roots, pml4);
      }
    }

    method SetExistingPagePDPE(v: VPage, physical: Frame, pml4: Frame, pdpte: Frame) returns (ok: bool)
      requires Valid() && UserPage(v) && Ready(physical)
      requires Sub(Top(pml4), v.i4) in tab && tab[Sub(Top(pml4), v.i4)] == pdpte && Word(mem, pdpte, v.i3).present
      modifies this, frames, frames.pagelist
      ensures Valid() && PageMapped(ok, pml4, v, physical)
    {
      hide Inv, RefsOk, OnlyTables, Extends, FL.Linked, FL.NoDup, FL.Counted;
      PathFacts(pml4, v);
      LinkFrom(View(), Sub(Top(pml4), v.i4), v.i3);
      var pdpe := Word(mem, pdpte, v.i3).frame;
      if !Word(mem, pdpe, v.i2).present {
        ok := NewLastTable(v, physical, pml4, pdpe);
      } else {
        LinkFrom(View(), Sub(Sub(Top(pml4), v.i4), v.i3), v.i2);
        var pte := Word(mem, pdpe, v.i2).frame;
        WriteLeaf(LeafTable(pml4, v), pte, v.i1, UserEntry(physical));
        ok := true;
      }
    }

    method SetExistingPagePDPTE(v: VPage, physical: Frame, pml4: Frame) returns (ok: bool)
      requires Valid() && pml4 in roots && UserPage(v) && Ready(physical) && Word(mem, pml4, v.i4).present
      modifies this, frames, frames.pagelist
      ensures Valid() && PageMapped(ok, pml4, v, physical)
    {
      hide Inv, RefsOk, OnlyTables, Extends, FL.Linked, FL.NoDup, FL.Counted;
      PathFacts(pml4, v);
      RootHasTable(View(), pml4);
      LinkFrom(View(), Top(pml4), v.i4);
      var pdpte := Word(mem, pml4, v.i4).frame;
      if !Word(mem, pdpte, v.i3).present {
        ok := SetNewPagePDPE(v, physical, pml4, pdpte);
      } else {
        ok := SetExistingPagePDPE(v, physical, pml4, pdpte);
      }
    }

    /**
     Map user page `v` of the task with root `pml4` to frame `physical`: one page of one
     task changes, in the flat map and in what the MMU finds.
     */
    method InitTaskPagetables(v: VPage, physical: Frame, pml4: Frame) returns (ok: bool)
      requires Valid() && pml4 in roots && UserPage(v) && Ready(physical)
      modifies this, frames, frames.pagelist
      ensures Valid() && roots == old(roots) && frames.given + frames.free == old(frames.given + frames.free)
      ensures OnlyTables(old(mem), mem, old(frames.given), frames.given)
      ensures ok ==> maps == old(maps)[Leaf(pml4, v) := UserEntry(physical)]
      ensures !ok ==> maps == old(maps) && frames.free == []
      ensures LeafTable(pml4, v) in old(tab) ==> ok && frames.given == old(frames.given)
      ensures Word(mem, pml4, 511) == UserEntry(kernelTable)
      ensures forall r :: r in roots && r != pml4 ==> Word(mem, r, 511) == old(Word(mem, r, 511))
      ensures ok ==> forall r, w :: r in roots && UserPage(w) ==>
                Walk(mem, r, w) == if r == pml4 && w == v then Some(UserEntry(physical)) else old(Walk(mem, r, w))
    {
      hide Inv, RefsOk, OnlyTables, FL.Linked, FL.NoDup, FL.Counted, Walk;
      ghost var mem0, maps0, given0 := mem, maps, frames.given;
      forall r, w | r in roots && UserPage(w) ensures Walk(mem0, r, w) == Flat(maps0, r, w) {
        WalkIsFlat(View(), r, w);
      }
      SetKernelSlot511(pml4, UserEntry(kernelTable)); // (kernel pml4[511] & validatebits) | 7
      ghost var mem1 := mem;
      if !Word(mem, pml4, v.i4).present {
        ok := SetNewPagePDPTE(v, physical, pml4);
      } else {
        ok := SetExistingPagePDPTE(v, physical, pml4);
      }
      OnlyTablesTrans(mem0, mem1, mem, given0, given0, frames.given);
      forall r, w | r in roots && UserPage(w) ensures Walk(mem, r, w) == Flat(maps, r, w) {
        WalkIsFlat(View(), r, w);
      }
    }

    /**
     The last-level table of `v`, reached through the masks alone: the kernel tests no
     present bit on the way.  Where the upper words are present it agrees with the MMU.
     */
    method GetPTE(v: VPage, pml4: Frame) returns (pte: Frame)
      requires Valid() && pml4 in roots && UserPage(v) && LeafTable(pml4, v) in tab
      ensures pte == tab[LeafTable(pml4, v)]
      ensures Walk(mem, pml4, v) == if Word(mem, pte, v.i1).present then Some(Word(mem, pte, v.i1)) else None
      ensures Word(mem, pte, v.i1).present <==> Leaf(pml4, v) in maps
      ensures Leaf(pml4, v) in maps ==> Word(mem, pte, v.i1) == maps[Leaf(pml4, v)]
    {
      hide Inv, RefsOk, OnlyTables, FL.Linked, FL.NoDup, FL.Counted, Walk;
      PathUnlinked(View(), pml4, v);
      RootHasTable(View(), pml4);
      LinkFrom(View(), Top(pml4), v.i4);
      var pdpte := Word(mem, pml4, v.i4).frame;
      LinkFrom(View(), Sub(Top(pml4), v.i4), v.i3);
      var pdpe := Word(mem, pdpte, v.i3).frame;
      LinkFrom(View(), Sub(Sub(Top(pml4), v.i4), v.i3), v.i2);
      pte := Word(mem, pdpe, v.i2).frame;
      LeafAt(View(), LeafTable(pml4, v), v.i1);
      WalkIsFlat(View(), pml4, v);
    }

    // ---------- copytables ----------

    /**
     `ref_count += 1; pte[l] = (pte[l] & ~2) | 0x200; pteChild[l] = pte[l]`.
     */
    method CopyEntry(ghost p: Pos, ghost q: Pos, pte: Frame, pteChild: Frame, l: Index)
      requires Valid() && p in tab && tab[p] == pte && Depth(p) == 3 && Sub(p, l) in maps
      requires q in tab && tab[q] == pteChild && Depth(q) == 3 && RootOf(q) != RootOf(p)
      modifies this, frames.pagelist
      ensures Valid() && roots == old(roots) && tab == old(tab)
      ensures Extends(old(mem), tab, frames.given, mem, tab, frames.given, roots, RootOf(q))
      ensures var e := CowTag(old(maps)[Sub(p, l)]); maps == old(maps)[Sub(p, l) := e][Sub(q, l) := e]
    {
      hide Inv, RefsOk, OnlyTables, Extends, FL.Linked, FL.NoDup, FL.Counted;
      LeafAt(View(), p, l);
      MappedAt(View(), Sub(p, l));
      var w := Word(mem, pte, l);
      RefsAfterAdd(maps, frames.pagelist[..], w.frame);
      frames.AddRef(w.frame);
      WriteLeaf(p, pte, l, CowTag(w));
      ghost var mem1 := mem;
      LeafAt(View(), p, l);
      MappedAt(View(), Sub(p, l));
      CountAfterSet(old(maps), Sub(p, l), CowTag(w), w.frame);
      WriteLeaf(q, pteChild, l, Word(mem, pte, l));
      ExtendsOther(old(mem), mem1, tab, frames.given, roots, RootOf(p), RootOf(q));
      ExtendsTrans(old(mem), tab, frames.given, mem1, tab, frames.given, mem, tab, frames.given, roots, RootOf(q));
    }

    /** The innermost loop of copytables: one last-level table, entry by entry. */
    method CopyLeafTable(ghost p: Pos, ghost child: Frame, pte: Frame, pteChild: Frame)
      requires Valid() && p in tab && tab[p] == pte && Depth(p) == 3 && RootOf(p) != child
      requires Retarget(p, child) in tab && tab[Retarget(p, child)] == pteChild && Bare(View(), Retarget(p, child))
      modifies this, frames.pagelist
      ensures Valid() && roots == old(roots) && tab == old(tab)
      ensures Extends(old(mem), old(tab), frames.given, mem, tab, frames.given, roots, child)
      ensures Cloned(old(maps), maps, p, child, 512)
    {
      hide Inv, RefsOk, OnlyTables, Extends, FL.Linked, FL.NoDup, FL.Counted, Cloned;
      ghost var s, q, m0, mem0 := View(), Retarget(p, child), maps, mem;
      ExtendsSame(View(), frames.given, child);
      ClonedNothing(m0, p, child);
      for l := 0 to 512
        invariant Valid() && roots == old(roots) && tab == old(tab)
        invariant Extends(mem0, tab, frames.given, mem, tab, frames.given, roots, child)
        invariant Cloned(m0, maps, p, child, l)
      {
        ghost var mem1, m1 := mem, maps;
        LeafAt(View(), p, l);
        OnlyLeafVia(s, p, l);
        if Word(mem, pte, l).present {
          CopyEntry(p, q, pte, pteChild, l);
          ExtendsTrans(mem0, tab, frames.given, mem1, tab, frames.given, mem, tab, frames.given, roots, child);
          ClonedEntry(m0, m1, p, child, l, Sub(p, l));
        } else {
          ClonedKeeps(m0, m1, p, child, l, Sub(p, l));
          ClonedSkip(m0, m1, p, child, l);
        }
      }
    }

    /**
     The three outer loops of copytables, which differ only in their level: clone the
     table at `p`, and everything below it, into the bare table of the child.
     */
    method CopyTable(ghost p: Pos, ghost child: Frame, t: Frame, tChild: Frame, level: nat) returns (ok: bool)
      requires Valid() && p in tab && tab[p] == t && Depth(p) + level == 3 && level > 0 && RootOf(p) != child
      requires Retarget(p, child) in tab && tab[Retarget(p, child)] == tChild && Bare(View(), Retarget(p, child))
      modifies this, frames, frames.pagelist
      ensures Valid() && roots == old(roots) && frames.given + frames.free == old(frames.given + frames.free)
      ensures Extends(old(mem), old(tab), old(frames.given), mem, tab, frames.given, roots, child)
      ensures forall k :: k in tab && k !in old(tab) ==> Via(Retarget(p, child), k) >= 0
      ensures ok ==> Cloned(old(maps), maps, p, child, Slots(p))
      ensures !ok ==> frames.free == []
      decreases level, 1
    {
      hide Inv, RefsOk, OnlyTables, Extends, FL.Linked, FL.NoDup, FL.Counted, Cloned, Via;
      ghost var s, q, m0, mem0, tab0, given0 := View(), Retarget(p, child), maps, mem, tab, frames.given;
      ExtendsSame(View(), given0, child);
      ClonedNothing(m0, p, child);
      assert Slots(p) == if level == 3 then 511 else 512 by { TopIsDepth0(p); }
      for i := 0 to if level == 3 then 511 else 512
        invariant Valid() && roots == old(roots) && frames.given + frames.free == old(frames.given + frames.free)
        invariant Extends(mem0, tab0, given0, mem, tab, frames.given, roots, child)
        invariant forall k :: k in tab && k !in tab0 ==> 0 <= Via(q, k) < i
        invariant Cloned(m0, maps, p, child, i)
      {
        ExtendsKeeps(mem0, tab0, given0, mem, tab, frames.given, roots, child);
        ghost var mem1, tab1, given1, m1 := mem, tab, frames.given, maps;
        if Word(mem, t, i).present {
          ViaOwnSlot(q, i);
          ok := CopySlot(p, child, t, tChild, i, level);
          ExtendsTrans(mem0, tab0, given0, mem1, tab1, given1, mem, tab, frames.given, roots, child);
          if !ok { return; }
          SlotIsNoMapping(s, p, i);
          forall k | k in m1 ensures Via(Sub(p, i), k) < 512 {
            ViaIsBelow(Sub(p, i), k);
          }
          ClonedTable(m0, m1, maps, p, child, i);
        } else {
          AbsentSlot(View(), p, i);
          forall k | k in m0 ensures Via(p, k) != i {
            ClonedKeeps(m0, m1, p, child, i, k);
          }
          ClonedSkip(m0, m1, p, child, i);
        }
      }
      ok := true;
    }

    /** The body of those loops for a present word: a child table, then what lies below. */
    method CopySlot(ghost p: Pos, ghost child: Frame, t: Frame, tChild: Frame, i: Index, level: nat) returns (ok: bool)
      requires Valid() && p in tab && tab[p] == t && Depth(p) + level == 3 && level > 0 && RootOf(p) != child
      requires i < Slots(p) && Word(mem, t, i).present
      requires Retarget(p, child) in tab && tab[Retarget(p, child)] == tChild && Sub(Retarget(p, child), i) !in tab
      modifies this, frames, frames.pagelist
      ensures Valid() && roots == old(roots) && frames.given + frames.free == old(frames.given + frames.free)
      ensures Extends(old(mem), old(tab), old(frames.given), mem, tab, frames.given, roots, child)
      ensures forall k :: k in tab && k !in old(tab) ==> Via(Retarget(p, child), k) == i
      ensures ok ==> Cloned(old(maps), maps, Sub(p, i), child, 512)
      ensures ok ==> forall k :: k in old(maps) ==> Via(Sub(p, i), k) < 512
      ensures !ok ==> frames.free == []
      decreases level, 0
    {
      hide Inv, RefsOk, OnlyTables, Extends, FL.Linked, FL.NoDup, FL.Counted, Cloned, Via;
      ghost var s, q, mem0, tab0, given0 := View(), Retarget(p, child), mem, tab, frames.given;
      LinkFrom(View(), p, i);
      UnlinkedSlot(View(), q, i);
      ViaOwnSlot(q, i);
      forall k | k in maps ensures Via(Sub(p, i), k) < 512 {
        ViaBound(s, Sub(p, i), k);
      }
      var g;
      ok, g := AttachTable(q, tChild, i);
      if !ok { return; }
      ghost var mem1, tab1, given1 := mem, tab, frames.given;
      LinkAt(View(), p, i);
      if level == 1 {
        CopyLeafTable(Sub(p, i), child, Word(mem, t, i).frame, g);
      } else {
        ok := CopyTable(Sub(p, i), child, Word(mem, t, i).frame, g, level - 1);
      }
      ExtendsTrans(mem0, tab0, given0, mem1, tab1, given1, mem, tab, frames.given, roots, child);
      forall k | k in tab && k !in tab0 ensures Via(q, k) == i {
        ViaSplit(q, i, k);
      }
    }

    /** `getNewPage(); memset(root, 0, pageSize)`: the root of a new task. */
    method NewRootTable() returns (ok: bool, g: Frame)
      requires Valid()
      modifies this, frames, frames.pagelist
      ensures Valid() && frames.given + frames.free == old(frames.given + frames.free) && maps == old(maps)
      ensures !ok ==> frames.free == [] && View() == old(View()) && frames.given == old(frames.given)
      ensures ok ==> frames.given == old(frames.given) + [g] && g !in old(frames.given)
      ensures ok ==> roots == old(roots) + {g} && g !in old(roots) && Bare(View(), Top(g))
      ensures ok ==> Extends(old(mem), old(tab), old(frames.given), mem, tab, frames.given, old(roots), g)
    {
      hide Inv, RefsOk, OnlyTables, Extends, FL.Linked, FL.NoDup, FL.Counted;
      ghost var s, given0 := View(), frames.given;
      ok, g := TakeFrame();
      if ok {
        NewRootKeepsInv(s, g);
        NewRootExtends(s, g, given0);
        FreeAt(s, g);
        mem := mem[g := ZeroTable()];
        tab, own, tree := tab[Top(g) := g], own[g := Top(g)], tree[Top(g) := NO_WORDS];
        roots := roots + {g};
      }
    }

    /**
     Clone the user part of the parent's tree into the zeroed root `child`.  Every page
     of the parent is then mapped read-only and tagged in both tasks; no other task's
     translation, and no kernel slot but the child's, has changed.
     */
    method CopyTables(parent: Frame, child: Frame) returns (ok: bool)
      requires Valid() && parent in roots && child in roots && parent != child && Bare(View(), Top(child))
      modifies this, frames, frames.pagelist
      ensures Valid() && roots == old(roots) && frames.given + frames.free == old(frames.given + frames.free)
      ensures OnlyTables(old(mem), mem, old(frames.given), frames.given)
      ensures !ok ==> frames.free == []
      ensures ok ==> Cloned(old(maps), maps, Top(parent), child, 511)
      ensures Word(mem, child, 511) == old(Word(mem, parent, 511))
      ensures forall r :: r in roots && r != child ==> Word(mem, r, 511) == old(Word(mem, r, 511))
      ensures forall k :: k in tab && k !in old(tab) ==>
                RootOf(k) == child && tab[k] in frames.given && tab[k] !in old(frames.given)
      ensures ok ==> forall r, w :: r in roots && UserPage(w) ==>
                Walk(mem, r, w) == var e := old(Walk(mem, if r == child then parent else r, w));
                                   if r != child && r != parent then e
                                   else match e case None => None case Some(x) => Some(CowTag(x))
    {
      hide Inv, RefsOk, OnlyTables, Extends, FL.Linked, FL.NoDup, FL.Counted, Walk;
      ghost var s, mem0, tab0, maps0, given0 := View(), mem, tab, maps, frames.given;
      RootHasTable(s, parent);
      RootHasTable(s, child);
      AbsentAt(s, Top(parent), 511);
      SetKernelSlot511(child, Word(mem, parent, 511));
      ghost var mem1, tab1 := mem, tab;
      assert Bare(View(), Top(child));
      ok := CopyTable(Top(parent), child, parent, child, 3);
      ExtendsMeans(mem1, tab1, given0, mem, tab, frames.given, roots, child);
      OnlyTablesTrans(mem0, mem1, mem, given0, given0, frames.given);
      if ok {
        forall r, w | r in roots && UserPage(w)
          ensures Walk(mem, r, w) == var e := Walk(mem0, if r == child then parent else r, w);
                                     if r != child && r != parent then e
                                     else match e case None => None case Some(x) => Some(CowTag(x))
        {
          WalkIsFlat(View(), r, w);
          WalkIsFlat(s, if r == child then parent else r, w);
          FlatAfterClone(s, maps, parent, child, r, w);
        }
      }
    }

    // ---------- deallocTask ----------

    /** `pte[l] = 0`, present or not. */
    method ClearEntry(ghost p: Pos, pte: Frame, l: Index)
      requires Valid() && p in tab && tab[p] == pte && Depth(p) == 3
      modifies this
      ensures Valid() && roots == old(roots) && tab == old(tab) && maps == old(maps) - {Sub(p, l)}
      ensures Extends(old(mem), tab, frames.given, mem, tab, frames.given, roots, RootOf(p))
    {
      hide Inv, RefsOk, OnlyTables, FL.Linked, FL.NoDup, FL.Counted;
      ghost var s := View();
      TableAt(s, p);
      ClearLeafKeepsInv(s, p, l);
      KernelSlotsAfterWrite(s, p, l, ZERO_ENTRY);
      RefsAfterClear(maps, frames.pagelist[..], {Sub(p, l)});
      OnlyTablesWrite(mem, frames.given, pte, SetWord(mem, pte, l, ZERO_ENTRY)[pte]);
      mem := SetWord(mem, pte, l, ZERO_ENTRY);
      tree := tree[p := tree[p][l := ZERO_ENTRY]];
      maps := maps - {Sub(p, l)};
    }

    /** The innermost loop of deallocTask. */
    method ClearLeafTable(ghost p: Pos, pte: Frame)
      requires Valid() && p in tab && tab[p] == pte && Depth(p) == 3
      modifies this
      ensures Valid() && roots == old(roots) && tab == old(tab) && maps == Pruned(old(maps), p, 512)
      ensures Extends(old(mem), tab, frames.given, mem, tab, frames.given, roots, RootOf(p))
    {
      hide Inv, RefsOk, OnlyTables, Extends, FL.Linked, FL.NoDup, FL.Counted;
      ghost var s, m0, mem0 := View(), maps, mem;
      ExtendsSame(View(), frames.given, RootOf(p));
      PrunedNothing(m0, p);
      for l := 0 to 512
        invariant Valid() && roots == old(roots) && tab == old(tab) && maps == Pruned(m0, p, l)
        invariant Extends(mem0, tab, frames.given, mem, tab, frames.given, roots, RootOf(p))
      {
        ghost var mem1 := mem;
        OnlyLeafVia(s, p, l);
        PrunedEntry(m0, p, l);
        ClearEntry(p, pte, l);
        ExtendsTrans(mem0, tab, frames.given, mem1, tab, frames.given, mem, tab, frames.given, roots, RootOf(p));
      }
    }

    /** `t[i] = 0` in an upper table, once everything below the slot is gone. */
    method ClearLink(ghost p: Pos, t: Frame, i: Index)
      requires Valid() && p in tab && tab[p] == t && Depth(p) < 3 && i < Slots(p)
      requires forall k :: k in tab || k in maps ==> Via(Sub(p, i), k) < 0
      modifies this
      ensures Valid() && roots == old(roots) && tab == old(tab) - {Sub(p, i)} && maps == old(maps)
      ensures OnlyTables(old(mem), mem, frames.given, frames.given) && KernelSlotsKept(old(mem), mem, roots)
    {
      hide Inv, RefsOk, OnlyTables, FL.Linked, FL.NoDup, FL.Counted;
      ghost var s := View();
      TableAt(s, p);
      forall j: nat ensures Sub(Sub(p, i), j) !in tab && Sub(Sub(p, i), j) !in maps {
        ViaOwnSlot(Sub(p, i), j);
      }
      UnlinkKeepsInv(s, p, i);
      KernelSlotsAfterWrite(s, p, i, ZERO_ENTRY);
      OnlyTablesWrite(mem, frames.given, t, SetWord(mem, t, i, ZERO_ENTRY)[t]);
      mem := SetWord(mem, t, i, ZERO_ENTRY);
      tab := tab - {Sub(p, i)};
      tree := tree[p := tree[p][i := ZERO_ENTRY]] - {Sub(p, i)};
    }

    /**
     The three outer loops of deallocTask, which differ only in their level: clear the
     table at `p` and everything below it.  The freed frames go nowhere, as free() does
     nothing.
     */
    method ClearTable(ghost p: Pos, t: Frame, level: nat)
      requires Valid() && p in tab && tab[p] == t && Depth(p) + level == 3 && level > 0
      modifies this
      ensures Valid() && roots == old(roots)
      ensures maps == Pruned(old(maps), p, Slots(p)) && tab == Pruned(old(tab), p, Slots(p))
      ensures OnlyTables(old(mem), mem, frames.given, frames.given) && KernelSlotsKept(old(mem), mem, roots)
      decreases level, 1
    {
      hide Inv, RefsOk, OnlyTables, FL.Linked, FL.NoDup, FL.Counted, Via, Pruned;
      ghost var s0, m0, tab0, mem0 := View(), maps, tab, mem;
      PrunedNothing(m0, p);
      PrunedNothing(tab0, p);
      OnlyTablesSame(mem, frames.given);
      assert Slots(p) == if level == 3 then 511 else 512 by { TopIsDepth0(p); }
      for i := 0 to if level == 3 then 511 else 512
        invariant Valid() && roots == old(roots)
        invariant maps == Pruned(m0, p, i) && tab == Pruned(tab0, p, i)
        invariant OnlyTables(mem0, mem, frames.given, frames.given) && KernelSlotsKept(mem0, mem, roots)
      {
        ghost var mem1 := mem;
        PrunedKeepsTop(tab0, p, i);
        ClearSlot(p, t, i, level);
        OnlyTablesTrans(mem0, mem1, mem, frames.given, frames.given, frames.given);
        SlotsBelow(s0, p, i);
        PrunedTable(m0, p, i);
        PrunedTable(tab0, p, i);
      }
    }

    /** The body of those loops: clear what the word links, then the word. */
    method ClearSlot(ghost p: Pos, t: Frame, i: Index, level: nat)
      requires Valid() && p in tab && tab[p] == t && Depth(p) + level == 3 && level > 0 && i < Slots(p)
      modifies this
      ensures Valid() && roots == old(roots)
      ensures maps == Pruned(old(maps), Sub(p, i), 512) - {Sub(p, i)}
      ensures tab == Pruned(old(tab), Sub(p, i), 512) - {Sub(p, i)}
      ensures OnlyTables(old(mem), mem, frames.given, frames.given) && KernelSlotsKept(old(mem), mem, roots)
      decreases level, 0
    {
      hide Inv, RefsOk, OnlyTables, FL.Linked, FL.NoDup, FL.Counted, Via, Pruned;
      ghost var s := View();
      SlotsBelow(s, p, i);
      OnlyTablesSame(mem, frames.given);
      if Word(mem, t, i).present {
        LinkFrom(View(), p, i);
        if level == 1 {
          ClearLeafTable(Sub(p, i), Word(mem, t, i).frame);
          PrunedNone(tab, Sub(p, i), 512);
        } else {
          ClearTable(Sub(p, i), Word(mem, t, i).frame, level - 1);
        }
      } else {
        AbsentSlot(s, p, i);
        forall k | k in maps || k in tab ensures Via(Sub(p, i), k) < 0 {
          ViaSplit(p, i, k);
        }
        PrunedNone(maps, Sub(p, i), 512);
        PrunedNone(tab, Sub(p, i), 512);
      }
      ghost var mem1 := mem;
      PrunedAll(s.maps, Sub(p, i), 512);
      PrunedAll(s.tab, Sub(p, i), 512);
      ViaOutside(p, i);
      PrunedKeeps(s.tab, Sub(p, i), 512, p);
      SlotIsNoMapping(View(), p, i);
      ClearLink(p, t, i);
      OnlyTablesTrans(s.mem, mem1, mem, frames.given, frames.given, frames.given);
    }

    /**
     Clear the user part of a task's tree.  Afterwards the MMU finds no user page from
     this root, the kernel slot is as it was, and every other task translates as before.
     */
    method DeallocTask(root: Frame)
      requires Valid() && root in roots
      modifies this
      ensures Valid() && roots == old(roots) && Bare(View(), Top(root))
      ensures maps == Pruned(old(maps), Top(root), 511) && tab == Pruned(old(tab), Top(root), 511)
      ensures OnlyTables(old(mem), mem, frames.given, frames.given) && KernelSlotsKept(old(mem), mem, roots)
      ensures forall r :: r in roots ==> Word(mem, r, 511) == old(Word(mem, r, 511))
      ensures forall r, w :: r in roots && UserPage(w) ==>
                Walk(mem, r, w) == if r == root then None else old(Walk(mem, r, w))
    {
      hide Inv, RefsOk, OnlyTables, FL.Linked, FL.NoDup, FL.Counted, Walk;
      ghost var s := View();
      RootHasTable(s, root);
      ClearTable(Top(root), root, 3);
      forall r, w | r in roots && UserPage(w)
        ensures Walk(mem, r, w) == if r == root then None else Walk(s.mem, r, w)
      {
        WalkIsFlat(View(), r, w);
        WalkIsFlat(s, r, w);
        ViaOfPage(r, w);
        PathFacts(r, w);
        ViaTop(root, Leaf(r, w));
      }
      forall j: nat ensures Sub(Top(root), j) !in tab && Sub(Top(root), j) !in maps {
        ViaOwnSlot(Top(root), j);
        SlotIsNoMapping(View(), Top(root), j);
        if Sub(Top(root), j) in tab {
          ViaBound(View(), Top(root), Sub(Top(root), j));
        }
      }
    }

    // ---------- User data ----------

    /** A write to a data frame: memcpy of a page, or a user's store. */
    method WriteData(f: Frame, bytes: seq<Byte>)
      requires Valid() && f < |mem| && IsData(mem[f]) && |bytes| == PAGE_SIZE
      modifies this`mem
      ensures Valid() && mem == old(mem)[f := Data(bytes)]
      ensures forall g :: old(Ready(g)) ==> Ready(g)
    {
      hide Inv, RefsOk, OnlyTables, FL.Linked, FL.NoDup, FL.Counted;
      StoreKeepsInv(View(), f, Data(bytes));
      mem := mem[f := Data(bytes)];
    }

    /** A reaped task's root leaves the system; its frame is not reused. */
    method ForgetRoot(r: Frame)
      requires Valid() && r in roots && Bare(View(), Top(r))
      modifies this`tab, this`tree, this`roots
      ensures Valid() && roots == old(roots) - {r}
    {
      hide Inv, RefsOk, OnlyTables, FL.Linked, FL.NoDup, FL.Counted;
      DropRootKeepsInv(View(), r);
      tab, tree, roots := tab - {Top(r)}, tree - {Top(r)}, roots - {r};
    }
  }

  /** A frame's reference count is never below the number of words that map it, in all tasks together. */
  lemma RefCountsCover(m: AddressSpaces, f: Frame)
    requires m.Valid() && f < m.frames.pagelist.Length
    ensures |set k | k in m.maps && m.maps[k].frame == f| <= m.frames.pagelist[f].refCount
  {
    hide Inv, FL.Linked, FL.NoDup, FL.Counted;
    assert m.frames.pagelist[..][f] == m.frames.pagelist[f];
    assert Mappers(m.maps, f) == set k | k in m.maps && m.maps[k].frame == f;
  }
}
