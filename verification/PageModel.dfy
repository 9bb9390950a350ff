/**
 Physical memory, the four-level page tables stored in it, and their flat meaning.

 A `Phys` value is a snapshot of the machine: the contents of every frame, the free
 list, and two maps that say what the tables mean.  `tab` gives the frame of the
 table at each position of each task's tree; `maps` gives the leaf entry of each
 mapped user page.  `Inv` ties both maps to the words in memory one entry at a
 time, so that a write to one entry is justified by looking at that entry alone.
 */
module PageModel {

  type Frame = nat
  type Index = i: nat | i < 512
  type Byte = bv8

  const PAGE_SIZE: nat := 4096

  /** A page-table word, decoded; module EntryBits relates it to the 64-bit word. */
  datatype Entry = Entry(frame: Frame, present: bool, writable: bool, user: bool, cow: bool)

  const ZERO_ENTRY := Entry(0, false, false, false, false)

  /** The word `(physical & validatebits) | 7`. */
  function UserEntry(f: Frame): Entry {
    Entry(f, true, true, true, false)
  }

  /** The word `(w & ~2) | 0x200`. */
  function CowTag(e: Entry): Entry {
    e.(writable := false, cow := true)
  }

  /** What a frame holds: 512 table words or 4096 bytes of user data. */
  datatype Page = Table(entries: seq<Entry>) | Data(bytes: seq<Byte>)

  predicate IsTable(pg: Page) {
    pg.Table? && |pg.entries| == 512
  }

  predicate IsData(pg: Page) {
    pg.Data? && |pg.bytes| == PAGE_SIZE
  }

  /** A page zeroed by memset, seen as a table. */
  function ZeroTable(): (pg: Page)
    ensures IsTable(pg)
    ensures forall i :: 0 <= i < 512 ==> pg.entries[i] == ZERO_ENTRY
  {
    Table(seq(512, i => ZERO_ENTRY))
  }

  /** A position in some task's tree: its root table, or slot `index` of a position. */
  datatype Pos = Top(root: Frame) | Sub(parent: Pos, index: nat)

  function Depth(p: Pos): nat {
    match p
    case Top(_) => 0
    case Sub(q, _) => Depth(q) + 1
  }

  function RootOf(p: Pos): Frame {
    match p
    case Top(r) => r
    case Sub(q, _) => RootOf(q)
  }

  /** The same position in the tree of another task. */
  function Retarget(p: Pos, r: Frame): (q: Pos)
    ensures Depth(q) == Depth(p) && RootOf(q) == r
  {
    match p
    case Top(_) => Top(r)
    case Sub(q, i) => Sub(Retarget(q, r), i)
  }

  /** The slot of table `p` through which the path to `k` goes, or -1 if `k` is not below `p`. */
  function Via(p: Pos, k: Pos): int {
    match k
    case Top(_) => -1
    case Sub(q, i) => if q == p then i else Via(p, q)
  }

  /** Slot 511 of a root is the kernel's and belongs to no user tree. */
  function Slots(p: Pos): nat {
    if p.Top? then 511 else 512
  }

  /** A user page number split into its four 9-bit table indices. */
  datatype VPage = VPage(i4: Index, i3: Index, i2: Index, i1: Index)

  predicate UserPage(v: VPage) {
    v.i4 < 511
  }

  function LeafTable(r: Frame, v: VPage): Pos {
    Sub(Sub(Sub(Top(r), v.i4), v.i3), v.i2)
  }

  function Leaf(r: Frame, v: VPage): Pos {
    Sub(LeafTable(r, v), v.i1)
  }

  type Words = seq<Entry>

  /**
   `tab` and `tree` have the positions of the live tables as their keys: `tab` says in
   which frame each table lies and `tree` which words it holds.  `own` inverts `tab`; it
   keeps the entries of tables that have been dropped.  `kernel` has the kernel's own
   tables, as boot left them.
   */
  datatype Phys = Phys(mem: seq<Page>, free: set<Frame>, tab: map<Pos, Frame>, own: map<Frame, Pos>,
                       tree: map<Pos, Words>, maps: map<Pos, Entry>, roots: set<Frame>,
                       kernel: map<Frame, Page>)

  // ---------- The invariant ----------

  ghost predicate FreeOk(mem: seq<Page>, free: set<Frame>) {
    forall f :: f in free ==> f < |mem| && IsData(mem[f])
  }

  /** The tables lie in memory, each in a frame of its own. */
  ghost predicate StoredOk(mem: seq<Page>, tab: map<Pos, Frame>, own: map<Frame, Pos>, tree: map<Pos, Words>) {
    && tab.Keys == tree.Keys
    && (forall p :: p in tab ==>
          && tab[p] < |mem| && |tree[p]| == 512 && mem[tab[p]] == Table(tree[p])
          && tab[p] in own && own[tab[p]] == p)
  }

  ghost predicate RootsOk(tab: map<Pos, Frame>, roots: set<Frame>) {
    && (forall r :: r in roots ==> Top(r) in tab)
    && (forall r :: Top(r) in tab ==> r in roots && tab[Top(r)] == r)
  }

  /** The present words of the upper tables are exactly the links of the tree. */
  ghost predicate LinkOk(tab: map<Pos, Frame>, tree: map<Pos, Words>) {
    && (forall p, i: nat :: Sub(p, i) in tab ==>
          && p in tree && Depth(p) < 3 && i < Slots(p) <= |tree[p]|
          && tree[p][i].present && tree[p][i].frame == tab[Sub(p, i)])
    && (forall p, i: nat :: p in tree && Depth(p) < 3 && i < Slots(p) <= |tree[p]| && tree[p][i].present ==>
          Sub(p, i) in tab)
  }

  /** The present words of the last-level tables are exactly the user mappings. */
  ghost predicate LeafOk(tree: map<Pos, Words>, maps: map<Pos, Entry>) {
    && (forall k :: k in maps ==> k.Sub?)
    && (forall p, i: nat :: Sub(p, i) in maps ==>
          && p in tree && Depth(p) == 3 && i < |tree[p]|
          && tree[p][i].present && tree[p][i] == maps[Sub(p, i)])
    && (forall p, i: nat :: p in tree && Depth(p) == 3 && i < |tree[p]| && tree[p][i].present ==>
          Sub(p, i) in maps)
  }

  ghost predicate AbsentOk(tree: map<Pos, Words>) {
    forall p, i: nat :: p in tree && i < |tree[p]| && !tree[p][i].present ==> tree[p][i] == ZERO_ENTRY
  }

  /** Mapped frames hold data and are not on the free list. */
  ghost predicate MappedOk(mem: seq<Page>, free: set<Frame>, maps: map<Pos, Entry>) {
    forall k :: k in maps ==>
      maps[k].frame < |mem| && IsData(mem[maps[k].frame]) && maps[k].frame !in free
  }

  /** The kernel's own tables are as boot left them, and no task's. */
  ghost predicate KernelOk(mem: seq<Page>, free: set<Frame>, tab: map<Pos, Frame>, kernel: map<Frame, Page>) {
    && (forall f :: f in kernel ==> f < |mem| && mem[f] == kernel[f] && kernel[f].Table? && f !in free)
    && (forall p :: p in tab ==> tab[p] !in kernel)
  }

  ghost predicate Inv(s: Phys) {
    && FreeOk(s.mem, s.free)
    && StoredOk(s.mem, s.tab, s.own, s.tree)
    && RootsOk(s.tab, s.roots)
    && LinkOk(s.tab, s.tree)
    && LeafOk(s.tree, s.maps)
    && AbsentOk(s.tree)
    && MappedOk(s.mem, s.free, s.maps)
    && KernelOk(s.mem, s.free, s.tab, s.kernel)
  }

  // ---------- What the MMU and the kernel see ----------

  /** The MMU's translation: follow present words from the root; None is a page fault. */
  function Walk(mem: seq<Page>, r: Frame, v: VPage): Option<Entry> {
    match Follow(mem, r, v.i4)
    case None => None
    case Some(e3) =>
      match Follow(mem, e3.frame, v.i3)
      case None => None
      case Some(e2) =>
        match Follow(mem, e2.frame, v.i2)
        case None => None
        case Some(e1) => Follow(mem, e1.frame, v.i1)
  }

  datatype Option<T> = None | Some(value: T)

  /** One level of the walk. */
  function Follow(mem: seq<Page>, f: Frame, i: Index): Option<Entry> {
    if f < |mem| && IsTable(mem[f]) && mem[f].entries[i].present then Some(mem[f].entries[i]) else None
  }

  /** The flat translation. */
  function Flat(maps: map<Pos, Entry>, r: Frame, v: VPage): Option<Entry> {
    if Leaf(r, v) in maps then Some(maps[Leaf(r, v)]) else None
  }

  /** The tree in memory means the flat map: walking it is looking the page up. */
  lemma WalkIsFlat(s: Phys, r: Frame, v: VPage)
    requires Inv(s) && r in s.roots && UserPage(v)
    ensures Walk(s.mem, r, v) == Flat(s.maps, r, v)
  {
    hide Inv;
    var p4 := Top(r);
    var p3 := Sub(p4, v.i4);
    var p2 := Sub(p3, v.i3);
    PathFacts(r, v);
    RootHasTable(s, r);
    PathIsLinked(s, r, v);
    if Word(s.mem, r, v.i4).present {
      LinkFrom(s, p4, v.i4);
      if Word(s.mem, s.tab[p3], v.i3).present {
        LinkFrom(s, p3, v.i3);
        if Word(s.mem, s.tab[p2], v.i2).present {
          LinkFrom(s, p2, v.i2);
          LeafAt(s, LeafTable(r, v), v.i1);
        }
      }
    }
  }

  /** A mapped page has all its tables, and the words that link them are present. */
  lemma PathIsLinked(s: Phys, r: Frame, v: VPage)
    requires Inv(s) && r in s.roots
    ensures Leaf(r, v) in s.maps ==>
      var p3, p2, p1 := Sub(Top(r), v.i4), Sub(Sub(Top(r), v.i4), v.i3), LeafTable(r, v);
      && Top(r) in s.tab && p3 in s.tab && p2 in s.tab && p1 in s.tab && s.tab[Top(r)] == r
      && Word(s.mem, r, v.i4).present && Word(s.mem, s.tab[p3], v.i3).present && Word(s.mem, s.tab[p2], v.i2).present
  {
    hide Inv;
    RootHasTable(s, r);
    if Leaf(r, v) in s.maps {
      ParentHasTable(s, Leaf(r, v));
      LinkAt(s, Sub(Sub(Top(r), v.i4), v.i3), v.i2);
      LinkAt(s, Sub(Top(r), v.i4), v.i3);
      LinkAt(s, Top(r), v.i4);
    }
  }

  /** How many user mappings point at frame `f`. */
  ghost function Count(maps: map<Pos, Entry>, f: Frame): nat {
    |Mappers(maps, f)|
  }

  ghost function Mappers(maps: map<Pos, Entry>, f: Frame): set<Pos> {
    set k | k in maps && maps[k].frame == f
  }

  lemma CountAfterSet(maps: map<Pos, Entry>, k: Pos, e: Entry, f: Frame)
    ensures Count(maps[k := e], f) <= Count(maps, f) + (if e.frame == f then 1 else 0)
    ensures k in maps && maps[k].frame == e.frame ==> Count(maps[k := e], f) == Count(maps, f)
  {
    var after, before := Mappers(maps[k := e], f), Mappers(maps, f);
    if e.frame == f {
      assert after == before + {k};
    } else {
      assert after == before - {k};
      SubsetSize(after, before);
    }
    if k in maps && maps[k].frame == e.frame {
      assert after == before;
    }
  }

  lemma CountAfterClear(maps: map<Pos, Entry>, gone: set<Pos>, f: Frame)
    ensures Count(maps - gone, f) <= Count(maps, f)
  {
    SubsetSize(Mappers(maps - gone, f), Mappers(maps, f));
  }

  lemma SubsetSize<T>(a: set<T>, b: set<T>)
    requires a <= b
    ensures |a| <= |b|
  {
    assert b == a + (b - a);
  }

  lemma CountOfUnmapped(maps: map<Pos, Entry>, f: Frame)
    requires forall k :: k in maps ==> maps[k].frame != f
    ensures Count(maps, f) == 0
  {
    assert Mappers(maps, f) == {};
  }

  /** The word in slot `i` of frame `f` read as a table. */
  function Word(mem: seq<Page>, f: Frame, i: nat): Entry {
    if f < |mem| && IsTable(mem[f]) && i < 512 then mem[f].entries[i] else ZERO_ENTRY
  }

  /** The frames in `given1` beyond those in `given0` became tables; user data stayed as it was. */
  predicate OnlyTables(mem0: seq<Page>, mem1: seq<Page>, given0: seq<Frame>, given1: seq<Frame>) {
    && |mem0| == |mem1| && given0 <= given1
    && forall f :: 0 <= f < |mem0| ==> TableOrSame(mem0[f], mem1[f], f in given1 && f !in given0)
  }

  lemma OnlyTablesTrans(m0: seq<Page>, m1: seq<Page>, m2: seq<Page>, g0: seq<Frame>, g1: seq<Frame>, g2: seq<Frame>)
    requires OnlyTables(m0, m1, g0, g1) && OnlyTables(m1, m2, g1, g2)
    ensures OnlyTables(m0, m2, g0, g2)
  {
    forall f | 0 <= f < |m0| ensures TableOrSame(m0[f], m2[f], f in g2 && f !in g0) {
      assert TableOrSame(m0[f], m1[f], f in g1 && f !in g0) && TableOrSame(m1[f], m2[f], f in g2 && f !in g1);
    }
  }

  lemma OnlyTablesSame(mem: seq<Page>, given: seq<Frame>)
    ensures OnlyTables(mem, mem, given, given)
  {
  }

  lemma OnlyTablesWrite(mem: seq<Page>, given: seq<Frame>, f: Frame, pg: Page)
    requires f < |mem| && mem[f].Table? && pg.Table?
    ensures OnlyTables(mem, mem[f := pg], given, given)
  {
  }

  lemma OnlyTablesTake(mem: seq<Page>, given: seq<Frame>, g: Frame, pg: Page)
    requires g < |mem| && pg.Table? && g !in given
    ensures OnlyTables(mem, mem[g := pg], given, given + [g])
  {
  }

  predicate TableOrSame(before: Page, after: Page, taken: bool) {
    if taken || before.Table? then after.Table? else after == before
  }

  // ---------- Paths ----------

  lemma ViaIsBelow(p: Pos, k: Pos)
    ensures Via(p, k) >= 0 ==> Depth(k) > Depth(p) && RootOf(k) == RootOf(p)
    ensures Via(p, k) >= -1
  {
  }

  lemma ViaTop(r: Frame, k: Pos)
    ensures k.Sub? ==> (Via(Top(r), k) >= 0 <==> RootOf(k) == r)
  {
  }

  /** Below slot `i` of `p` is below the table linked there. */
  lemma ViaSplit(p: Pos, i: nat, k: Pos)
    ensures Via(Sub(p, i), k) >= 0 <==> Via(p, k) == i && k != Sub(p, i)
  {
    ViaIsBelow(Sub(p, i), k);
    if k.Sub? && k.parent != p && k.parent != Sub(p, i) {
      ViaSplit(p, i, k.parent);
    } else if k.Sub? && k.parent == p {
      ViaIsBelow(Sub(p, i), p);
    }
  }

  lemma ViaRetarget(p: Pos, k: Pos, c: Frame)
    requires RootOf(p) == RootOf(k)
    ensures Via(Retarget(p, c), Retarget(k, c)) == Via(p, k)
  {
    if k.Sub? && k.parent != p {
      ViaRetarget(p, k.parent, c);
      if Retarget(k.parent, c) == Retarget(p, c) {
        RetargetInjective(p, k.parent, c);
      }
    }
  }

  lemma RetargetBack(k: Pos, c: Frame)
    ensures Retarget(Retarget(k, c), RootOf(k)) == k
  {
  }

  lemma RetargetInjective(p: Pos, k: Pos, c: Frame)
    requires RootOf(p) == RootOf(k) && Retarget(p, c) == Retarget(k, c)
    ensures p == k
  {
    RetargetBack(p, c);
    RetargetBack(k, c);
  }

  /** Tables and mappings hang off tables. */
  lemma ParentHasTable(s: Phys, k: Pos)
    requires Inv(s) && (k in s.maps || k in s.tab) && k.Sub?
    ensures k.parent in s.tab && k.index < Slots(k.parent)
    ensures k in s.maps ==> Depth(k) == 4
    ensures k in s.tab ==> Depth(k) <= 3
  {
    hide FreeOk, RootsOk, AbsentOk, MappedOk, KernelOk;
    assert k == Sub(k.parent, k.index);
  }

  /** Slots on a path to a mapping are within the table. */
  lemma ViaBound(s: Phys, p: Pos, k: Pos)
    requires Inv(s) && (k in s.maps || k in s.tab) && Depth(p) <= 3
    ensures Via(p, k) < Slots(p)
  {
    if k.Sub? {
      ParentHasTable(s, k);
      hide Inv;
      if k.parent != p {
        ViaBound(s, p, k.parent);
      }
    }
  }

  /** Below a position that holds no table there is neither table nor mapping. */
  lemma NothingBelow(s: Phys, q: Pos, k: Pos)
    requires Inv(s) && q !in s.tab && Depth(q) <= 3 && (k in s.maps || k in s.tab)
    ensures Via(q, k) < 0 && k != q
  {
    if k.Sub? {
      ParentHasTable(s, k);
      hide Inv;
      NothingBelow(s, q, k.parent);
    } else {
      hide FreeOk, StoredOk, RootsOk, LinkOk, AbsentOk, MappedOk, KernelOk;
    }
  }

  /** A table with no child and no mapping of its own has nothing below it. */
  lemma NothingBelowBare(s: Phys, q: Pos, k: Pos)
    requires Inv(s) && Bare(s, q) && (k in s.maps || k in s.tab)
    ensures Via(q, k) < 0
  {
    if k.Sub? {
      ParentHasTable(s, k);
      hide Inv;
      assert k == Sub(k.parent, k.index);
      NothingBelowBare(s, q, k.parent);
    }
  }

  /** A table below the root is reached through the present word that links it. */
  lemma LinkAt(s: Phys, p: Pos, i: nat)
    requires Inv(s) && Sub(p, i) in s.tab
    ensures p in s.tab && Depth(p) < 3 && i < Slots(p) && Word(s.mem, s.tab[p], i).present
    ensures Word(s.mem, s.tab[p], i).frame == s.tab[Sub(p, i)]
  {
    hide FreeOk, RootsOk, LeafOk, AbsentOk, MappedOk, KernelOk;
  }

  /** A present word of an upper table links a table. */
  lemma LinkFrom(s: Phys, p: Pos, i: nat)
    requires Inv(s) && p in s.tab && Depth(p) < 3 && i < Slots(p) && Word(s.mem, s.tab[p], i).present
    ensures Sub(p, i) in s.tab && s.tab[Sub(p, i)] == Word(s.mem, s.tab[p], i).frame
  {
    hide FreeOk, RootsOk, LeafOk, AbsentOk, MappedOk, KernelOk;
  }

  /** A word of a last-level table is present exactly when its page is mapped, by that word. */
  lemma LeafAt(s: Phys, p: Pos, i: nat)
    requires Inv(s) && p in s.tab && Depth(p) == 3 && i < 512
    ensures Word(s.mem, s.tab[p], i).present <==> Sub(p, i) in s.maps
    ensures Sub(p, i) in s.maps ==> s.maps[Sub(p, i)] == Word(s.mem, s.tab[p], i)
  {
    hide FreeOk, RootsOk, LinkOk, AbsentOk, MappedOk, KernelOk;
  }

  lemma PathFacts(r: Frame, v: VPage)
    ensures Depth(Sub(Top(r), v.i4)) == 1 && RootOf(Sub(Top(r), v.i4)) == r
    ensures Depth(Sub(Sub(Top(r), v.i4), v.i3)) == 2 && RootOf(Sub(Sub(Top(r), v.i4), v.i3)) == r
    ensures Depth(LeafTable(r, v)) == 3 && RootOf(LeafTable(r, v)) == r
    ensures Depth(Leaf(r, v)) == 4 && RootOf(Leaf(r, v)) == r
  {
    assert Depth(Top(r)) == 0 && RootOf(Top(r)) == r;
  }

  lemma ViaOfPage(r: Frame, v: VPage)
    ensures Via(Top(r), Leaf(r, v)) == v.i4
  {
    var p3 := Sub(Top(r), v.i4);
    var p2 := Sub(p3, v.i3);
    var p1 := Sub(p2, v.i2);
    assert Via(Top(r), p3) == v.i4;
    assert Via(Top(r), p2) == v.i4;
    assert Via(Top(r), p1) == v.i4;
  }

  lemma RetargetPage(r: Frame, v: VPage, c: Frame)
    ensures Retarget(Leaf(r, v), c) == Leaf(c, v)
  {
    var p3 := Sub(Top(r), v.i4);
    var p2 := Sub(p3, v.i3);
    assert Retarget(p3, c) == Sub(Top(c), v.i4);
    assert Retarget(p2, c) == Sub(Sub(Top(c), v.i4), v.i3);
    assert Retarget(LeafTable(r, v), c) == LeafTable(c, v);
  }

  /** If a table on the way to page `v` is missing, so is its last-level table. */
  lemma PathUnlinked(s: Phys, r: Frame, v: VPage)
    requires Inv(s)
    ensures LeafTable(r, v) in s.tab ==>
              && Sub(Top(r), v.i4) in s.tab && Sub(Sub(Top(r), v.i4), v.i3) in s.tab
              && Word(s.mem, s.tab[Top(r)], v.i4).present
              && Word(s.mem, s.tab[Sub(Top(r), v.i4)], v.i3).present
              && Word(s.mem, s.tab[Sub(Sub(Top(r), v.i4), v.i3)], v.i2).present
  {
    hide Inv;
    if LeafTable(r, v) in s.tab {
      LinkAt(s, Sub(Sub(Top(r), v.i4), v.i3), v.i2);
      LinkAt(s, Sub(Top(r), v.i4), v.i3);
      LinkAt(s, Top(r), v.i4);
    }
  }

  /** The kernel's slot of every root is as it was. */
  predicate KernelSlotsKept(mem0: seq<Page>, mem1: seq<Page>, roots: set<Frame>) {
    forall r :: r in roots ==> Word(mem1, r, 511) == Word(mem0, r, 511)
  }

  lemma KernelSlotsAfterWrite(s: Phys, p: Pos, i: nat, e: Entry)
    requires Inv(s) && p in s.tab && i < Slots(p) && s.tab[p] < |s.mem| && IsTable(s.mem[s.tab[p]])
    ensures KernelSlotsKept(s.mem, SetWord(s.mem, s.tab[p], i, e), s.roots)
  {
    hide FreeOk, LinkOk, LeafOk, AbsentOk, MappedOk, KernelOk;
    assert forall r :: r in s.roots && s.tab[Top(r)] == s.tab[p] ==> p == Top(r);
  }

  /** A missing table leaves nothing mapped below its slot. */
  lemma AbsentSlot(s: Phys, p: Pos, i: nat)
    requires Inv(s) && p in s.tab && Depth(p) < 3 && i < Slots(p) && !Word(s.mem, s.tab[p], i).present
    ensures Sub(p, i) !in s.tab && forall k :: k in s.maps || k in s.tab ==> Via(p, k) != i
  {
    hide Inv;
    if Sub(p, i) in s.tab {
      LinkAt(s, p, i);
    }
    forall k | k in s.maps || k in s.tab ensures Via(p, k) != i {
      NothingBelow(s, Sub(p, i), k);
      ViaSplit(p, i, k);
    }
  }

  /** What `Inv` says about one mapping. */
  lemma MappedAt(s: Phys, k: Pos)
    requires Inv(s) && k in s.maps
    ensures s.maps[k].frame < |s.mem| && IsData(s.mem[s.maps[k].frame]) && s.maps[k].frame !in s.free
    ensures s.maps[k].present && Depth(k) == 4
  {
    hide FreeOk, StoredOk, RootsOk, LinkOk, AbsentOk;
    assert k == Sub(k.parent, k.index);
  }

  /** Mappings below a last-level table are its own words. */
  lemma ViaOfLeaf(s: Phys, p: Pos, k: Pos)
    requires Inv(s) && k in s.maps && Depth(p) == 3 && Via(p, k) >= 0
    ensures k == Sub(p, Via(p, k)) && Via(p, k) < 512
  {
    hide Inv;
    MappedAt(s, k);
    ViaBound(s, p, k);
    if k.parent != p {
      ViaIsBelow(p, k.parent);
    }
  }

  lemma OnlyLeafVia(s: Phys, p: Pos, i: nat)
    requires Inv(s) && Depth(p) == 3
    ensures forall k :: k in s.maps && Via(p, k) == i ==> k == Sub(p, i)
  {
    hide Inv;
    forall k | k in s.maps && Via(p, k) == i ensures k == Sub(p, i) {
      ViaOfLeaf(s, p, k);
    }
  }

  lemma ViaOwnSlot(p: Pos, i: nat)
    ensures Via(p, Sub(p, i)) == i
  {
  }

  /** A table is not below its own slots. */
  lemma ViaOutside(p: Pos, i: nat)
    ensures Via(Sub(p, i), p) < 0
  {
    ViaIsBelow(Sub(p, i), p);
  }

  lemma TopIsDepth0(p: Pos)
    ensures p.Top? <==> Depth(p) == 0
  {
  }

  /** No mapping sits at the position of an upper slot. */
  lemma SlotIsNoMapping(s: Phys, p: Pos, i: nat)
    requires Inv(s) && Depth(p) < 3
    ensures Sub(p, i) !in s.maps
  {
    hide Inv;
    if Sub(p, i) in s.maps {
      MappedAt(s, Sub(p, i));
    }
  }

  /** A slot that links no table holds no present word. */
  lemma UnlinkedSlot(s: Phys, p: Pos, i: nat)
    requires Inv(s) && p in s.tab && Depth(p) < 3 && i < Slots(p) && Sub(p, i) !in s.tab
    ensures !Word(s.mem, s.tab[p], i).present
  {
    hide Inv;
    if Word(s.mem, s.tab[p], i).present {
      LinkFrom(s, p, i);
    }
  }

  /** Words that are not present are zero. */
  lemma AbsentAt(s: Phys, p: Pos, i: nat)
    requires Inv(s) && p in s.tab && i < 512
    ensures Word(s.mem, s.tab[p], i).present || Word(s.mem, s.tab[p], i) == ZERO_ENTRY
  {
    hide FreeOk, RootsOk, LinkOk, LeafOk, MappedOk, KernelOk;
  }

  lemma SlotsBelow(s: Phys, p: Pos, i: nat)
    requires Inv(s) && Depth(p) < 3
    ensures forall k :: k in s.maps || k in s.tab ==> Via(Sub(p, i), k) < 512
    ensures Depth(p) == 2 ==> forall k :: k in s.tab ==> Via(Sub(p, i), k) < 0
  {
    hide Inv;
    forall k | k in s.maps || k in s.tab ensures Via(Sub(p, i), k) < 512 {
      ViaBound(s, Sub(p, i), k);
    }
    if Depth(p) == 2 {
      forall k | k in s.tab ensures Via(Sub(p, i), k) < 0 {
        ViaIsBelow(Sub(p, i), k);
        if k.Sub? {
          ParentHasTable(s, k);
        }
      }
    }
  }

  // ---------- What one write does to each part of the invariant ----------

  function SetWord(mem: seq<Page>, f: Frame, i: nat, e: Entry): seq<Page>
    requires f < |mem| && IsTable(mem[f]) && i < 512
  {
    mem[f := Table(mem[f].entries[i := e])]
  }

  const NO_WORDS: Words := ZeroTable().entries

  ghost predicate BarePos(tab: map<Pos, Frame>, maps: map<Pos, Entry>, p: Pos) {
    (forall j: nat :: Sub(p, j) !in tab) && (forall j: nat :: Sub(p, j) !in maps)
  }

  lemma StoredAfterWrite(mem: seq<Page>, tab: map<Pos, Frame>, own: map<Frame, Pos>, tree: map<Pos, Words>,
                         p: Pos, i: nat, e: Entry)
    requires StoredOk(mem, tab, own, tree) && p in tab && i < 512
    ensures StoredOk(SetWord(mem, tab[p], i, e), tab, own, tree[p := tree[p][i := e]])
  {
  }

  lemma StoredAfterNew(mem: seq<Page>, tab: map<Pos, Frame>, own: map<Frame, Pos>, tree: map<Pos, Words>,
                       q: Pos, g: Frame)
    requires StoredOk(mem, tab, own, tree) && q !in tab && g < |mem| && IsData(mem[g])
    ensures StoredOk(mem[g := ZeroTable()], tab[q := g], own[g := q], tree[q := NO_WORDS])
  {
  }

  lemma StoredAfterDrop(mem: seq<Page>, tab: map<Pos, Frame>, own: map<Frame, Pos>, tree: map<Pos, Words>, q: Pos)
    requires StoredOk(mem, tab, own, tree)
    ensures StoredOk(mem, tab - {q}, own, tree - {q})
  {
  }

  lemma DataAfterTableWrite(mem: seq<Page>, free: set<Frame>, maps: map<Pos, Entry>, f: Frame, pg: Page)
    requires FreeOk(mem, free) && MappedOk(mem, free, maps) && f < |mem| && mem[f].Table?
    ensures FreeOk(mem[f := pg], free) && MappedOk(mem[f := pg], free, maps)
  {
  }

  lemma DataAfterTake(mem: seq<Page>, free: set<Frame>, maps: map<Pos, Entry>, g: Frame, pg: Page)
    requires FreeOk(mem, free) && MappedOk(mem, free, maps) && g in free
    ensures FreeOk(mem[g := pg], free - {g}) && MappedOk(mem[g := pg], free - {g}, maps)
  {
  }

  lemma MappedAfterSet(mem: seq<Page>, free: set<Frame>, maps: map<Pos, Entry>, k: Pos, e: Entry)
    requires MappedOk(mem, free, maps)
    requires e.frame < |mem| && IsData(mem[e.frame]) && e.frame !in free
    ensures MappedOk(mem, free, maps[k := e])
  {
  }

  lemma MappedAfterClear(mem: seq<Page>, free: set<Frame>, maps: map<Pos, Entry>, k: Pos)
    requires MappedOk(mem, free, maps)
    ensures MappedOk(mem, free, maps - {k})
  {
  }

  /** Roots are told apart from other tables by their position alone. */
  lemma RootsAfterSub(tab: map<Pos, Frame>, roots: set<Frame>, q: Pos, g: Frame)
    requires RootsOk(tab, roots) && q.Sub?
    ensures RootsOk(tab[q := g], roots) && RootsOk(tab - {q}, roots)
  {
  }

  lemma LinkAfterNew(tab: map<Pos, Frame>, tree: map<Pos, Words>, maps: map<Pos, Entry>, p: Pos, i: nat, g: Frame)
    requires LinkOk(tab, tree) && tab.Keys == tree.Keys && p in tab && Depth(p) < 3 && i < Slots(p) <= |tree[p]|
    requires !tree[p][i].present
    ensures Sub(p, i) !in tab
    ensures LinkOk(tab[Sub(p, i) := g], tree[p := tree[p][i := UserEntry(g)]][Sub(p, i) := NO_WORDS])
  {
    hide LinkOk, Attached;
    NewSlotIsFree(tab, tree, p, i);
    var tab': map<Pos, Frame> := tab[Sub(p, i) := g];
    var tree': map<Pos, Words> := tree[p := tree[p][i := UserEntry(g)]][Sub(p, i) := NO_WORDS];
    TableIsNew(tree, tree', p, i, g);
    forall q, j: nat | Sub(q, j) in tab'
      ensures q in tree' && Depth(q) < 3 && j < Slots(q) <= |tree'[q]|
      ensures tree'[q][j].present && tree'[q][j].frame == tab'[Sub(q, j)]
    {
      NewLink(tab, tree, tree', p, i, g, q, j);
    }
    forall q, j: nat | q in tree' && Depth(q) < 3 && j < Slots(q) <= |tree'[q]| && tree'[q][j].present
      ensures Sub(q, j) in tab'
    {
      NewPresent(tab, tree, tree', p, i, g, q, j);
    }
    LinkFromParts(tab', tree');
  }

  lemma NewSlotIsFree(tab: map<Pos, Frame>, tree: map<Pos, Words>, p: Pos, i: nat)
    requires LinkOk(tab, tree) && tab.Keys == tree.Keys && p in tab && i < |tree[p]| && !tree[p][i].present
    ensures Sub(p, i) !in tab && Sub(p, i) !in tree && Sub(p, i) != p
  {
  }

  lemma LinkFromParts(tab: map<Pos, Frame>, tree: map<Pos, Words>)
    requires forall q, j: nat :: Sub(q, j) in tab ==>
               && q in tree && Depth(q) < 3 && j < Slots(q) <= |tree[q]|
               && tree[q][j].present && tree[q][j].frame == tab[Sub(q, j)]
    requires forall q, j: nat :: q in tree && Depth(q) < 3 && j < Slots(q) <= |tree[q]| && tree[q][j].present ==>
               Sub(q, j) in tab
    ensures LinkOk(tab, tree)
  {
  }

  /** The words after a table has been linked: one new, those of the new table absent. */
  ghost predicate Attached(tree: map<Pos, Words>, tree': map<Pos, Words>, p: Pos, i: nat, g: Frame) {
    && p in tree && i < |tree[p]| && p in tree' && Sub(p, i) in tree'
    && (forall q :: q in tree' <==> q in tree || q == Sub(p, i))
    && (forall q :: q in tree && q != p ==> q in tree' && tree'[q] == tree[q])
    && tree'[p] == tree[p][i := UserEntry(g)] && tree'[Sub(p, i)] == NO_WORDS
  }

  lemma TableIsNew(tree: map<Pos, Words>, tree': map<Pos, Words>, p: Pos, i: nat, g: Frame)
    requires p in tree && i < |tree[p]| && Sub(p, i) !in tree && Sub(p, i) != p
    requires tree' == tree[p := tree[p][i := UserEntry(g)]][Sub(p, i) := NO_WORDS]
    ensures Attached(tree, tree', p, i, g)
  {
  }

  lemma NewLink(tab: map<Pos, Frame>, tree: map<Pos, Words>, tree': map<Pos, Words>, p: Pos, i: nat, g: Frame,
                q: Pos, j: nat)
    requires LinkOk(tab, tree) && Attached(tree, tree', p, i, g)
    requires Depth(p) < 3 && i < Slots(p) <= |tree[p]| && Sub(q, j) in tab[Sub(p, i) := g] && Sub(p, i) !in tab
    ensures q in tree' && Depth(q) < 3 && j < Slots(q) <= |tree'[q]|
    ensures tree'[q][j].present && tree'[q][j].frame == tab[Sub(p, i) := g][Sub(q, j)]
  {
    if Sub(q, j) != Sub(p, i) {
      assert Sub(q, j) in tab && q in tree;
    }
  }

  lemma NewPresent(tab: map<Pos, Frame>, tree: map<Pos, Words>, tree': map<Pos, Words>, p: Pos, i: nat, g: Frame,
                   q: Pos, j: nat)
    requires LinkOk(tab, tree) && Attached(tree, tree', p, i, g) && Sub(p, i) !in tree
    requires q in tree' && Depth(q) < 3 && j < Slots(q) <= |tree'[q]| && tree'[q][j].present
    ensures Sub(q, j) in tab[Sub(p, i) := g]
  {
    if q != Sub(p, i) && Sub(q, j) != Sub(p, i) {
      assert q in tree && tree[q][j].present;
    }
  }

  lemma LinkAfterDrop(tab: map<Pos, Frame>, tree: map<Pos, Words>, p: Pos, i: nat)
    requires LinkOk(tab, tree) && tab.Keys == tree.Keys && p in tab && Depth(p) < 3 && i < Slots(p) <= |tree[p]|
    requires forall j: nat :: Sub(Sub(p, i), j) !in tab
    ensures LinkOk(tab - {Sub(p, i)}, tree[p := tree[p][i := ZERO_ENTRY]] - {Sub(p, i)})
  {
    var tab': map<Pos, Frame> := tab - {Sub(p, i)};
    var tree': map<Pos, Words> := tree[p := tree[p][i := ZERO_ENTRY]] - {Sub(p, i)};
    forall q, j: nat | Sub(q, j) in tab'
      ensures q in tree' && Depth(q) < 3 && j < Slots(q) <= |tree'[q]|
      ensures tree'[q][j].present && tree'[q][j].frame == tab'[Sub(q, j)]
    {
      assert Sub(q, j) in tab;
    }
    forall q, j: nat | q in tree' && Depth(q) < 3 && j < Slots(q) <= |tree'[q]| && tree'[q][j].present
      ensures Sub(q, j) in tab'
    {
      assert q in tree && tree[q][j].present;
    }
  }

  /** Words of last-level tables, and slot 511 of a root, link nothing. */
  lemma LinkAfterOther(tab: map<Pos, Frame>, tree: map<Pos, Words>, p: Pos, i: nat, e: Entry)
    requires LinkOk(tab, tree) && p in tree && i < |tree[p]| && (Depth(p) == 3 || i >= Slots(p))
    ensures LinkOk(tab, tree[p := tree[p][i := e]])
  {
  }

  lemma LinkAfterRoot(tab: map<Pos, Frame>, tree: map<Pos, Words>, g: Frame)
    requires LinkOk(tab, tree) && tab.Keys == tree.Keys && Top(g) !in tab
    ensures LinkOk(tab[Top(g) := g], tree[Top(g) := NO_WORDS])
    ensures forall j: nat :: Sub(Top(g), j) !in tab
  {
  }

  lemma LeafAfterUpperWrite(tree: map<Pos, Words>, maps: map<Pos, Entry>, p: Pos, ws: Words)
    requires LeafOk(tree, maps) && Depth(p) < 3
    ensures LeafOk(tree[p := ws], maps)
  {
  }

  lemma LeafAfterNew(tree: map<Pos, Words>, maps: map<Pos, Entry>, q: Pos)
    requires LeafOk(tree, maps) && q !in tree
    ensures LeafOk(tree[q := NO_WORDS], maps)
    ensures forall j: nat :: Sub(q, j) !in maps
  {
  }

  lemma LeafAfterDrop(tree: map<Pos, Words>, maps: map<Pos, Entry>, q: Pos)
    requires LeafOk(tree, maps) && forall j: nat :: Sub(q, j) !in maps
    ensures LeafOk(tree - {q}, maps)
  {
  }

  lemma LeafAfterSet(tree: map<Pos, Words>, maps: map<Pos, Entry>, p: Pos, i: nat, e: Entry)
    requires LeafOk(tree, maps) && p in tree && Depth(p) == 3 && i < |tree[p]| && e.present
    ensures LeafOk(tree[p := tree[p][i := e]], maps[Sub(p, i) := e])
  {
    var tree': map<Pos, Words> := tree[p := tree[p][i := e]];
    var maps': map<Pos, Entry> := maps[Sub(p, i) := e];
    forall q, j: nat | Sub(q, j) in maps'
      ensures q in tree' && Depth(q) == 3 && j < |tree'[q]| && tree'[q][j].present && tree'[q][j] == maps'[Sub(q, j)]
    {
      if Sub(q, j) != Sub(p, i) { assert Sub(q, j) in maps; }
    }
    forall q, j: nat | q in tree' && Depth(q) == 3 && j < |tree'[q]| && tree'[q][j].present
      ensures Sub(q, j) in maps'
    {
      if Sub(q, j) != Sub(p, i) { assert q in tree && tree[q][j].present; }
    }
  }

  lemma LeafAfterClear(tree: map<Pos, Words>, maps: map<Pos, Entry>, p: Pos, i: nat)
    requires LeafOk(tree, maps) && p in tree && Depth(p) == 3 && i < |tree[p]|
    ensures LeafOk(tree[p := tree[p][i := ZERO_ENTRY]], maps - {Sub(p, i)})
  {
    var tree': map<Pos, Words> := tree[p := tree[p][i := ZERO_ENTRY]];
    var maps': map<Pos, Entry> := maps - {Sub(p, i)};
    forall q, j: nat | Sub(q, j) in maps'
      ensures q in tree' && Depth(q) == 3 && j < |tree'[q]| && tree'[q][j].present && tree'[q][j] == maps'[Sub(q, j)]
    {
      assert Sub(q, j) in maps;
    }
    forall q, j: nat | q in tree' && Depth(q) == 3 && j < |tree'[q]| && tree'[q][j].present
      ensures Sub(q, j) in maps'
    {
      assert q in tree && tree[q][j].present;
    }
  }

  lemma KernelAfterTableWrite(mem: seq<Page>, free: set<Frame>, tab: map<Pos, Frame>, kernel: map<Frame, Page>,
                              p: Pos, pg: Page)
    requires KernelOk(mem, free, tab, kernel) && p in tab && tab[p] < |mem|
    ensures KernelOk(mem[tab[p] := pg], free, tab, kernel)
  {
  }

  lemma KernelAfterTake(mem: seq<Page>, free: set<Frame>, tab: map<Pos, Frame>, kernel: map<Frame, Page>,
                        q: Pos, g: Frame, pg: Page)
    requires KernelOk(mem, free, tab, kernel) && g in free && g < |mem|
    ensures KernelOk(mem[g := pg], free - {g}, tab[q := g], kernel)
    ensures KernelOk(mem, free - {g}, tab, kernel)
  {
  }

  lemma KernelAfterDrop(mem: seq<Page>, free: set<Frame>, tab: map<Pos, Frame>, kernel: map<Frame, Page>, q: Pos)
    requires KernelOk(mem, free, tab, kernel)
    ensures KernelOk(mem, free, tab - {q}, kernel)
  {
  }

  lemma KernelAfterData(mem: seq<Page>, free: set<Frame>, tab: map<Pos, Frame>, kernel: map<Frame, Page>,
                        f: Frame, pg: Page)
    requires KernelOk(mem, free, tab, kernel) && f < |mem| && mem[f].Data?
    ensures KernelOk(mem[f := pg], free, tab, kernel)
  {
  }

  lemma AbsentAfterWrite(tree: map<Pos, Words>, p: Pos, i: nat, e: Entry)
    requires AbsentOk(tree) && p in tree && i < |tree[p]| && (e.present || e == ZERO_ENTRY)
    ensures AbsentOk(tree[p := tree[p][i := e]])
  {
  }

  lemma AbsentAfterNew(tree: map<Pos, Words>, q: Pos)
    requires AbsentOk(tree)
    ensures AbsentOk(tree[q := NO_WORDS]) && AbsentOk(tree - {q})
  {
  }

  // ---------- The writes the kernel makes, one word at a time ----------

  ghost predicate Bare(s: Phys, p: Pos) {
    BarePos(s.tab, s.maps, p)
  }

  /** What `Inv` says about one table. */
  lemma TableAt(s: Phys, p: Pos)
    requires Inv(s) && p in s.tab
    ensures s.tab.Keys == s.tree.Keys && |s.tree[p]| == 512
    ensures s.tab[p] < |s.mem| && s.mem[s.tab[p]] == Table(s.tree[p])
    ensures p.Top? ==> s.tab[p] == p.root && p.root in s.roots
  {
    hide FreeOk, LinkOk, LeafOk, AbsentOk, MappedOk, KernelOk;
  }

  lemma RootHasTable(s: Phys, r: Frame)
    requires Inv(s) && r in s.roots
    ensures Top(r) in s.tab && s.tab[Top(r)] == r
  {
    hide FreeOk, StoredOk, LinkOk, LeafOk, AbsentOk, MappedOk, KernelOk;
  }

  /** What `Inv` says about one frame of the free list. */
  lemma FreeAt(s: Phys, g: Frame)
    requires Inv(s) && g in s.free
    ensures g < |s.mem| && IsData(s.mem[g]) && g !in s.roots && Top(g) !in s.tab
  {
    hide LinkOk, LeafOk, AbsentOk, MappedOk, KernelOk;
  }

  /** No mapping points at a free frame. */
  lemma FreeIsUnmapped(s: Phys, g: Frame)
    requires Inv(s) && g in s.free
    ensures Count(s.maps, g) == 0
  {
    hide FreeOk, StoredOk, RootsOk, LinkOk, LeafOk, AbsentOk;
    CountOfUnmapped(s.maps, g);
  }

  /** getFreeFrame alone: the frame leaves the list. */
  lemma TakeFrameKeepsInv(s: Phys, g: Frame)
    requires Inv(s) && g in s.free
    ensures Inv(s.(free := s.free - {g}))
  {
    hide FreeOk, StoredOk, RootsOk, LinkOk, LeafOk, AbsentOk, MappedOk, KernelOk;
    FreeAt(s, g);
    assert s.mem[g := s.mem[g]] == s.mem;
    DataAfterTake(s.mem, s.free, s.maps, g, s.mem[g]);
    KernelAfterTake(s.mem, s.free, s.tab, s.kernel, Top(g), g, s.mem[g]);
  }

  ghost function LinkTable(s: Phys, p: Pos, i: nat, g: Frame): Phys
    requires Inv(s) && g in s.free && p in s.tab && i < 512
  {
    TableAt(s, p); FreeAt(s, g);
    Phys(SetWord(s.mem, s.tab[p], i, UserEntry(g))[g := ZeroTable()],
         s.free - {g}, s.tab[Sub(p, i) := g], s.own[g := Sub(p, i)],
         s.tree[p := s.tree[p][i := UserEntry(g)]][Sub(p, i) := NO_WORDS], s.maps, s.roots, s.kernel)
  }

  /** A zeroed fresh frame may be linked under an absent word. */
  lemma LinkTableKeepsInv(s: Phys, p: Pos, i: nat, g: Frame)
    requires Inv(s) && g in s.free && p in s.tab && Depth(p) < 3
    requires i < Slots(p) && p in s.tree && |s.tree[p]| == 512 && !s.tree[p][i].present
    ensures Inv(LinkTable(s, p, i, g)) && Bare(LinkTable(s, p, i, g), Sub(p, i)) && Sub(p, i) !in s.tab
  {
    hide FreeOk, StoredOk, RootsOk, LinkOk, LeafOk, AbsentOk, MappedOk, KernelOk;
    TableAt(s, p); FreeAt(s, g);
    var e, q := UserEntry(g), Sub(p, i);
    var mem1, tree1 := SetWord(s.mem, s.tab[p], i, e), s.tree[p := s.tree[p][i := e]];
    DataAfterTableWrite(s.mem, s.free, s.maps, s.tab[p], mem1[s.tab[p]]);
    DataAfterTake(mem1, s.free, s.maps, g, ZeroTable());
    KernelAfterTableWrite(s.mem, s.free, s.tab, s.kernel, p, mem1[s.tab[p]]);
    KernelAfterTake(mem1, s.free, s.tab, s.kernel, q, g, ZeroTable());
    RootsAfterSub(s.tab, s.roots, q, g);
    LinkAfterNew(s.tab, s.tree, s.maps, p, i, g);
    SubsOfNew(s, q);
    StoredAfterWrite(s.mem, s.tab, s.own, s.tree, p, i, e);
    StoredAfterNew(mem1, s.tab, s.own, tree1, q, g);
    LeafAfterUpperWrite(s.tree, s.maps, p, tree1[p]);
    LeafAfterNew(tree1, s.maps, q);
    AbsentAfterWrite(s.tree, p, i, e);
    AbsentAfterNew(tree1, q);
  }

  /** Below a position without a table there is none. */
  lemma SubsOfNew(s: Phys, q: Pos)
    requires Inv(s) && q !in s.tab
    ensures forall j: nat :: Sub(q, j) !in s.tab
  {
    hide FreeOk, LeafOk, AbsentOk, MappedOk, KernelOk;
  }

  ghost function SetLeaf(s: Phys, p: Pos, i: nat, e: Entry): Phys
    requires Inv(s) && p in s.tab && i < 512
  {
    TableAt(s, p);
    Phys(SetWord(s.mem, s.tab[p], i, e), s.free, s.tab, s.own, s.tree[p := s.tree[p][i := e]],
         s.maps[Sub(p, i) := e], s.roots, s.kernel)
  }

  lemma SetLeafKeepsInv(s: Phys, p: Pos, i: nat, e: Entry)
    requires Inv(s) && p in s.tab && Depth(p) == 3 && i < 512
    requires e.present && e.frame < |s.mem| && IsData(s.mem[e.frame]) && e.frame !in s.free
    ensures Inv(SetLeaf(s, p, i, e))
  {
    hide FreeOk, StoredOk, RootsOk, LinkOk, LeafOk, AbsentOk, MappedOk, KernelOk;
    TableAt(s, p);
    var mem1 := SetWord(s.mem, s.tab[p], i, e);
    DataAfterTableWrite(s.mem, s.free, s.maps, s.tab[p], mem1[s.tab[p]]);
    MappedAfterSet(mem1, s.free, s.maps, Sub(p, i), e);
    KernelAfterTableWrite(s.mem, s.free, s.tab, s.kernel, p, mem1[s.tab[p]]);
    StoredAfterWrite(s.mem, s.tab, s.own, s.tree, p, i, e);
    LinkAfterOther(s.tab, s.tree, p, i, e);
    LeafAfterSet(s.tree, s.maps, p, i, e);
    AbsentAfterWrite(s.tree, p, i, e);
  }

  ghost function ClearLeaf(s: Phys, p: Pos, i: nat): Phys
    requires Inv(s) && p in s.tab && i < 512
  {
    TableAt(s, p);
    Phys(SetWord(s.mem, s.tab[p], i, ZERO_ENTRY), s.free, s.tab, s.own,
         s.tree[p := s.tree[p][i := ZERO_ENTRY]], s.maps - {Sub(p, i)}, s.roots, s.kernel)
  }

  lemma ClearLeafKeepsInv(s: Phys, p: Pos, i: nat)
    requires Inv(s) && p in s.tab && Depth(p) == 3 && i < 512
    ensures Inv(ClearLeaf(s, p, i))
  {
    hide FreeOk, StoredOk, RootsOk, LinkOk, LeafOk, AbsentOk, MappedOk, KernelOk;
    TableAt(s, p);
    var mem1 := SetWord(s.mem, s.tab[p], i, ZERO_ENTRY);
    DataAfterTableWrite(s.mem, s.free, s.maps, s.tab[p], mem1[s.tab[p]]);
    MappedAfterClear(mem1, s.free, s.maps, Sub(p, i));
    KernelAfterTableWrite(s.mem, s.free, s.tab, s.kernel, p, mem1[s.tab[p]]);
    StoredAfterWrite(s.mem, s.tab, s.own, s.tree, p, i, ZERO_ENTRY);
    LinkAfterOther(s.tab, s.tree, p, i, ZERO_ENTRY);
    LeafAfterClear(s.tree, s.maps, p, i);
    AbsentAfterWrite(s.tree, p, i, ZERO_ENTRY);
  }

  ghost function Unlink(s: Phys, p: Pos, i: nat): Phys
    requires Inv(s) && p in s.tab && i < 512
  {
    TableAt(s, p);
    Phys(SetWord(s.mem, s.tab[p], i, ZERO_ENTRY), s.free, s.tab - {Sub(p, i)}, s.own,
         s.tree[p := s.tree[p][i := ZERO_ENTRY]] - {Sub(p, i)}, s.maps, s.roots, s.kernel)
  }

  /** Zeroing an upper word drops a table that has nothing below it. */
  lemma UnlinkKeepsInv(s: Phys, p: Pos, i: nat)
    requires Inv(s) && p in s.tab && Depth(p) < 3 && i < Slots(p) && Bare(s, Sub(p, i))
    ensures Inv(Unlink(s, p, i))
  {
    hide FreeOk, StoredOk, RootsOk, LinkOk, LeafOk, AbsentOk, MappedOk, KernelOk;
    TableAt(s, p);
    var mem1, tree1 := SetWord(s.mem, s.tab[p], i, ZERO_ENTRY), s.tree[p := s.tree[p][i := ZERO_ENTRY]];
    DataAfterTableWrite(s.mem, s.free, s.maps, s.tab[p], mem1[s.tab[p]]);
    KernelAfterTableWrite(s.mem, s.free, s.tab, s.kernel, p, mem1[s.tab[p]]);
    KernelAfterDrop(mem1, s.free, s.tab, s.kernel, Sub(p, i));
    RootsAfterSub(s.tab, s.roots, Sub(p, i), 0);
    StoredAfterWrite(s.mem, s.tab, s.own, s.tree, p, i, ZERO_ENTRY);
    StoredAfterDrop(mem1, s.tab, s.own, tree1, Sub(p, i));
    LinkAfterDrop(s.tab, s.tree, p, i);
    LeafAfterUpperWrite(s.tree, s.maps, p, tree1[p]);
    LeafAfterDrop(tree1, s.maps, Sub(p, i));
    AbsentAfterWrite(s.tree, p, i, ZERO_ENTRY);
    AbsentAfterNew(tree1, Sub(p, i));
  }

  ghost function NewRoot(s: Phys, g: Frame): Phys
    requires Inv(s) && g in s.free
  {
    FreeAt(s, g);
    Phys(s.mem[g := ZeroTable()], s.free - {g}, s.tab[Top(g) := g], s.own[g := Top(g)],
         s.tree[Top(g) := NO_WORDS], s.maps, s.roots + {g}, s.kernel)
  }

  lemma NewRootKeepsInv(s: Phys, g: Frame)
    requires Inv(s) && g in s.free
    ensures Inv(NewRoot(s, g)) && Bare(NewRoot(s, g), Top(g)) && g !in s.roots
  {
    FreeAt(s, g);
    SubsOfNew(s, Top(g));
    assert Top(g) !in s.tree by { hide FreeOk, LinkOk, LeafOk, AbsentOk, MappedOk, KernelOk; }
    hide FreeOk, LinkOk, LeafOk, AbsentOk, MappedOk, KernelOk;
    DataAfterTake(s.mem, s.free, s.maps, g, ZeroTable());
    KernelAfterTake(s.mem, s.free, s.tab, s.kernel, Top(g), g, ZeroTable());
    StoredAfterNew(s.mem, s.tab, s.own, s.tree, Top(g), g);
    LinkAfterRoot(s.tab, s.tree, g);
    LeafAfterNew(s.tree, s.maps, Top(g));
    AbsentAfterNew(s.tree, Top(g));
  }

  ghost function DropRoot(s: Phys, r: Frame): Phys {
    Phys(s.mem, s.free, s.tab - {Top(r)}, s.own, s.tree - {Top(r)}, s.maps, s.roots - {r}, s.kernel)
  }

  lemma DropRootKeepsInv(s: Phys, r: Frame)
    requires Inv(s) && r in s.roots && Bare(s, Top(r))
    ensures Inv(DropRoot(s, r))
  {
    hide FreeOk, StoredOk, LeafOk, AbsentOk, MappedOk, KernelOk;
    KernelAfterDrop(s.mem, s.free, s.tab, s.kernel, Top(r));
    StoredAfterDrop(s.mem, s.tab, s.own, s.tree, Top(r));
    LeafAfterDrop(s.tree, s.maps, Top(r));
    AbsentAfterNew(s.tree, Top(r));
  }

  /** A write to a data frame leaves every table as it was. */
  lemma StoreKeepsInv(s: Phys, f: Frame, pg: Page)
    requires Inv(s) && f < |s.mem| && IsData(s.mem[f]) && IsData(pg)
    ensures Inv(s.(mem := s.mem[f := pg]))
  {
    hide RootsOk, LinkOk, LeafOk, AbsentOk, KernelOk;
    KernelAfterData(s.mem, s.free, s.tab, s.kernel, f, pg);
  }

  ghost function SetKernelSlot(s: Phys, r: Frame, e: Entry): Phys
    requires Inv(s) && Top(r) in s.tab
  {
    TableAt(s, Top(r));
    Phys(SetWord(s.mem, r, 511, e), s.free, s.tab, s.own,
         s.tree[Top(r) := s.tree[Top(r)][511 := e]], s.maps, s.roots, s.kernel)
  }

  /** Slot 511 of a root belongs to no tree. */
  lemma KernelSlotKeepsInv(s: Phys, r: Frame, e: Entry)
    requires Inv(s) && Top(r) in s.tab && (e.present || e == ZERO_ENTRY)
    ensures Inv(SetKernelSlot(s, r, e))
  {
    hide FreeOk, StoredOk, RootsOk, LinkOk, LeafOk, AbsentOk, MappedOk, KernelOk;
    TableAt(s, Top(r));
    DataAfterTableWrite(s.mem, s.free, s.maps, r, SetWord(s.mem, r, 511, e)[r]);
    KernelAfterTableWrite(s.mem, s.free, s.tab, s.kernel, Top(r), SetWord(s.mem, r, 511, e)[r]);
    StoredAfterWrite(s.mem, s.tab, s.own, s.tree, Top(r), 511, e);
    LinkAfterOther(s.tab, s.tree, Top(r), 511, e);
    LeafAfterUpperWrite(s.tree, s.maps, Top(r), s.tree[Top(r)][511 := e]);
    AbsentAfterWrite(s.tree, Top(r), 511, e);
  }

  /** What `Inv` says about the kernel's own tables. */
  lemma KernelAt(s: Phys, f: Frame)
    requires Inv(s) && f in s.kernel
    ensures f < |s.mem| && s.mem[f] == s.kernel[f] && s.kernel[f].Table?
  {
    hide FreeOk, StoredOk, RootsOk, LinkOk, LeafOk, AbsentOk, MappedOk;
  }
}
