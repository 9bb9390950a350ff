/**
 Copy-on-write fork against eager fork.

 `Flat` is the machine as the page tables mean it: who maps which frame with which
 flags, and what the frames hold.  `Spaces` is the machine a user imagines: every task
 owns its pages.  Every run of the flat machine reads like the same run on spaces.
 */
module CowModel {
  import opened PageModel

  type Bytes = seq<Byte>

  datatype Flat = Flat(maps: map<Pos, Entry>, data: map<Frame, Bytes>, free: seq<Frame>, roots: set<Frame>)

  /**
   `taken` counts the frames a step pops from the free list.  Create and Fork pop the child's root
   first, MapFresh its data frame first; the other frames become page tables.
   CopyOnWrite is the fault handler's repair, after which the store is tried again.
   */
  datatype Step =
    | Create(root: Frame)
    | Fork(parent: Frame, child: Frame, taken: nat)
    | MapFresh(page: Pos, content: Bytes, taken: nat)
    | CopyOnWrite(page: Pos)
    | Store(page: Pos, offset: nat, value: Byte)
    | Dealloc(root: Frame)
    | Reap(root: Frame)

  // ---------- The copy-on-write machine ----------

  /** The pages of a parent, seen as pages of its child. */
  function ClonesOf<T>(m: map<Pos, T>, parent: Frame, child: Frame): set<Pos> {
    set k | k in m && RootOf(k) == parent :: Retarget(k, child)
  }

  function Entry0(m: map<Pos, Entry>, k: Pos): Entry {
    if k in m then m[k] else ZERO_ENTRY
  }

  function ForkMaps(m: map<Pos, Entry>, parent: Frame, child: Frame): map<Pos, Entry> {
    map k | k in m.Keys + ClonesOf(m, parent, child) ::
      if k in m then (if RootOf(k) == parent then CowTag(m[k]) else m[k])
      else CowTag(Entry0(m, Retarget(k, parent)))
  }

  function WithoutRoot<T>(m: map<Pos, T>, r: Frame): map<Pos, T> {
    map k | k in m && RootOf(k) != r :: m[k]
  }

  /** Frames that became tables hold no data any more. */
  function WithoutFrames(d: map<Frame, Bytes>, taken: seq<Frame>): map<Frame, Bytes> {
    map f | f in d && f !in taken :: d[f]
  }

  predicate Enabled(s: Flat, st: Step) {
    match st
    case Create(c) => s.free != [] && c == s.free[0]
    case Fork(p, c, n) => p in s.roots && 1 <= n <= |s.free| && c == s.free[0]
    case MapFresh(k, w, n) =>
      RootOf(k) in s.roots && 1 <= n <= |s.free| && s.free[0] in s.data && w == s.data[s.free[0]]
    case CopyOnWrite(k) => k in s.maps && s.maps[k].cow && s.maps[k].frame in s.data && s.free != []
    case Store(k, off, b) =>
      k in s.maps && s.maps[k].writable && s.maps[k].frame in s.data && off < |s.data[s.maps[k].frame]|
    case Dealloc(r) => r in s.roots
    case Reap(r) => r in s.roots
  }

  function Apply(s: Flat, st: Step): Flat
    requires Enabled(s, st)
  {
    match st
    case Create(c) => Flat(s.maps, WithoutFrames(s.data, [c]), s.free[1..], s.roots + {c})
    case Fork(p, c, n) =>
      Flat(ForkMaps(s.maps, p, c), WithoutFrames(s.data, s.free[..n]), s.free[n..], s.roots + {c})
    case MapFresh(k, w, n) =>
      Flat(s.maps[k := UserEntry(s.free[0])], WithoutFrames(s.data, s.free[1..n]), s.free[n..], s.roots)
    case CopyOnWrite(k) =>
      Flat(s.maps[k := UserEntry(s.free[0])], s.data[s.free[0] := s.data[s.maps[k].frame]], s.free[1..], s.roots)
    case Store(k, off, b) =>
      s.(data := s.data[s.maps[k].frame := s.data[s.maps[k].frame][off := b]])
    case Dealloc(r) => s.(maps := WithoutRoot(s.maps, r))
    case Reap(r) => s.(maps := WithoutRoot(s.maps, r), roots := s.roots - {r})
  }

  // ---------- The eager machine ----------

  type Spaces = map<Pos, Bytes>

  function Bytes0(e: Spaces, k: Pos): Bytes {
    if k in e then e[k] else []
  }

  /** Fork copies every page at once; a store changes one page of one task. */
  function EagerApply(e: Spaces, st: Step): Spaces {
    match st
    case Create(_) => e
    case Fork(p, c, _) =>
      map k | k in e.Keys + ClonesOf(e, p, c) :: if k in e then e[k] else Bytes0(e, Retarget(k, p))
    case MapFresh(k, w, _) => e[k := w]
    case CopyOnWrite(_) => e
    case Store(k, off, b) => if k in e && off < |e[k]| then e[k := e[k][off := b]] else e
    case Dealloc(r) => WithoutRoot(e, r)
    case Reap(r) => WithoutRoot(e, r)
  }

  /** What each task reads at each of its mapped pages. */
  function Reads(s: Flat): Spaces {
    map k | k in s.maps :: if s.maps[k].frame in s.data then s.data[s.maps[k].frame] else []
  }

  // ---------- The invariant ----------

  ghost predicate EntryOk(s: Flat, k: Pos)
    requires k in s.maps
  {
    var e := s.maps[k];
    && RootOf(k) in s.roots && e.present && e.user && e.writable == !e.cow
    && e.frame in s.data && e.frame !in s.free && |s.data[e.frame]| == PAGE_SIZE
  }

  /** A frame mapped by two entries is read-only and tagged in both. */
  ghost predicate SharedOk(maps: map<Pos, Entry>, k: Pos, j: Pos)
    requires k in maps && j in maps
  {
    maps[k].frame == maps[j].frame && k != j ==> maps[k].cow && maps[j].cow
  }

  ghost predicate FreeListOk(s: Flat) {
    && (forall i, j :: 0 <= i < j < |s.free| ==> s.free[i] != s.free[j])
    && (forall f :: f in s.free ==> f in s.data && |s.data[f]| == PAGE_SIZE)
    && (forall r :: r in s.roots ==> r !in s.data)
  }

  ghost predicate CowInv(s: Flat) {
    && FreeListOk(s)
    && (forall k :: k in s.maps ==> EntryOk(s, k))
    && (forall k, j :: k in s.maps && j in s.maps ==> SharedOk(s.maps, k, j))
  }

  // ---------- Every step keeps the invariant ----------

  lemma EntryAt(s: Flat, k: Pos)
    requires CowInv(s) && k in s.maps
    ensures EntryOk(s, k)
  {
  }

  lemma ForkMapsAt(m: map<Pos, Entry>, p: Frame, c: Frame, k: Pos)
    requires p != c && forall j :: j in m ==> RootOf(j) != c
    ensures k in ForkMaps(m, p, c) <==> k in m || (RootOf(k) == c && Retarget(k, p) in m)
    ensures k in ForkMaps(m, p, c) ==>
              ForkMaps(m, p, c)[k] == if RootOf(k) == c then CowTag(m[Retarget(k, p)])
                                      else if RootOf(k) == p then CowTag(m[k]) else m[k]
  {
    if k in ClonesOf(m, p, c) {
      var j :| j in m && RootOf(j) == p && Retarget(j, c) == k;
      RetargetBack(j, c);
    }
    if RootOf(k) == c && Retarget(k, p) in m {
      RetargetBack(k, p);
      assert Retarget(Retarget(k, p), c) in ClonesOf(m, p, c);
    }
  }

  lemma ForkKeepsInv(s: Flat, p: Frame, c: Frame, n: nat)
    requires CowInv(s) && Enabled(s, Fork(p, c, n))
    ensures CowInv(Apply(s, Fork(p, c, n)))
  {
    var s' := Apply(s, Fork(p, c, n));
    assert c in s.free;
    assert forall j :: j in s.maps ==> EntryOk(s, j) && RootOf(j) != c;
    assert FreeListOk(s');
    hide FreeListOk;
    forall k | k in s'.maps ensures EntryOk(s', k) {
      ForkMapsAt(s.maps, p, c, k);
    }
    forall k, j | k in s'.maps && j in s'.maps ensures SharedOk(s'.maps, k, j) {
      ForkMapsAt(s.maps, p, c, k);
      ForkMapsAt(s.maps, p, c, j);
      var k0, j0 := if RootOf(k) == c then Retarget(k, p) else k, if RootOf(j) == c then Retarget(j, p) else j;
      assert SharedOk(s.maps, k0, j0);
    }
  }

  lemma CreateKeepsInv(s: Flat, c: Frame)
    requires CowInv(s) && Enabled(s, Create(c))
    ensures CowInv(Apply(s, Create(c))) && Reads(Apply(s, Create(c))) == Reads(s)
  {
    var s' := Apply(s, Create(c));
    assert c in s.free && FreeListOk(s');
    forall k | k in s'.maps ensures EntryOk(s', k) {
      assert EntryOk(s, k);
    }
    forall k, j | k in s'.maps && j in s'.maps ensures SharedOk(s'.maps, k, j) {
      assert SharedOk(s.maps, k, j);
    }
  }

  lemma MapFreshKeepsInv(s: Flat, k: Pos, w: Bytes, n: nat)
    requires CowInv(s) && Enabled(s, MapFresh(k, w, n))
    ensures CowInv(Apply(s, MapFresh(k, w, n)))
  {
    var s', g := Apply(s, MapFresh(k, w, n)), s.free[0];
    assert FreeListOk(s') && g !in s'.free && g !in s.free[1..n];
    forall j | j in s'.maps ensures EntryOk(s', j) {
      assert j in s.maps ==> EntryOk(s, j);
    }
    forall i, j | i in s'.maps && j in s'.maps ensures SharedOk(s'.maps, i, j) {
      assert i in s.maps && j in s.maps ==> EntryOk(s, i) && EntryOk(s, j) && SharedOk(s.maps, i, j);
    }
  }

  lemma CopyOnWriteKeepsInv(s: Flat, k: Pos)
    requires CowInv(s) && Enabled(s, CopyOnWrite(k))
    ensures CowInv(Apply(s, CopyOnWrite(k)))
  {
    var s' := Apply(s, CopyOnWrite(k));
    assert EntryOk(s, k) && FreeListOk(s');
    forall j | j in s'.maps ensures EntryOk(s', j) {
      assert EntryOk(s, j);
    }
    forall i, j | i in s'.maps && j in s'.maps ensures SharedOk(s'.maps, i, j) {
      assert i in s.maps && j in s.maps ==> EntryOk(s, i) && EntryOk(s, j) && SharedOk(s.maps, i, j);
    }
  }

  lemma StoreKeepsInv(s: Flat, k: Pos, off: nat, b: Byte)
    requires CowInv(s) && Enabled(s, Store(k, off, b))
    ensures CowInv(Apply(s, Store(k, off, b)))
  {
    var s' := Apply(s, Store(k, off, b));
    assert EntryOk(s, k) && FreeListOk(s');
    forall j | j in s'.maps ensures EntryOk(s', j) {
      assert EntryOk(s, j);
    }
    forall i, j | i in s'.maps && j in s'.maps ensures SharedOk(s'.maps, i, j) {
      assert i in s.maps && j in s.maps ==> EntryOk(s, i) && EntryOk(s, j) && SharedOk(s.maps, i, j);
    }
  }

  lemma RemoveKeepsInv(s: Flat, st: Step)
    requires CowInv(s) && Enabled(s, st) && (st.Dealloc? || st.Reap?)
    ensures CowInv(Apply(s, st))
  {
    var s' := Apply(s, st);
    assert FreeListOk(s');
    forall j | j in s'.maps ensures EntryOk(s', j) {
      assert EntryOk(s, j);
    }
    forall i, j | i in s'.maps && j in s'.maps ensures SharedOk(s'.maps, i, j) {
      assert SharedOk(s.maps, i, j);
    }
  }

  lemma StepKeepsInv(s: Flat, st: Step)
    requires CowInv(s) && Enabled(s, st)
    ensures CowInv(Apply(s, st))
  {
    hide CowInv, Apply, Enabled;
    match st
    case Create(c) => CreateKeepsInv(s, c);
    case Fork(p, c, n) => ForkKeepsInv(s, p, c, n);
    case MapFresh(k, w, n) => MapFreshKeepsInv(s, k, w, n);
    case CopyOnWrite(k) => CopyOnWriteKeepsInv(s, k);
    case Store(k, off, b) => StoreKeepsInv(s, k, off, b);
    case Dealloc(_) => RemoveKeepsInv(s, st);
    case Reap(_) => RemoveKeepsInv(s, st);
  }

  // ---------- Every step reads like the eager step ----------

  /** One page after an eager fork. */
  lemma EagerForkAt(e: Spaces, p: Frame, c: Frame, n: nat, k: Pos)
    requires p != c && forall j :: j in e ==> RootOf(j) != c
    ensures k in EagerApply(e, Fork(p, c, n)) <==> k in e || (RootOf(k) == c && Retarget(k, p) in e)
    ensures k in EagerApply(e, Fork(p, c, n)) ==>
              EagerApply(e, Fork(p, c, n))[k] == if k in e then e[k] else e[Retarget(k, p)]
  {
    if k in ClonesOf(e, p, c) {
      var j :| j in e && RootOf(j) == p && Retarget(j, c) == k;
      RetargetBack(j, c);
    }
    if RootOf(k) == c && Retarget(k, p) in e {
      RetargetBack(k, p);
      assert Retarget(Retarget(k, p), c) in ClonesOf(e, p, c);
    }
  }

  lemma ReadsAt(s: Flat, k: Pos)
    ensures k in Reads(s) <==> k in s.maps
    ensures k in Reads(s) && s.maps[k].frame in s.data ==> Reads(s)[k] == s.data[s.maps[k].frame]
  {
  }

  lemma ForkReads(s: Flat, p: Frame, c: Frame, n: nat)
    requires CowInv(s) && Enabled(s, Fork(p, c, n))
    ensures Reads(Apply(s, Fork(p, c, n))) == EagerApply(Reads(s), Fork(p, c, n))
  {
    var s', e, e' := Apply(s, Fork(p, c, n)), Reads(s), EagerApply(Reads(s), Fork(p, c, n));
    assert c in s.free;
    assert forall j :: j in s.maps ==> EntryOk(s, j) && RootOf(j) != c;
    hide CowInv, ForkMaps, Reads, EagerApply, ClonesOf;
    forall j ensures j in e <==> j in s.maps { ReadsAt(s, j); }
    forall k ensures (k in Reads(s') <==> k in e') && (k in e' ==> Reads(s')[k] == e'[k]) {
      ForkMapsAt(s.maps, p, c, k);
      EagerForkAt(e, p, c, n, k);
      ReadsAt(s', k);
      ReadsAt(s, k);
      ReadsAt(s, Retarget(k, p));
    }
  }

  lemma MapFreshReads(s: Flat, k: Pos, w: Bytes, n: nat)
    requires CowInv(s) && Enabled(s, MapFresh(k, w, n))
    ensures Reads(Apply(s, MapFresh(k, w, n))) == EagerApply(Reads(s), MapFresh(k, w, n))
  {
    assert s.free[0] !in s.free[1..n];
    assert forall j :: j in s.maps ==> EntryOk(s, j);
    hide CowInv;
  }

  /** The repair is invisible: the fresh frame holds what the shared one held. */
  lemma CopyOnWriteReads(s: Flat, k: Pos)
    requires CowInv(s) && Enabled(s, CopyOnWrite(k))
    ensures Reads(Apply(s, CopyOnWrite(k))) == Reads(s)
  {
    assert forall j :: j in s.maps ==> EntryOk(s, j);
    hide CowInv;
  }

  /** The heart of it: no other page can see a store, because no other page maps the frame. */
  lemma StoreReads(s: Flat, k: Pos, off: nat, b: Byte)
    requires CowInv(s) && Enabled(s, Store(k, off, b))
    ensures Reads(Apply(s, Store(k, off, b))) == EagerApply(Reads(s), Store(k, off, b))
  {
    assert EntryOk(s, k);
    assert forall j :: j in s.maps ==> EntryOk(s, j) && SharedOk(s.maps, k, j);
    hide CowInv;
  }

  lemma StepReads(s: Flat, st: Step)
    requires CowInv(s) && Enabled(s, st)
    ensures Reads(Apply(s, st)) == EagerApply(Reads(s), st)
  {
    match st
    case Create(c) => CreateKeepsInv(s, c);
    case Fork(p, c, n) => ForkReads(s, p, c, n);
    case MapFresh(k, w, n) => MapFreshReads(s, k, w, n);
    case CopyOnWrite(k) => CopyOnWriteReads(s, k);
    case Store(k, off, b) => StoreReads(s, k, off, b);
    case Dealloc(_) =>
    case Reap(_) =>
  }

  // ---------- Runs ----------

  ghost predicate ValidRun(s: Flat, steps: seq<Step>)
    decreases |steps|
  {
    steps == [] || (Enabled(s, steps[0]) && ValidRun(Apply(s, steps[0]), steps[1..]))
  }

  ghost function Run(s: Flat, steps: seq<Step>): Flat
    requires ValidRun(s, steps)
    decreases |steps|
  {
    if steps == [] then s else Run(Apply(s, steps[0]), steps[1..])
  }

  ghost function EagerRun(e: Spaces, steps: seq<Step>): Spaces
    decreases |steps|
  {
    if steps == [] then e else EagerRun(EagerApply(e, steps[0]), steps[1..])
  }

  /**
   Over every run of fork, map, store, exec and reap steps, each task reads at each
   mapped address what it would read had every fork copied every page at once; and in
   every state reached a writable frame has one mapping, a shared frame none.
   */
  lemma {:induction false} CowRefinesEagerCopy(s: Flat, steps: seq<Step>)
    requires CowInv(s) && ValidRun(s, steps)
    ensures CowInv(Run(s, steps))
    ensures Reads(Run(s, steps)) == EagerRun(Reads(s), steps)
    decreases |steps|
  {
    hide CowInv, Enabled, Apply, EagerApply, Reads;
    if steps != [] {
      StepKeepsInv(s, steps[0]);
      StepReads(s, steps[0]);
      CowRefinesEagerCopy(Apply(s, steps[0]), steps[1..]);
    }
  }

  /** A data frame with a writable mapping has no other mapping in the whole system. */
  lemma WritableIsExclusive(s: Flat, steps: seq<Step>, k: Pos, j: Pos)
    requires CowInv(s) && ValidRun(s, steps)
    requires k in Run(s, steps).maps && j in Run(s, steps).maps
    requires Run(s, steps).maps[k].frame == Run(s, steps).maps[j].frame && k != j
    ensures !Run(s, steps).maps[k].writable && Run(s, steps).maps[k].cow
  {
    CowRefinesEagerCopy(s, steps);
    var s' := Run(s, steps);
    assert SharedOk(s'.maps, k, j) && EntryOk(s', k);
  }

  lemma RunAppend(s: Flat, steps: seq<Step>, st: Step)
    requires ValidRun(s, steps) && Enabled(Run(s, steps), st)
    ensures ValidRun(s, steps + [st]) && Run(s, steps + [st]) == Apply(Run(s, steps), st)
    decreases |steps|
  {
    hide Enabled, Apply;
    if steps == [] {
      assert [st][1..] == [];
    } else {
      assert (steps + [st])[1..] == steps[1..] + [st];
      RunAppend(Apply(s, steps[0]), steps[1..], st);
    }
  }

  lemma RunConcat(s: Flat, a: seq<Step>, b: seq<Step>)
    requires ValidRun(s, a) && ValidRun(Run(s, a), b)
    ensures ValidRun(s, a + b) && Run(s, a + b) == Run(Run(s, a), b)
    decreases |a|
  {
    hide Enabled, Apply;
    if a == [] {
      assert a + b == b;
    } else {
      assert (a + b)[1..] == a[1..] + b;
      RunConcat(Apply(s, a[0]), a[1..], b);
    }
  }

  lemma RunOne(s: Flat, st: Step)
    requires Enabled(s, st)
    ensures ValidRun(s, [st]) && Run(s, [st]) == Apply(s, st)
  {
    hide Enabled, Apply;
    assert [st][1..] == [];
    assert ValidRun(Apply(s, st), []);
  }
}
