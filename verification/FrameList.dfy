/**
 The list of free physical frames: a singly linked list threaded through `pagelist`,
 built at boot from the memory map and popped by getFreeFrame.
 */
module FrameList {

  const PAGE_SIZE: nat := 4096

  /** `next` is an index of `pagelist`, or -1 for NULL. */
  datatype PageInfo = PageInfo(address: nat, refCount: int, next: int)

  /** One range of the boot loader's memory map; type 1 is usable memory. */
  datatype Smap = Smap(base: nat, length: nat, kind: nat)

  /** Is frame `f` one of the frames the kernel takes from range `m`? */
  predicate UsableIn(m: Smap, physfree: nat, f: nat) {
    && m.kind == 1
    && m.base <= f * PAGE_SIZE
    && physfree + 0x1000 < f * PAGE_SIZE
    && f * PAGE_SIZE + PAGE_SIZE < m.base + m.length
  }

  predicate Usable(ms: seq<Smap>, physfree: nat, f: nat) {
    exists i :: 0 <= i < |ms| && UsableIn(ms[i], physfree, f)
  }

  /** What the boot loader guarantees: aligned, disjoint ranges that `pagelist` covers. */
  predicate GoodMap(ms: seq<Smap>, frames: nat) {
    && (forall i :: 0 <= i < |ms| && ms[i].kind == 1 ==>
          ms[i].base % PAGE_SIZE == 0 && ms[i].base + ms[i].length <= frames * PAGE_SIZE)
    && (forall i, j :: 0 <= i < j < |ms| && ms[i].kind == 1 && ms[j].kind == 1 ==>
          ms[i].base + ms[i].length <= ms[j].base || ms[j].base + ms[j].length <= ms[i].base)
  }

  predicate NoDup(s: seq<nat>) {
    forall i, j :: 0 <= i < j < |s| ==> s[i] != s[j]
  }

  /** Frame `chain[i]` points on to the next of the chain. */
  predicate NodeOk(pages: seq<PageInfo>, chain: seq<nat>, i: nat)
    requires i < |chain|
  {
    chain[i] < |pages| && pages[chain[i]].address == chain[i] * PAGE_SIZE && pages[chain[i]].next == After(chain, i)
  }

  /** Following `next` from `head` visits exactly the frames of `chain`. */
  predicate Linked(pages: seq<PageInfo>, head: int, chain: seq<nat>) {
    && head == (if chain == [] then -1 else chain[0])
    && forall i :: 0 <= i < |chain| ==> NodeOk(pages, chain, i)
  }

  function After(chain: seq<nat>, i: nat): int {
    if i + 1 < |chain| then chain[i + 1] else -1
  }

  lemma LinkedAfterPop(pages: seq<PageInfo>, chain: seq<nat>, info: PageInfo)
    requires chain != [] && Linked(pages, chain[0], chain) && NoDup(chain)
    requires chain[0] < |pages| && info.next == pages[chain[0]].next
    ensures Linked(pages[chain[0] := info], info.next, chain[1..])
  {
    hide NoDup;
    var rest, pages' := chain[1..], pages[chain[0] := info];
    forall i | 0 <= i < |rest| ensures NodeOk(pages', rest, i) {
      assert NodeOk(pages, chain, i + 1);
      assert rest[i] == chain[i + 1] && After(rest, i) == After(chain, i + 1);
      NoDupFirst(chain, i + 1);
    }
    assert NodeOk(pages, chain, 0) && pages[chain[0]].next == After(chain, 0);
  }

  /** The list does not depend on reference counts. */
  lemma LinkedAfterCount(pages: seq<PageInfo>, head: int, chain: seq<nat>, f: nat, count: int)
    requires Linked(pages, head, chain) && f < |pages|
    ensures Linked(pages[f := pages[f].(refCount := count)], head, chain)
  {
    var pages' := pages[f := pages[f].(refCount := count)];
    forall i | 0 <= i < |chain| ensures NodeOk(pages', chain, i) {
      LinkedAt(pages, head, chain, i);
    }
  }

  lemma NoDupFirst(chain: seq<nat>, i: nat)
    requires NoDup(chain) && 0 < i < |chain|
    ensures chain[i] != chain[0]
  {
  }

  /** `pagelist` after the writes that put frame `index` behind the list `chain`. */
  function Appended(pages: seq<PageInfo>, chain: seq<nat>, index: nat): seq<PageInfo>
    requires index < |pages| && (chain != [] ==> chain[|chain| - 1] < |pages|)
  {
    var pages1 := pages[index := PageInfo(index * PAGE_SIZE, 0, -1)];
    if chain == [] then pages1
    else pages1[chain[|chain| - 1] := pages1[chain[|chain| - 1]].(next := index)]
  }

  lemma LinkedAfterAppend(pages: seq<PageInfo>, head: int, chain: seq<nat>, index: nat)
    requires Linked(pages, head, chain) && NoDup(chain) && index < |pages| && index !in chain
    ensures (head == -1 <==> chain == []) && (chain != [] ==> chain[|chain| - 1] < |pages|)
    ensures Linked(Appended(pages, chain, index), if chain == [] then index else head, chain + [index])
    ensures NoDup(chain + [index])
  {
    hide NoDup, Appended;
    NoDupAppend(chain, index);
    assert chain != [] ==> NodeOk(pages, chain, |chain| - 1) && NodeOk(pages, chain, 0);
    var next, pages' := chain + [index], Appended(pages, chain, index);
    forall i | 0 <= i < |next| ensures NodeOk(pages', next, i) {
      AppendedNode(pages, head, chain, index, i);
    }
  }

  lemma LinkedAt(pages: seq<PageInfo>, head: int, chain: seq<nat>, i: nat)
    requires Linked(pages, head, chain) && i < |chain|
    ensures NodeOk(pages, chain, i)
  {
  }

  lemma AppendedNode(pages: seq<PageInfo>, head: int, chain: seq<nat>, index: nat, i: nat)
    requires Linked(pages, head, chain) && NoDup(chain) && index < |pages| && index !in chain && i <= |chain|
    ensures chain != [] ==> chain[|chain| - 1] < |pages|
    ensures NodeOk(Appended(pages, chain, index), chain + [index], i)
  {
    hide Linked, NoDup;
    var n, next := |chain|, chain + [index];
    if n > 0 { LinkedAt(pages, head, chain, n - 1); }
    if i < n {
      LinkedAt(pages, head, chain, i);
      assert next[i] == chain[i] && chain[i] != index;
      if i < n - 1 {
        NoDupLast(chain, i);
        assert next[i + 1] == chain[i + 1];
      } else {
        assert next[i + 1] == index;
      }
    } else {
      assert next[i] == index && (n > 0 ==> chain[n - 1] != index);
    }
  }

  lemma NoDupAppend(chain: seq<nat>, index: nat)
    requires NoDup(chain) && index !in chain
    ensures NoDup(chain + [index])
  {
  }

  lemma NoDupLast(chain: seq<nat>, i: nat)
    requires NoDup(chain) && i < |chain| - 1
    ensures chain[i] != chain[|chain| - 1]
  {
  }

  /** No reference count is negative; it is 0 for a free frame and positive for one given out. */
  predicate Counted(pages: seq<PageInfo>, given: seq<nat>, free: seq<nat>) {
    forall f :: 0 <= f < |pages| ==> CountOk(pages[f].refCount, f in given, f in free)
  }

  predicate CountOk(count: int, isGiven: bool, isFree: bool) {
    count >= 0 && (isFree ==> count == 0) && (isGiven ==> count > 0)
  }

  lemma CountedAfterPop(pages: seq<PageInfo>, given: seq<nat>, free: seq<nat>, info: PageInfo)
    requires Counted(pages, given, free) && free != [] && free[0] < |pages| && info.refCount > 0
    requires free[0] !in free[1..]
    ensures Counted(pages[free[0] := info], given + [free[0]], free[1..])
  {
    var pages', given', free' := pages[free[0] := info], given + [free[0]], free[1..];
    forall f | 0 <= f < |pages'| ensures CountOk(pages'[f].refCount, f in given', f in free') {
      assert CountOk(pages[f].refCount, f in given, f in free);
    }
  }

  lemma CountedAfterAdd(pages: seq<PageInfo>, given: seq<nat>, free: seq<nat>, f: nat)
    requires Counted(pages, given, free) && f < |pages| && f !in free
    ensures Counted(pages[f := pages[f].(refCount := pages[f].refCount + 1)], given, free)
  {
  }

  /** The reference counts are those of `start`, but 0 for the frames on the list. */
  ghost predicate Zeroed(start: seq<PageInfo>, pages: seq<PageInfo>, free: seq<nat>) {
    && |start| == |pages|
    && forall f :: 0 <= f < |pages| ==> pages[f].refCount == if f in free then 0 else start[f].refCount
  }

  lemma ZeroedAfterAppend(start: seq<PageInfo>, pages: seq<PageInfo>, chain: seq<nat>, index: nat)
    requires Zeroed(start, pages, chain) && index < |pages| && index !in chain
    requires chain != [] ==> chain[|chain| - 1] < |pages|
    ensures Zeroed(start, Appended(pages, chain, index), chain + [index])
  {
  }

  lemma CountedAfterAppend(pages: seq<PageInfo>, chain: seq<nat>, index: nat)
    requires Counted(pages, [], chain) && index < |pages| && (chain != [] ==> chain[|chain| - 1] < |pages|)
    ensures Counted(Appended(pages, chain, index), [], chain + [index])
  {
    var pages', chain' := Appended(pages, chain, index), chain + [index];
    forall f | 0 <= f < |pages'| ensures CountOk(pages'[f].refCount, f in [], f in chain') {
      assert CountOk(pages[f].refCount, f in [], f in chain);
    }
  }

  /** The end of the last usable range, or 0. */
  function LastEnd(ms: seq<Smap>): nat {
    if ms == [] then 0
    else
      var m := ms[|ms| - 1];
      if m.kind == 1 && m.length != 0 then m.base + m.length else LastEnd(ms[..|ms| - 1])
  }

  /** The usable ranges in ascending order, as the boot loader lists them. */
  predicate Ascending(ms: seq<Smap>) {
    forall i, j :: 0 <= i < j < |ms| && ms[i].kind == 1 && ms[j].kind == 1 ==> ms[i].base + ms[i].length <= ms[j].base
  }

  lemma UsableMeans(ms: seq<Smap>, physfree: nat)
    ensures forall f: nat :: Usable(ms, physfree, f) <==> exists i ::
      && 0 <= i < |ms| && ms[i].kind == 1 && ms[i].base <= f * 4096 && f * 4096 + 4096 < ms[i].base + ms[i].length
      && f * 4096 > physfree + 4096
  {
    forall f: nat ensures Usable(ms, physfree, f) <==> exists i ::
      && 0 <= i < |ms| && ms[i].kind == 1 && ms[i].base <= f * 4096 && f * 4096 + 4096 < ms[i].base + ms[i].length
      && f * 4096 > physfree + 4096
    {
      if i :| 0 <= i < |ms| && ms[i].kind == 1 && ms[i].base <= f * 4096 &&
              f * 4096 + 4096 < ms[i].base + ms[i].length && f * 4096 > physfree + 4096
      {
        assert UsableIn(ms[i], physfree, f);
      }
    }
  }

  lemma {:induction false} LastEndAt(ms: seq<Smap>, i: nat)
    requires i < |ms| && ms[i].kind == 1 && ms[i].length != 0
    requires forall j :: i < j < |ms| ==> ms[j].kind != 1 || ms[j].length == 0
    ensures LastEnd(ms) == ms[i].base + ms[i].length
  {
    if i < |ms| - 1 { LastEndAt(ms[..|ms| - 1], i); }
  }

  lemma LastEndIs(ms: seq<Smap>)
    ensures forall i ::
      (&& 0 <= i < |ms| && ms[i].kind == 1 && ms[i].length != 0
       && (forall j :: i < j < |ms| ==> ms[j].kind != 1 || ms[j].length == 0)) ==>
        LastEnd(ms) == ms[i].base + ms[i].length
  {
    forall i | 0 <= i < |ms| && ms[i].kind == 1 && ms[i].length != 0 &&
               (forall j :: i < j < |ms| ==> ms[j].kind != 1 || ms[j].length == 0)
      ensures LastEnd(ms) == ms[i].base + ms[i].length
    {
      LastEndAt(ms, i);
    }
  }

  /** The end of ascending ranges is the end of all of them. */
  lemma {:induction false} LastEndIsLast(ms: seq<Smap>, i: nat)
    requires Ascending(ms) && i < |ms| && ms[i].kind == 1 && ms[i].length != 0
    ensures ms[i].base + ms[i].length <= LastEnd(ms)
  {
    var n := |ms| - 1;
    if i < n && (ms[n].kind != 1 || ms[n].length == 0) { LastEndIsLast(ms[..n], i); }
  }

  lemma UsableEnds(ms: seq<Smap>, physfree: nat)
    ensures Ascending(ms) ==> forall f: nat :: Usable(ms, physfree, f) ==> (f + 1) * 4096 <= LastEnd(ms)
  {
    if Ascending(ms) {
      forall f: nat | Usable(ms, physfree, f) ensures (f + 1) * 4096 <= LastEnd(ms) {
        var i :| 0 <= i < |ms| && UsableIn(ms[i], physfree, f);
        LastEndIsLast(ms, i);
      }
    }
  }

  lemma NoDupSplit(s: seq<nat>, t: seq<nat>)
    ensures NoDup(s + t) ==> NoDup(s) && NoDup(t)
  {
    if NoDup(s + t) {
      forall i, j | 0 <= i < j < |s| ensures s[i] != s[j] {
        assert (s + t)[i] != (s + t)[j];
      }
      forall i, j | 0 <= i < j < |t| ensures t[i] != t[j] {
        assert (s + t)[|s| + i] != (s + t)[|s| + j];
      }
    }
  }

  lemma NothingGiven(given: seq<nat>, free: seq<nat>)
    requires given == []
    ensures given + free == free
  {
  }

  lemma GivenGrows(given: seq<nat>, free: seq<nat>)
    requires free != [] && NoDup(given + free)
    ensures NoDup((given + [free[0]]) + free[1..]) && free[0] !in given && free[0] !in free[1..]
    ensures (given + [free[0]]) + free[1..] == given + free
  {
    assert given + free == (given + [free[0]]) + free[1..];
    assert (given + free)[|given|] == free[0];
    forall i | 0 <= i < |given| ensures given[i] != free[0] {
      assert (given + free)[i] == given[i];
    }
    forall i | 0 <= i < |free| - 1 ensures free[1..][i] != free[0] {
      assert (given + free)[|given| + 1 + i] == free[1..][i];
    }
  }

  class FrameList {
    const pagelist: array<PageInfo>
    var head: int
    ghost var free: seq<nat>   // the list, in order
    ghost var given: seq<nat>  // every frame getFreeFrame has returned, in order

    ghost predicate Valid()
      reads this, pagelist
    {
      Linked(pagelist[..], head, free) && NoDup(given + free) && Counted(pagelist[..], given, free)
    }

    function RefCount(f: nat): int
      requires f < pagelist.Length
      reads pagelist
    {
      pagelist[f].refCount
    }

    constructor (pages: array<PageInfo>)
      requires Counted(pages[..], [], [])
      ensures Valid() && free == [] && given == [] && pagelist == pages
    {
      pagelist := pages;
      head := -1;
      free, given := [], [];
    }

    /** One frame joins the list, at its head if it is the first and behind `last` otherwise. */
    method Append(last: int, index: nat, ghost start: seq<PageInfo>) returns (last': int)
      requires Valid() && index < pagelist.Length && index !in free && given == []
      requires free != [] ==> last == free[|free| - 1]
      requires Zeroed(start, pagelist[..], free)
      modifies pagelist, `head, `free
      ensures Valid() && free == old(free) + [index] && last' == index
      ensures Zeroed(start, pagelist[..], free)
    {
      NothingGiven(given, free);
      LinkedAfterAppend(pagelist[..], head, free, index);
      ZeroedAfterAppend(start, pagelist[..], free, index);
      CountedAfterAppend(pagelist[..], free, index);
      hide Linked, NoDup, Zeroed, Counted, Appended;
      WriteBehind(last, index, free);
      last' := index;
      free := free + [index];
      NothingGiven(given, free);
    }

    /** The writes: the frame's own cell, and `head` or the cell of the last frame. */
    method WriteBehind(last: int, index: nat, ghost chain: seq<nat>)
      requires index < pagelist.Length && (head == -1 <==> chain == [])
      requires chain != [] ==> last == chain[|chain| - 1] < pagelist.Length
      modifies pagelist, `head
      ensures pagelist[..] == Appended(old(pagelist[..]), chain, index)
      ensures head == if chain == [] then index else old(head)
    {
      SetPage(index, PageInfo(index * PAGE_SIZE, 0, -1));
      if head == -1 {
        head := index;
      } else {
        SetPage(last, pagelist[last].(next := index));
      }
    }

    method SetPage(f: nat, info: PageInfo)
      requires f < pagelist.Length
      modifies pagelist
      ensures pagelist[..] == old(pagelist[..])[f := info]
    {
      pagelist[f] := info;
    }

    /** The kernel's inner loop: the usable frames of one range. */
    method AddRange(m: Smap, physfree: nat, last: int, ghost start: seq<PageInfo>) returns (last': int)
      requires Valid() && given == [] && (free != [] ==> last == free[|free| - 1])
      requires m.kind == 1 && m.base % PAGE_SIZE == 0 && m.base + m.length <= pagelist.Length * PAGE_SIZE
      requires forall f: nat :: UsableIn(m, physfree, f) ==> f !in free
      requires Zeroed(start, pagelist[..], free)
      modifies pagelist, `head, `free
      ensures Valid() && given == [] && (free != [] ==> last' == free[|free| - 1])
      ensures forall f: nat :: f in free <==> f in old(free) || UsableIn(m, physfree, f)
      ensures Zeroed(start, pagelist[..], free)
    {
      hide Linked, NoDup, Zeroed, Counted;
      ghost var before := free;
      var base := m.base;
      last' := last;
      while base < m.base + m.length
        invariant m.base <= base && base % PAGE_SIZE == 0
        invariant Valid() && given == [] && (free != [] ==> last' == free[|free| - 1])
        invariant forall f: nat :: f in free <==> f in before || (UsableIn(m, physfree, f) && f * PAGE_SIZE < base)
        invariant Zeroed(start, pagelist[..], free)
      {
        var index := base / PAGE_SIZE;
        if base > physfree + 0x1000 && base + PAGE_SIZE < m.base + m.length {
          last' := Append(last', index, start);
        }
        base := base + PAGE_SIZE;
      }
    }

    /**
     The kernel's scan of the memory map.  `lastFreeFrame` is the end of the last usable
     range; the direct map is built up to there.
     */
    method InitializeFreelist(ms: seq<Smap>, physfree: nat) returns (lastFreeFrame: nat)
      requires Valid() && free == [] && given == [] && GoodMap(ms, pagelist.Length)
      modifies pagelist, `head, `free
      ensures Valid() && given == [] && lastFreeFrame == LastEnd(ms)
      ensures forall f: nat :: f in free <==> Usable(ms, physfree, f)
      ensures forall f: nat :: f in free <==> exists i ::
        && 0 <= i < |ms| && ms[i].kind == 1 && ms[i].base <= f * 4096 && f * 4096 + 4096 < ms[i].base + ms[i].length
        && f * 4096 > physfree + 4096
      ensures forall i ::
        (&& 0 <= i < |ms| && ms[i].kind == 1 && ms[i].length != 0
         && (forall j :: i < j < |ms| ==> ms[j].kind != 1 || ms[j].length == 0)) ==>
          lastFreeFrame == ms[i].base + ms[i].length
      ensures Ascending(ms) ==> forall f: nat :: f in free ==> (f + 1) * 4096 <= lastFreeFrame
      ensures forall f :: 0 <= f < pagelist.Length ==> RefCount(f) == if f in free then 0 else old(RefCount(f))
    {
      hide Linked, NoDup, Counted, Usable, UsableIn;
      ghost var start := pagelist[..];
      var last := -1;
      lastFreeFrame := 0;
      NoneUsable(ms, physfree);
      for n := 0 to |ms|
        invariant Valid() && given == [] && (free != [] ==> last == free[|free| - 1])
        invariant lastFreeFrame == LastEnd(ms[..n])
        invariant forall f: nat :: f in free <==> Usable(ms[..n], physfree, f)
        invariant Zeroed(start, pagelist[..], free)
      {
        var m := ms[n];
        assert ms[..n + 1][..n] == ms[..n];
        AllApart(ms, n, physfree);
        if m.kind == 1 && m.length != 0 {
          last := AddRange(m, physfree, last, start);
          lastFreeFrame := m.base + m.length;
        }
      }
      assert ms[..|ms|] == ms;
      UsableMeans(ms, physfree);
      LastEndIs(ms);
      UsableEnds(ms, physfree);
    }

    /**
     Pop the head.  The kernel has no test for an empty list: it writes through the NULL
     head and the machine stops there, which `ok` reports.
     */
    method GetFreeFrame() returns (ok: bool, f: nat)
      requires Valid()
      modifies pagelist, `head, `free, `given
      ensures Valid() && ok == (old(free) != [])
      ensures !ok ==> free == old(free) && given == old(given) && pagelist[..] == old(pagelist[..])
      ensures ok ==> f == old(free)[0] && free == old(free)[1..] && given == old(given) + [f]
      ensures given + free == old(given + free)
      ensures ok ==> f < pagelist.Length && f !in old(given) && f !in free
      ensures ok ==> pagelist[..] == old(pagelist[..])[f := old(pagelist[f]).(refCount := 1)]
    {
      if head == -1 {
        return false, 0;
      }
      f := head;
      NoDupSplit(given, free);
      LinkedAt(pagelist[..], head, free, 0);
      LinkedAfterPop(pagelist[..], free, pagelist[f].(refCount := 1));
      GivenGrows(given, free);
      CountedAfterPop(pagelist[..], given, free, pagelist[f].(refCount := 1));
      hide Linked, NoDup, Counted;
      SetPage(f, pagelist[f].(refCount := 1));
      head := pagelist[f].next;
      free, given := free[1..], given + [f];
      ok := true;
    }

    method AddRef(f: nat)
      requires Valid() && f < pagelist.Length && f !in free
      modifies pagelist
      ensures Valid()
      ensures pagelist[..] == old(pagelist[..])[f := old(pagelist[f]).(refCount := old(pagelist[f].refCount) + 1)]
    {
      hide NoDup;
      LinkedAfterCount(pagelist[..], head, free, f, pagelist[f].refCount + 1);
      CountedAfterAdd(pagelist[..], given, free, f);
      hide Linked, Counted;
      SetPage(f, pagelist[f].(refCount := pagelist[f].refCount + 1));
    }
  }

  /** Ranges that do not overlap share no frame. */
  lemma Apart(ms: seq<Smap>, n: nat, physfree: nat, f: nat)
    requires n < |ms| && UsableIn(ms[n], physfree, f)
    requires forall i, j :: 0 <= i < j < |ms| && ms[i].kind == 1 && ms[j].kind == 1 ==>
               ms[i].base + ms[i].length <= ms[j].base || ms[j].base + ms[j].length <= ms[i].base
    ensures !Usable(ms[..n], physfree, f)
  {
    forall i | 0 <= i < n ensures !UsableIn(ms[..n][i], physfree, f) {
      assert ms[..n][i] == ms[i];
    }
  }

  /** No frame of range `n` is a frame of an earlier one; together they are those of `n + 1` ranges. */
  lemma AllApart(ms: seq<Smap>, n: nat, physfree: nat)
    requires n < |ms|
    requires forall i, j :: 0 <= i < j < |ms| && ms[i].kind == 1 && ms[j].kind == 1 ==>
               ms[i].base + ms[i].length <= ms[j].base || ms[j].base + ms[j].length <= ms[i].base
    ensures forall f: nat :: UsableIn(ms[n], physfree, f) ==> !Usable(ms[..n], physfree, f)
    ensures forall f: nat ::
      Usable(ms[..n + 1], physfree, f) <==> Usable(ms[..n], physfree, f) || UsableIn(ms[n], physfree, f)
    ensures ms[n].kind != 1 || ms[n].length == 0 ==> forall f: nat :: !UsableIn(ms[n], physfree, f)
  {
    forall f: nat ensures UsableIn(ms[n], physfree, f) ==> !Usable(ms[..n], physfree, f) {
      if UsableIn(ms[n], physfree, f) { Apart(ms, n, physfree, f); }
    }
    forall f: nat
      ensures Usable(ms[..n + 1], physfree, f) <==> Usable(ms[..n], physfree, f) || UsableIn(ms[n], physfree, f)
    {
      UsableStep(ms, n, physfree, f);
    }
  }

  lemma NoneUsable(ms: seq<Smap>, physfree: nat)
    ensures forall f: nat :: !Usable(ms[..0], physfree, f)
  {
  }

  /** The frames of `n + 1` ranges are those of the first `n` and those of the last. */
  lemma UsableStep(ms: seq<Smap>, n: nat, physfree: nat, f: nat)
    requires n < |ms|
    ensures Usable(ms[..n + 1], physfree, f) <==> Usable(ms[..n], physfree, f) || UsableIn(ms[n], physfree, f)
  {
    assert forall i :: 0 <= i < n ==> ms[..n + 1][i] == ms[..n][i];
    assert ms[..n + 1][n] == ms[n];
    if Usable(ms[..n], physfree, f) {
      var i :| 0 <= i < n && UsableIn(ms[..n][i], physfree, f);
      assert UsableIn(ms[..n + 1][i], physfree, f);
    }
    if UsableIn(ms[n], physfree, f) {
      assert UsableIn(ms[..n + 1][n], physfree, f);
    }
  }
}
