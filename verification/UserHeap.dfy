/**
 malloc, free and morecore of the user library: a circular, address-ordered free list
 threaded through the headers of the free blocks, with the kernel's sbrk behind it.

 `mem` holds one header per 16-byte unit.  The list starts and ends at `base`, which has
 size 0 and lies below the heap; `freep` points anywhere on the cycle.
 */
module UserHeap {
  import opened Address
  import opened HeapModel

  const NULL: int := -1
  const NALLOC: int := 1024
  const UNITS_PER_PAGE: nat := 256
  const TWO32: nat := 0x1_0000_0000
  const TWO64: nat := 0x1_0000_0000_0000_0000

  datatype Header = Header(ptr: int, size: nat)

  // ---------- The cycle ----------

  /** The address of node `i`: base first, then the free blocks. */
  function Node(base: nat, bs: seq<Block>, i: nat): nat
    requires i <= |bs|
  {
    if i == 0 then base else bs[i - 1].addr
  }

  function NextNode(base: nat, bs: seq<Block>, i: nat): nat
    requires i <= |bs|
  {
    if i == |bs| then base else bs[i].addr
  }

  function SizeOf(bs: seq<Block>, i: nat): nat
    requires i <= |bs|
  {
    if i == 0 then 0 else bs[i - 1].size
  }

  predicate NodeOk(m: seq<Header>, base: nat, bs: seq<Block>, i: nat)
    requires i <= |bs|
  {
    Node(base, bs, i) < |m| && m[Node(base, bs, i)] == Header(NextNode(base, bs, i), SizeOf(bs, i))
  }

  /** The headers form one cycle through base and the blocks, in address order. */
  ghost predicate Cyclic(m: seq<Header>, base: nat, bs: seq<Block>) {
    && (forall i :: 0 <= i <= |bs| ==> NodeOk(m, base, bs, i))
    && (forall i :: 0 <= i < |bs| ==> base < bs[i].addr)
  }

  /** The node after `i`, once round the cycle. */
  function Succ(n: nat, i: nat): nat {
    if i >= n then 0 else i + 1
  }

  // ---------- The writes of free ----------

  /** The two header writes at the end of free, `p` being node `j` and `bp` the block. */
  function Relinked(m: seq<Header>, p: nat, bp: nat): seq<Header>
    requires p < |m| && bp < |m| && 0 <= m[p].ptr < |m|
  {
    var q := m[p].ptr;
    var m1 := if bp + m[bp].size == q then m[bp := Header(m[q].ptr, m[bp].size + m[q].size)]
              else m[bp := Header(q, m[bp].size)];
    if p + m1[p].size == bp then m1[p := Header(m1[bp].ptr, m1[p].size + m1[bp].size)]
    else m1[p := Header(bp, m1[p].size)]
  }

  /** Node addresses ascend, and a block outside the list is at none of them. */
  lemma NodesAscend(m: seq<Header>, base: nat, bs: seq<Block>, i: nat, k: nat)
    requires Cyclic(m, base, bs) && BlocksOk(bs) && i < k <= |bs|
    ensures Node(base, bs, i) < Node(base, bs, k)
  {
    if i > 0 {
      Gap(bs, i - 1, k - 1);
    }
  }

  lemma PlaceIsBetween(m: seq<Header>, base: nat, bs: seq<Block>, a: nat, n: nat, i: nat)
    requires Cyclic(m, base, bs) && BlocksOk(bs) && n > 0 && Disjoint(bs, a, n) && base < a && i <= |bs|
    ensures i <= Place(bs, a) ==> Node(base, bs, i) < a
    ensures i > Place(bs, a) ==> a < Node(base, bs, i)
  {
    PlaceBounds(bs, a, n);
    if i > Place(bs, a) + 1 {
      NodesAscend(m, base, bs, Place(bs, a) + 1, i);
    }
  }

  /** The nodes of the longer list in terms of the old ones. */
  lemma InsertedNodes(base: nat, bs: seq<Block>, a: nat, n: nat, lo: nat, hi: nat, b: Block, i: nat)
    requires lo <= hi <= |bs| && Insert(bs, a, n) == bs[..lo] + [b] + bs[hi..] && i <= lo + 1 + |bs| - hi
    ensures |Insert(bs, a, n)| == lo + 1 + |bs| - hi
    ensures var t := Insert(bs, a, n);
            && Node(base, t, i) == (if i <= lo then Node(base, bs, i) else if i == lo + 1 then b.addr
                                    else Node(base, bs, i + hi - lo - 1))
            && SizeOf(t, i) == (if i <= lo then SizeOf(bs, i) else if i == lo + 1 then b.size
                                else SizeOf(bs, i + hi - lo - 1))
            && NextNode(base, t, i) == (if i < lo then NextNode(base, bs, i) else if i == lo then b.addr
                                        else NextNode(base, bs, i + hi - lo - 1))
  {
    hide Insert;
    var t := bs[..lo] + [b] + bs[hi..];
    assert i < lo ==> t[i] == bs[i];
    assert 0 < i <= lo ==> t[i - 1] == bs[i - 1];
    assert t[lo] == b;
    assert lo + 1 < i ==> t[i - 1] == bs[i - 1 + hi - lo - 1];
    assert lo < i < |t| ==> t[i] == bs[i + hi - lo - 1];
  }

  /** What the two writes leave at the predecessor and at the freed block. */
  lemma RelinkedValues(m: seq<Header>, base: nat, bs: seq<Block>, a: nat, n: nat)
    requires Cyclic(m, base, bs) && BlocksOk(bs) && n > 0 && Disjoint(bs, a, n)
    requires base < a < |m| && m[a].size == n
    ensures var j := Place(bs, a);
            var p := Node(base, bs, j);
            && p < a && 0 <= m[p].ptr < |m|
            && var m' := Relinked(m, p, a);
               var joinsNext := j < |bs| && a + n == bs[j].addr;
               && |m'| == |m| && (forall x :: 0 <= x < |m| && x != p && x != a ==> m'[x] == m[x])
               && m'[a] == (if joinsNext then Header(NextNode(base, bs, j + 1), n + SizeOf(bs, j + 1))
                            else Header(NextNode(base, bs, j), n))
               && m'[p] == if j > 0 && bs[j - 1].addr + bs[j - 1].size == a
                           then Header(m'[a].ptr, SizeOf(bs, j) + m'[a].size) else Header(a, SizeOf(bs, j))
  {
    PlaceBounds(bs, a, n);
    var j := Place(bs, a);
    PlaceIsBetween(m, base, bs, a, n, j);
    hide BlocksOk, Disjoint, Insert;
    assert NodeOk(m, base, bs, j) && NodeOk(m, base, bs, 0) && (j < |bs| ==> NodeOk(m, base, bs, j + 1));
    if j < |bs| {
      PlaceIsBetween(m, base, bs, a, n, j + 1);
    }
  }

  /** free's writes make the cycle of the longer list. */
  lemma RelinkedIsInsert(m: seq<Header>, base: nat, bs: seq<Block>, a: nat, n: nat)
    requires Cyclic(m, base, bs) && BlocksOk(bs) && n > 0 && Disjoint(bs, a, n)
    requires base < a < |m| && m[a].size == n
    ensures Node(base, bs, Place(bs, a)) < |m| && 0 <= m[Node(base, bs, Place(bs, a))].ptr < |m|
    ensures Cyclic(Relinked(m, Node(base, bs, Place(bs, a)), a), base, Insert(bs, a, n))
  {
    hide BlocksOk, Disjoint, Insert, Relinked;
    PlaceBounds(bs, a, n);
    RelinkedValues(m, base, bs, a, n);
    var j, t := Place(bs, a), Insert(bs, a, n);
    var lo, hi, b := InsertParts(bs, a, n);
    var m' := Relinked(m, Node(base, bs, j), a);
    InsertedNodes(base, bs, a, n, lo, hi, b, 0);
    forall i | 0 <= i <= |t| ensures NodeOk(m', base, t, i) {
      RelinkedNode(m, base, bs, a, n, lo, hi, b, i);
    }
    forall i | 0 <= i < |t| ensures base < t[i].addr {
      InsertedNodes(base, bs, a, n, lo, hi, b, i + 1);
    }
  }

  lemma RelinkedNode(m: seq<Header>, base: nat, bs: seq<Block>, a: nat, n: nat, lo: nat, hi: nat, b: Block, i: nat)
    requires Cyclic(m, base, bs) && BlocksOk(bs) && n > 0 && Disjoint(bs, a, n)
    requires base < a < |m| && m[a].size == n
    requires var j := Place(bs, a);
             && lo <= j <= hi <= |bs| && j <= lo + 1 && hi <= j + 1
             && (lo < j <==> j > 0 && bs[j - 1].addr + bs[j - 1].size == a)
             && (hi > j <==> j < |bs| && a + n == bs[j].addr)
             && b.addr == (if lo < j then bs[lo].addr else a)
             && b.addr + b.size == (if hi > j then a + n + bs[hi - 1].size else a + n)
    requires Insert(bs, a, n) == bs[..lo] + [b] + bs[hi..] && i <= |Insert(bs, a, n)|
    ensures Node(base, bs, Place(bs, a)) < |m| && 0 <= m[Node(base, bs, Place(bs, a))].ptr < |m|
    ensures NodeOk(Relinked(m, Node(base, bs, Place(bs, a)), a), base, Insert(bs, a, n), i)
  {
    hide BlocksOk, Disjoint, Insert, Relinked, Cyclic, Place;
    RelinkedValues(m, base, bs, a, n);
    InsertedNodes(base, bs, a, n, lo, hi, b, i);
    var j := Place(bs, a);
    var k := if i <= lo then i else i + hi - lo - 1;
    NodeAt(m, base, bs, k);
    PlaceIsBetween(m, base, bs, a, n, k);
    if k < j { NodesAscend(m, base, bs, k, j); } else if j < k { NodesAscend(m, base, bs, j, k); }
  }

  lemma NodeAt(m: seq<Header>, base: nat, bs: seq<Block>, k: nat)
    requires Cyclic(m, base, bs) && k <= |bs|
    ensures NodeOk(m, base, bs, k)
  {
  }

  // ---------- The writes of malloc ----------

  /** Node `c + 1` drops out of the cycle. */
  lemma UnlinkedIsTake(m: seq<Header>, base: nat, bs: seq<Block>, c: nat)
    requires Cyclic(m, base, bs) && BlocksOk(bs) && c < |bs|
    ensures Node(base, bs, c) < |m| && Node(base, bs, c + 1) < |m|
    ensures var prevp, p := Node(base, bs, c), Node(base, bs, c + 1);
            Cyclic(m[prevp := Header(m[p].ptr, m[prevp].size)], base, Take(bs, c, bs[c].size))
  {
    hide BlocksOk;
    var t := Take(bs, c, bs[c].size);
    assert NodeOk(m, base, bs, c) && NodeOk(m, base, bs, c + 1);
    var prevp, p := Node(base, bs, c), Node(base, bs, c + 1);
    var m' := m[prevp := Header(m[p].ptr, m[prevp].size)];
    assert |t| == |bs| - 1 && forall i :: 0 <= i < |t| ==> t[i] == if i < c then bs[i] else bs[i + 1];
    hide Cyclic;
    forall i | 0 <= i <= |t| ensures NodeOk(m', base, t, i) {
      UnlinkedNode(m, base, bs, c, i);
    }
    assert forall i :: 0 <= i < |t| ==> base < t[i].addr by { BlocksAbove(m, base, bs); }
    CyclicFromNodes(m', base, t);
  }

  lemma UnlinkedNode(m: seq<Header>, base: nat, bs: seq<Block>, c: nat, i: nat)
    requires Cyclic(m, base, bs) && BlocksOk(bs) && c < |bs| && i < |bs|
    ensures |Take(bs, c, bs[c].size)| == |bs| - 1
    ensures Node(base, bs, c) < |m| && Node(base, bs, c + 1) < |m|
    ensures var prevp, p := Node(base, bs, c), Node(base, bs, c + 1);
            NodeOk(m[prevp := Header(m[p].ptr, m[prevp].size)], base, Take(bs, c, bs[c].size), i)
  {
    hide Cyclic, BlocksOk;
    var t := Take(bs, c, bs[c].size);
    assert |t| == |bs| - 1 && forall k :: 0 <= k < |t| ==> t[k] == if k < c then bs[k] else bs[k + 1];
    var k := if i <= c then i else i + 1;
    NodeAt(m, base, bs, k);
    NodeAt(m, base, bs, c);
    NodeAt(m, base, bs, c + 1);
    if k < c { NodesAscend(m, base, bs, k, c); } else if c < k { NodesAscend(m, base, bs, c, k); }
  }

  lemma BlocksAbove(m: seq<Header>, base: nat, bs: seq<Block>)
    requires Cyclic(m, base, bs)
    ensures forall i :: 0 <= i < |bs| ==> base < bs[i].addr
  {
  }

  lemma CyclicFromNodes(m: seq<Header>, base: nat, bs: seq<Block>)
    requires forall i :: 0 <= i <= |bs| ==> NodeOk(m, base, bs, i)
    requires forall i :: 0 <= i < |bs| ==> base < bs[i].addr
    ensures Cyclic(m, base, bs)
  {
  }

  /** Node `c + 1` shrinks and a header appears at its cut-off tail. */
  lemma SplitIsTake(m: seq<Header>, base: nat, bs: seq<Block>, c: nat, n: nat, h: Header)
    requires Cyclic(m, base, bs) && BlocksOk(bs) && c < |bs| && 0 < n < bs[c].size && TakenAddr(bs, c, n) < |m|
    ensures Node(base, bs, c + 1) < |m|
    ensures var p := Node(base, bs, c + 1);
            Cyclic(m[p := Header(m[p].ptr, bs[c].size - n)][TakenAddr(bs, c, n) := h], base, Take(bs, c, n))
  {
    hide BlocksOk;
    var t := Take(bs, c, n);
    assert NodeOk(m, base, bs, c + 1);
    var p := Node(base, bs, c + 1);
    var m' := m[p := Header(m[p].ptr, bs[c].size - n)][TakenAddr(bs, c, n) := h];
    assert |t| == |bs| && (forall i :: 0 <= i < |t| ==> t[i].addr == bs[i].addr);
    hide Cyclic;
    forall i | 0 <= i <= |t| ensures NodeOk(m', base, t, i) {
      SplitNode(m, base, bs, c, n, h, i);
    }
    BlocksAbove(m, base, bs);
    CyclicFromNodes(m', base, t);
  }

  lemma SplitNode(m: seq<Header>, base: nat, bs: seq<Block>, c: nat, n: nat, h: Header, i: nat)
    requires Cyclic(m, base, bs) && BlocksOk(bs) && c < |bs| && 0 < n < bs[c].size && TakenAddr(bs, c, n) < |m|
    requires i <= |bs|
    ensures |Take(bs, c, n)| == |bs| && Node(base, bs, c + 1) < |m|
    ensures var p := Node(base, bs, c + 1);
            NodeOk(m[p := Header(m[p].ptr, bs[c].size - n)][TakenAddr(bs, c, n) := h], base, Take(bs, c, n), i)
  {
    hide Cyclic, BlocksOk;
    var t := Take(bs, c, n);
    assert |t| == |bs| && (forall k :: 0 <= k < |t| && k != c ==> t[k] == bs[k]);
    assert t[c] == Block(bs[c].addr, bs[c].size - n);
    NodeAt(m, base, bs, i);
    NodeAt(m, base, bs, c + 1);
    TailIsNoNode(m, base, bs, c, n, i);
    if i < c + 1 { NodesAscend(m, base, bs, i, c + 1); } else if c + 1 < i { NodesAscend(m, base, bs, c + 1, i); }
  }

  lemma TailIsNoNode(m: seq<Header>, base: nat, bs: seq<Block>, c: nat, n: nat, i: nat)
    requires Cyclic(m, base, bs) && BlocksOk(bs) && c < |bs| && 0 < n < bs[c].size && i <= |bs|
    ensures Node(base, bs, i) != TakenAddr(bs, c, n)
  {
    if 0 < i <= c {
      Gap(bs, i - 1, c);
    } else if c + 1 < i {
      Gap(bs, c, i - 1);
    }
  }

  // ---------- Sizes ----------

  /** `nunits`: an unsigned of a size_t computation. */
  function Units(nbytes: nat): nat {
    ((nbytes + 15) % TWO64 / 16 + 1) % TWO32
  }

  /** `(int) x` for an unsigned x below 2^32 or a size_t: the low 32 bits, signed. */
  function ToInt(x: int): int {
    var low := x % TWO32;
    if low < TWO32 / 2 then low else low - TWO32
  }

  /** The units morecore asks for. */
  function Refill(nunits: nat): int {
    if ToInt(nunits) < NALLOC then NALLOC else ToInt(nunits)
  }

  /** The bytes morecore passes to sbrk. */
  function RefillBytes(nunits: nat): int {
    ToInt(Refill(nunits) * 16)
  }

  /** The kernel's pages hold the units morecore believes it got, and those malloc wants. */
  predicate RefillSuffices(nunits: nat) {
    nunits <= Refill(nunits) && 0 < Refill(nunits) <= PagesFor(RefillBytes(nunits)) * UNITS_PER_PAGE
  }

  lemma RefillSufficesBelow2G(nbytes: nat)
    requires nbytes <= 0x7FFF_FFE0
    ensures RefillSuffices(Units(nbytes)) && nbytes <= (Units(nbytes) - 1) * 16
  {
    hide RefillSuffices;
    var n := Units(nbytes);
    assert n == (nbytes + 15) / 16 + 1 <= 0x7FF_FFFF;
    SmallRefill(n);
  }

  lemma SmallRefill(n: nat)
    requires 0 < n <= 0x7FF_FFFF
    ensures RefillSuffices(n)
  {
    var r := if n < NALLOC then NALLOC else n;
    assert ToInt(n) == n && Refill(n) == r;
    assert RefillBytes(n) == r * 16 && PagesFor(r * 16) == r * 16 / 0x1000 + 1;
  }

  lemma RefillFailsFrom2G(nbytes: nat)
    requires 0x7FFF_FFE0 < nbytes < TWO64
    ensures !(RefillSuffices(Units(nbytes)) && nbytes <= (Units(nbytes) - 1) * 16)
  {
    var n: int := Units(nbytes);
    if n < 0x800_0000 {
      assert (n - 1) * 16 <= 0x7FFF_FFE0;
    } else if n < 0x8000_0000 {
      assert RefillBytes(n) <= n * 16 - 0x1_0000_0000;
    } else {
      assert ToInt(n) < 0;
    }
  }

  /**
   The 32-bit sizes in malloc and morecore are right exactly up to 2^31 - 32 bytes: the
   units cover the request and a refill covers the units.
   */
  lemma RefillIsSound(nbytes: nat)
    requires nbytes < TWO64
    ensures nbytes <= 0x7FFF_FFE0 <==> RefillSuffices(Units(nbytes)) && nbytes <= (Units(nbytes) - 1) * 16
  {
    if nbytes <= 0x7FFF_FFE0 {
      RefillSufficesBelow2G(nbytes);
    } else {
      RefillFailsFrom2G(nbytes);
    }
  }

  /** A block covers the request unless the count of its units has wrapped round. */
  lemma CoversIff(nbytes: nat)
    requires nbytes < TWO64
    ensures Units(nbytes) > 0 ==> (nbytes <= (Units(nbytes) - 1) * 16 <==> nbytes <= 0xF_FFFF_FFE0)
  {
    if nbytes <= 0xF_FFFF_FFE0 {
      assert Units(nbytes) == (nbytes + 15) / 16 + 1;
    } else {
      assert Units(nbytes) <= 0xFFFF_FFFF;
    }
  }

  // ---------- The heap ----------

  class Heap {
    const mem: array<Header>
    const base: nat
    const start: nat                     // where the kernel's heap area begins, in units
    var freep: int
    var brk: nat                         // end of the kernel's heap area, in units
    ghost var at: nat                    // freep is node `at`
    ghost var blocks: seq<Block>         // the free list
    ghost var live: map<nat, nat>        // blocks handed out: header address to size
    ghost var granted: set<nat>          // units obtained from sbrk

    ghost predicate Valid()
      reads this, mem
    {
      && base < start <= brk <= mem.Length
      && HeapOk(blocks, live, granted)
      && (freep == NULL ==> blocks == [] && live == map[])
      && (freep != NULL ==> Cyclic(mem[..], base, blocks) && at <= |blocks| && freep == Node(base, blocks, at))
      && (forall a :: a in live ==> a < mem.Length && mem[a].size == live[a])
      && (forall u :: u in granted ==> start <= u < brk)
    }

    constructor (memory: array<Header>, baseAddr: nat, heapStart: nat)
      requires baseAddr < heapStart <= memory.Length
      ensures Valid() && mem == memory && base == baseAddr && start == brk == heapStart && freep == NULL
      ensures blocks == [] && live == map[] && granted == {}
    {
      mem, base, start, brk, freep := memory, baseAddr, heapStart, heapStart, NULL;
      at, blocks, live, granted := 0, [], map[], {};
    }

    lemma ListIsOk()
      requires Valid()
      ensures HeapOk(blocks, live, granted)
    {
      hide Cyclic, HeapOk;
    }

    lemma FreeIsOk()
      requires Valid()
      ensures BlocksOk(blocks)
    {
      hide Cyclic, BlocksOk;
      HeapIsOk(blocks, live, granted);
    }

    /** A block handed out lies in the kernel's heap area. */
    lemma LiveIsInside(a: nat)
      requires Valid() && a in live
      ensures start <= a && a + live[a] <= brk
    {
      hide Cyclic, BlocksOk, Covered;
      LiveIsNotFree(blocks, live, granted, a);
      HeapIsOk(blocks, live, granted);
      assert a in granted && a + live[a] - 1 in granted;
    }

    /** What `Valid` says once there is a list. */
    lemma ListFacts()
      requires Valid() && freep != NULL
      ensures Cyclic(mem[..], base, blocks) && BlocksOk(blocks) && at <= |blocks| && freep == Node(base, blocks, at)
    {
      hide Cyclic, BlocksOk;
      HeapIsOk(blocks, live, granted);
    }

    /** free's search loop: stop at the node behind which the block at `bp` belongs. */
    method FindPlace(bp: nat, ghost n: nat) returns (p: nat)
      requires freep != NULL && Cyclic(mem[..], base, blocks) && BlocksOk(blocks) && at <= |blocks|
      requires freep == Node(base, blocks, at) && n > 0 && Disjoint(blocks, bp, n) && base < bp
      ensures p == Node(base, blocks, Place(blocks, bp))
    {
      hide Cyclic, BlocksOk, Disjoint, Place;
      ghost var i: nat, j := at, Place(blocks, bp);
      p := freep;
      CycleStep(mem[..], base, blocks, bp, n, i);
      while !(bp > p && bp < mem[p].ptr)
        invariant p < mem.Length && i <= |blocks| && p == Node(base, blocks, i)
        decreases if i <= j then j - i else j + |blocks| + 1 - i
      {
        CycleStep(mem[..], base, blocks, bp, n, i);
        if p >= mem[p].ptr && (bp > p || bp < mem[p].ptr) { break; }
        p, i := mem[p].ptr, Succ(|blocks|, i);
        CycleStep(mem[..], base, blocks, bp, n, i);
      }
      CycleStep(mem[..], base, blocks, bp, n, i);
    }

    /** The body of free() for the block at `bp`: the part malloc's refill shares. */
    method Release(bp: nat, ghost n: nat)
      requires freep != NULL && Cyclic(mem[..], base, blocks) && BlocksOk(blocks) && at <= |blocks|
      requires freep == Node(base, blocks, at) && n > 0 && Disjoint(blocks, bp, n)
      requires base < bp < mem.Length && mem[bp].size == n
      modifies mem, `freep, `at, `blocks
      ensures blocks == Insert(old(blocks), bp, n) && at == Place(old(blocks), bp)
      ensures Cyclic(mem[..], base, blocks) && at <= |blocks| && freep == Node(base, blocks, at) && freep != NULL
      ensures forall x :: 0 <= x < mem.Length && x != bp && x != Node(base, old(blocks), at) ==> mem[x] == old(mem[x])
    {
      hide Cyclic, BlocksOk, Disjoint, Insert, Place;
      ghost var j, m := Place(blocks, bp), mem[..];
      var p := FindPlace(bp, n);
      RelinkedIsInsert(m, base, blocks, bp, n);
      InsertKeepsPlace(base, blocks, bp, n);
      var q := mem[p].ptr;
      if bp + mem[bp].size == q {
        mem[bp] := Header(mem[q].ptr, mem[bp].size + mem[q].size);
      } else {
        mem[bp] := Header(q, mem[bp].size);
      }
      if p + mem[p].size == bp {
        mem[p] := Header(mem[bp].ptr, mem[p].size + mem[bp].size);
      } else {
        mem[p] := Header(bp, mem[p].size);
      }
      assert mem[..] == Relinked(m, p, bp);
      freep := p;
      at, blocks := j, Insert(blocks, bp, n);
    }
  
    /** free(ap): the block goes back, joined with its free neighbours. */
    method Free(ap: nat)
      requires Valid() && ap > 0 && ap - 1 in live
      modifies mem, `freep, `at, `blocks, `live
      ensures Valid() && blocks == Insert(old(blocks), ap - 1, old(live)[ap - 1])
      ensures live == old(live) - {ap - 1} && granted == old(granted) && brk == old(brk)
      ensures freep != NULL && at == Place(old(blocks), ap - 1)
    {
      hide Cyclic, HeapOk, Insert, Disjoint, BlocksOk;
      ghost var n, bs, m := live[ap - 1], blocks, mem[..];
      HeapParts(blocks, live, granted, ap - 1);
      FreeKeepsHeap(blocks, live, granted, ap - 1);
      forall a | a in live ensures a != Node(base, bs, at) && a != Node(base, bs, Place(bs, ap - 1)) {
        LiveIsNoNode(m, base, bs, live, granted, a, at);
        LiveIsNoNode(m, base, bs, live, granted, a, Place(bs, ap - 1));
      }
      Release(ap - 1, n);
      live := live - {ap - 1};
    }

    /**
     The sbrk system call: the kernel's malloc maps pages at the end of the heap area.  It
     stops the machine when frames run out, and otherwise never reports failure; `refuses`
     stands for the -1 that morecore tests for.
     */
    method Sbrk(bytes: int, refuses: bool) returns (cp: int, halted: bool)
      modifies `brk
      ensures refuses ==> cp == NULL && !halted && brk == old(brk)
      ensures !refuses && PagesFor(bytes) > 0 ==>
                halted == (old(brk) + PagesFor(bytes) * UNITS_PER_PAGE > mem.Length)
      ensures !refuses && PagesFor(bytes) > 0 && !halted ==>
                cp == old(brk) && brk == old(brk) + PagesFor(bytes) * UNITS_PER_PAGE
      ensures halted ==> brk == old(brk)
    {
      if refuses { return NULL, false; }
      var grow := if PagesFor(bytes) > 0 then PagesFor(bytes) * UNITS_PER_PAGE else 0;
      if brk + grow > mem.Length { return NULL, true; }
      cp, halted := brk, false;
      brk := brk + grow;
    }

    /** `up->s.size = nu; free(up + 1)`: a fresh region joins the free list. */
    method AddRegion(up: nat, nu: nat)
      requires Valid() && freep != NULL && start <= up && 0 < nu && up + nu <= brk && Range(up, nu) !! granted
      modifies mem, `freep, `at, `blocks, `granted
      ensures Valid() && freep != NULL && blocks == Insert(old(blocks), up, nu) && at == Place(old(blocks), up)
      ensures granted == old(granted) + Range(up, nu) && HasRoom(blocks, nu)
    {
      hide Cyclic, HeapOk, Insert, Disjoint, BlocksOk, Covered, Place;
      ghost var bs, m := blocks, mem[..];
      GrantKeepsHeap(blocks, live, granted, up, nu);
      HeapIsOk(blocks, live, granted);
      InsertKeepsPlace(base, blocks, up, nu);
      forall a | a in live ensures a != Node(base, bs, at) && a != Node(base, bs, Place(bs, up)) && a != up {
        HeapParts(bs, live, granted, a);
        LiveIsNoNode(m, base, bs, live, granted, a, at);
        LiveIsNoNode(m, base, bs, live, granted, a, Place(bs, up));
      }
      forall i | 0 <= i <= |bs| ensures Node(base, bs, i) != up {
        NodeIsGranted(m, base, bs, live, granted, i);
      }
      CyclicElsewhere(m, base, bs, up, Header(m[up].ptr, nu));
      mem[up] := Header(mem[up].ptr, nu);
      assert mem[..] == m[up := Header(m[up].ptr, nu)];
      Release(up, nu);
      granted := granted + Range(up, nu);
      RoomAt(blocks, at, nu);
    }

    method Morecore(nunits: nat, refuses: bool) returns (p: int, halted: bool)
      requires Valid() && freep != NULL && RefillSuffices(nunits) && nunits > 0
      modifies mem, `freep, `brk, `at, `blocks, `granted
      ensures halted ==> old(brk) + PagesFor(RefillBytes(nunits)) * UNITS_PER_PAGE > mem.Length
      ensures !halted ==> Valid() && p == if refuses then NULL else freep
      ensures refuses ==> !halted && blocks == old(blocks) && at == old(at)
      ensures refuses ==> granted == old(granted) && brk == old(brk)
      ensures !halted && !refuses ==>
                && freep != NULL && blocks == Insert(old(blocks), old(brk), Refill(nunits))
                && at == Place(old(blocks), old(brk))
                && granted == old(granted) + Range(old(brk), Refill(nunits))
                && brk == old(brk) + PagesFor(RefillBytes(nunits)) * UNITS_PER_PAGE
                && HasRoom(blocks, nunits)
    {
      hide Cyclic, HeapOk, Insert, Disjoint, BlocksOk, Place;
      var nu := Refill(nunits);
      var cp;
      cp, halted := Sbrk(RefillBytes(nunits), refuses);
      if halted || cp == NULL { return NULL, halted; }
      AddRegion(cp, nu);
      p := freep;
    }

    /** The first call finds no list and makes one of base alone. */
    method Start()
      requires Valid()
      modifies mem, `freep, `at
      ensures Valid() && freep != NULL && (old(freep) != NULL ==> at == old(at))
      ensures old(freep) == NULL ==> at == 0 && blocks == []
    {
      hide Cyclic, HeapOk;
      if freep == NULL {
        mem[base] := Header(base, 0);
        freep, at := base, 0;
        OnlyBase(mem[..], base);
      }
    }

    /** malloc's two ways to take `nunits` from the block at `p`, behind `prevp`. */
    method Carve(prevp: nat, p: nat, nunits: nat, ghost c: nat) returns (r: Result)
      requires Valid() && freep != NULL && c < |blocks|
      requires prevp == Node(base, blocks, c) && p == Node(base, blocks, c + 1)
      requires 0 < nunits <= blocks[c].size
      modifies mem, `freep, `at, `blocks, `live
      ensures Valid() && granted == old(granted) && blocks == Take(old(blocks), c, nunits)
      ensures r == Got(TakenAddr(old(blocks), c, nunits) + 1) && r.ap - 1 !in old(live)
      ensures r.ap - 1 + nunits == old(blocks)[c].addr + old(blocks)[c].size
      ensures live == old(live)[r.ap - 1 := nunits] && freep == prevp && brk == old(brk)
    {
      hide Cyclic, HeapOk, Disjoint, BlocksOk, Take;
      ghost var bs, m, a := blocks, mem[..], TakenAddr(blocks, c, nunits);
      HeapIsOk(blocks, live, granted);
      NodeAt(m, base, bs, c);
      NodeAt(m, base, bs, c + 1);
      TakeKeepsHeap(bs, live, granted, c, nunits);
      TailIsGranted(bs, live, granted, c, nunits);
      TakeLength(base, bs, c, nunits);
      forall b | b in live ensures b != prevp && b != p {
        LiveIsNoNode(m, base, bs, live, granted, b, c);
        LiveIsNoNode(m, base, bs, live, granted, b, c + 1);
      }
      var q := Cut(prevp, p, nunits, c);
      freep := prevp;
      at, blocks, live := c, Take(blocks, c, nunits), live[a := nunits];
      r := Got(q + 1);
    }

    /** The header writes of both ways. */
    method Cut(prevp: nat, p: nat, nunits: nat, ghost c: nat) returns (q: nat)
      requires Cyclic(mem[..], base, blocks) && BlocksOk(blocks) && c < |blocks| && 0 < nunits <= blocks[c].size
      requires prevp == Node(base, blocks, c) && p == Node(base, blocks, c + 1)
      requires p < mem.Length && prevp < mem.Length && TakenAddr(blocks, c, nunits) < mem.Length
      modifies mem
      ensures q == TakenAddr(blocks, c, nunits) && mem[q].size == nunits
      ensures Cyclic(mem[..], base, Take(blocks, c, nunits))
      ensures forall x :: 0 <= x < mem.Length && x != prevp && x != p && x != q ==> mem[x] == old(mem[x])
    {
      hide Cyclic, BlocksOk, Take;
      ghost var m := mem[..];
      NodeAt(m, base, blocks, c);
      NodeAt(m, base, blocks, c + 1);
      if mem[p].size == nunits {
        UnlinkedIsTake(m, base, blocks, c);
        PrecedingDiffers(m, base, blocks, c);
        mem[prevp] := Header(mem[p].ptr, mem[prevp].size);
        q := p;
        assert mem[..] == m[prevp := Header(m[p].ptr, m[prevp].size)];
      } else {
        q := p + mem[p].size - nunits;
        SplitIsTake(m, base, blocks, c, nunits, Header(m[q].ptr, nunits));
        mem[p] := Header(mem[p].ptr, mem[p].size - nunits);
        q := p + mem[p].size;
        mem[q] := Header(mem[q].ptr, nunits);
        assert mem[..] == m[p := Header(m[p].ptr, blocks[c].size - nunits)][q := Header(m[q].ptr, nunits)];
      }
    }

    /**
     One turn of malloc's loop round the cycle, from the node behind freep back to freep:
     stop at the first block of at least `nunits`, or report that there is none.
     */
    method Scan(nunits: nat) returns (found: bool, prevp: nat, p: nat, ghost tried: nat, ghost c: nat)
      requires Valid() && freep != NULL && nunits > 0
      ensures found ==> c < |blocks| && prevp == Node(base, blocks, c) && p == Node(base, blocks, c + 1)
      ensures found ==> FirstFit(blocks, at, tried, nunits, c + 1) && blocks[c].size >= nunits
      ensures found <==> HasRoom(blocks, nunits)
      ensures !found ==> p == freep
    {
      hide Cyclic, BlocksOk, Heap.Valid;
      ListFacts();
      tried, c := 0, 0;
      prevp := freep;
      NodeAt(mem[..], base, blocks, at);
      p := mem[prevp].ptr;
      while true
        invariant tried <= |blocks|
        invariant p == Node(base, blocks, Nth(|blocks|, at, tried))
        invariant prevp == Node(base, blocks, if tried == 0 then at else Nth(|blocks|, at, tried - 1))
        invariant AllSmall(blocks, at, tried, nunits)
        decreases |blocks| - tried
      {
        ghost var k := Nth(|blocks|, at, tried);
        NodeAt(mem[..], base, blocks, k);
        if mem[p].size >= nunits {
          c := k - 1;
          found := true;
          assert blocks[c].size >= nunits;
          return;
        }
        if p == freep {
          NodesDiffer(mem[..], base, blocks, k, at);
          AllTooSmall(blocks, at, tried, nunits);
          found := false;
          return;
        }
        prevp, p, tried := p, mem[p].ptr, tried + 1;
      }
    }

    /**
     malloc(nbytes).  The scan starts behind freep and takes the first block that is large
     enough; only when every block on the cycle is too small is memory fetched, once, and
     the scan, going on behind the new freep, then meets a block that is large enough.
     `searched` is the list scanned last, `tried` the number of nodes it passed over, and
     `c` the block it took from.
     */
    method Malloc(nbytes: nat, refuses: bool)
      returns (r: Result, ghost refilled: bool, ghost searched: seq<Block>, ghost tried: nat, ghost c: nat)
      requires Valid() && nbytes < TWO64
      requires nbytes <= 0x7FFF_FFE0 || (0 < Units(nbytes) && HasRoom(blocks, Units(nbytes)))
      modifies mem, this
      ensures r.Halted? ==> old(brk) + PagesFor(RefillBytes(Units(nbytes))) * UNITS_PER_PAGE > mem.Length
      ensures !r.Halted? ==>
        Valid() && searched == (if refilled then Insert(old(blocks), old(brk), Refill(Units(nbytes))) else old(blocks))
      ensures !r.Halted? ==> granted == old(granted) + (if refilled then Range(old(brk), Refill(Units(nbytes))) else {})
      ensures !r.Halted? ==>
        brk == old(brk) + if refilled then PagesFor(RefillBytes(Units(nbytes))) * UNITS_PER_PAGE else 0
      ensures !r.Halted? ==> (refilled || r.Null? <==> !HasRoom(old(blocks), Units(nbytes)))
      ensures r.Null? ==> refuses && !refilled && blocks == old(blocks) && live == old(live)
      ensures r.Got? ==> (nbytes <= (Units(nbytes) - 1) * 16 <==> nbytes <= 0xF_FFFF_FFE0)
      ensures r.Got? ==> c < |searched| && Units(nbytes) <= searched[c].size
      ensures r.Got? ==> r.ap == TakenAddr(searched, c, Units(nbytes)) + 1 && r.ap - 1 !in old(live)
      ensures r.Got? ==> r.ap - 1 + Units(nbytes) == searched[c].addr + searched[c].size
      ensures r.Got? ==> blocks == Take(searched, c, Units(nbytes)) && live == old(live)[r.ap - 1 := Units(nbytes)]
      ensures r.Got? ==>
        FirstFit(searched, if refilled then Place(old(blocks), old(brk)) else old(at), tried, Units(nbytes), c + 1)
    {
      hide Cyclic, HeapOk, Insert, Disjoint, BlocksOk, Take, FirstFit, RefillSuffices;
      hide HasRoom, Place, Units, Range, Heap.Valid;
      var nunits := Units(nbytes);
      RefillIsSound(nbytes);
      CoversIff(nbytes);
      if nbytes <= 0x7FFF_FFE0 { UnitsPositive(nbytes); }
      refilled, searched, tried, c := false, blocks, 0, 0;
      Start();
      while true
        invariant Valid() && freep != NULL && live == old(live) && blocks == searched
        invariant !refilled ==> granted == old(granted) && brk == old(brk) && searched == old(blocks)
        invariant !refilled && old(freep) != NULL ==> at == old(at)
        invariant refilled ==> granted == old(granted) + Range(old(brk), Refill(nunits)) && HasRoom(blocks, nunits)
        invariant refilled ==> searched == Insert(old(blocks), old(brk), Refill(nunits))
        invariant refilled ==> at == Place(old(blocks), old(brk))
        invariant refilled ==> !HasRoom(old(blocks), nunits)
        invariant refilled ==> brk == old(brk) + PagesFor(RefillBytes(nunits)) * UNITS_PER_PAGE
        decreases !refilled
      {
        var found, prevp, p;
        found, prevp, p, tried, c := Scan(nunits);
        if found {
          r := Carve(prevp, p, nunits, c);
          return;
        }
        var q, halted;
        q, halted := Morecore(nunits, refuses);
        if halted { return Halted, refilled, searched, tried, c; }
        if q == NULL { return Null, refilled, searched, tried, c; }
        refilled, searched := true, blocks;
      }
    }
  
    /** The owner of a live block may write all of it but its header. */
    method UserWrite(a: nat, k: nat, h: Header)
      requires Valid() && a in live && 0 < k < live[a]
      modifies mem
      ensures Valid() && a + k < mem.Length && mem[..] == old(mem[..])[a + k := h]
    {
      hide Cyclic, HeapOk, BlocksOk, Covered;
      ghost var m := mem[..];
      LiveIsNotFree(blocks, live, granted, a);
      assert a + k in granted;
      forall i | freep != NULL && 0 <= i <= |blocks| ensures Node(base, blocks, i) != a + k {
        NodeIsGranted(m, base, blocks, live, granted, i);
        assert Disjoint(blocks, a, live[a]) && !Covered(blocks, a + k);
      }
      if freep != NULL {
        CyclicElsewhere(m, base, blocks, a + k, h);
      }
      forall b | b in live ensures b != a + k {
        HeapIsOk(blocks, live, granted);
      }
      mem[a + k] := h;
      assert mem[..] == m[a + k := h];
    }
  }

  /** malloc, then free of its result: without a refill the free list is as it was. */
  method MallocThenFree(h: Heap, nbytes: nat, refuses: bool) returns (r: Result, ghost refilled: bool)
    requires h.Valid() && nbytes <= 0x7FFF_FFE0
    modifies h, h.mem
    ensures r.Got? ==> h.Valid() && h.live == old(h.live)
    ensures r.Got? && !refilled ==> h.blocks == old(h.blocks) && h.granted == old(h.granted)
  {
    hide Insert, Take, HeapOk, Cyclic, BlocksOk, Units, HasRoom, FirstFit, Place, Range, Refill, Heap.Valid;
    ghost var searched, tried, c;
    ghost var before, live0 := h.blocks, h.live;
    h.FreeIsOk();
    r, refilled, searched, tried, c := h.Malloc(nbytes, refuses);
    if r.Got? {
      UnitsPositive(nbytes);
      if !refilled {
        FreeUndoesMalloc(before, c, Units(nbytes));
      }
      AddThenDrop(live0, r.ap - 1, Units(nbytes));
      h.Free(r.ap);
    }
  }

  /** A call of a program: malloc, or free of the i-th block it still holds. */
  datatype Call = Allocate(nbytes: nat, refuses: bool) | Release(i: nat)

  /** The program holds exactly the blocks with headers at `held`, beside those that were live before. */
  ghost predicate Holding(live0: map<nat, nat>, live: map<nat, nat>, held: seq<nat>) {
    && (forall i :: 0 <= i < |held| ==> held[i] in live && held[i] !in live0)
    && (forall i, j :: 0 <= i < j < |held| ==> held[i] != held[j])
    && (forall b :: b in live0 ==> b in live && live[b] == live0[b])
    && (forall b :: b in live && b !in live0 ==> b in held)
  }

  lemma HoldingMore(live0: map<nat, nat>, live: map<nat, nat>, held: seq<nat>, a: nat, n: nat)
    requires Holding(live0, live, held) && a !in live
    ensures Holding(live0, live[a := n], held + [a])
  {
  }

  lemma HoldingLess(live0: map<nat, nat>, live: map<nat, nat>, held: seq<nat>, i: nat)
    requires Holding(live0, live, held) && i < |held|
    ensures Holding(live0, live - {held[i]}, Without(held, i))
  {
    hide Without;
    var held', live' := Without(held, i), live - {held[i]};
    forall j | 0 <= j < |held'| ensures held'[j] in live' && held'[j] !in live0 {
      assert held'[j] == held[if j < i then j else j + 1];
    }
    forall j, k | 0 <= j < k < |held'| ensures held'[j] != held'[k] {
      assert held'[j] == held[if j < i then j else j + 1] && held'[k] == held[if k < i then k else k + 1];
    }
    forall b | b in live' && b !in live0 ensures b in held' {
      var j :| 0 <= j < |held| && held[j] == b;
      assert held'[if j < i then j else j - 1] == b;
    }
  }

  function Without(held: seq<nat>, i: nat): (r: seq<nat>)
    requires i < |held|
    ensures |r| == |held| - 1
    ensures forall j :: 0 <= j < |r| ==> r[j] == held[if j < i then j else j + 1]
  {
    held[..i] + held[i + 1..]
  }

  lemma HoldingNone(live0: map<nat, nat>, live: map<nat, nat>)
    ensures Holding(live0, live, []) <==> live == live0
  {
  }

  /**
   Any program of malloc and free: when it has given back all it got, and no refill was
   needed on the way, the free list is the one it began with, block for block.
   */
  method PerformAll(h: Heap, calls: seq<Call>) returns (halted: bool, held: seq<nat>)
    requires h.Valid() && forall c :: c in calls && c.Allocate? ==> c.nbytes <= 0x7FFF_FFE0
    modifies h, h.mem
    ensures !halted ==> h.Valid() && Holding(old(h.live), h.live, held)
    ensures !halted && held == [] ==> h.live == old(h.live)
    ensures !halted && held == [] && h.granted == old(h.granted) ==> h.blocks == old(h.blocks)
  {
    hide HeapOk, Cyclic, BlocksOk, Units, HasRoom, FirstFit, Place, Range, Refill, RefillBytes, Insert, Take;
    hide Holding, Heap.Valid;
    ghost var blocks0, live0 := h.blocks, h.live;
    h.ListIsOk();
    HoldingNone(live0, live0);
    held := [];
    for k := 0 to |calls|
      invariant h.Valid() && Holding(live0, h.live, held)
    {
      assert calls[k] in calls;
      match calls[k]
      case Allocate(nbytes, refuses) =>
        var r;
        ghost var refilled, searched, tried, c, live1 := false, [], 0, 0, h.live;
        r, refilled, searched, tried, c := h.Malloc(nbytes, refuses);
        if r.Halted? { return true, held; }
        if r.Got? {
          HoldingMore(live0, live1, held, r.ap - 1, Units(nbytes));
          held := held + [r.ap - 1];
        }
      case Release(i) =>
        if i < |held| {
          HoldingLess(live0, h.live, held, i);
          HeldIsLive(live0, h.live, held, i);
          h.Free(held[i] + 1);
          held := Without(held, i);
        }
    }
    h.ListIsOk();
    HoldingNone(live0, h.live);
    if held == [] && h.granted == old(h.granted) {
      ListIsDetermined(blocks0, h.blocks, h.live, h.granted);
    }
    halted := false;
  }

  lemma HeldIsLive(live0: map<nat, nat>, live: map<nat, nat>, held: seq<nat>, i: nat)
    requires Holding(live0, live, held) && i < |held|
    ensures held[i] in live
  {
  }

  lemma AddThenDrop(live: map<nat, nat>, a: nat, n: nat)
    requires a !in live
    ensures live[a := n] - {a} == live && live[a := n][a] == n
  {
  }

  predicate HasRoom(bs: seq<Block>, n: nat) {
    exists i :: 0 <= i < |bs| && bs[i].size >= n
  }

  lemma UnitsPositive(nbytes: nat)
    requires nbytes <= 0x7FFF_FFE0
    ensures Units(nbytes) > 0
  {
  }

  lemma RoomAt(bs: seq<Block>, at: nat, n: nat)
    requires at <= |bs| && n > 0 && (SizeOf(bs, at) >= n || (at < |bs| && SizeOf(bs, at + 1) >= n))
    ensures HasRoom(bs, n)
  {
    var i := if SizeOf(bs, at) >= n then at - 1 else at;
    assert bs[i].size >= n;
  }

  datatype Result = Got(ap: nat) | Null | Halted

  /** The node reached `t + 1` links after node `start`, within one turn of the cycle. */
  function Nth(n: nat, start: nat, t: nat): nat
    requires start <= n && t <= n
  {
    if start + 1 + t <= n then start + 1 + t else start + t - n
  }

  ghost predicate AllSmall(bs: seq<Block>, start: nat, t: nat, n: nat)
    requires start <= |bs| && t <= |bs| + 1
  {
    forall s :: 0 <= s < t ==> SizeOf(bs, Nth(|bs|, start, s)) < n
  }

  /** Node `k` is the first one behind `start`, going round, with at least `n` units. */
  ghost predicate FirstFit(bs: seq<Block>, start: nat, t: nat, n: nat, k: nat) {
    && start <= |bs| && t <= |bs| && Nth(|bs|, start, t) == k && k <= |bs|
    && SizeOf(bs, k) >= n && AllSmall(bs, start, t, n)
  }

  /** Every block passed over, from behind `start` to `k` going round, is too small. */
  lemma FirstFitMeans(bs: seq<Block>, start: nat, t: nat, n: nat, k: nat)
    requires FirstFit(bs, start, t, n, k) && n > 0
    ensures 0 < k <= |bs| && bs[k - 1].size >= n
    ensures k > start ==> forall b :: start <= b < k - 1 ==> bs[b].size < n
    ensures k <= start ==> forall b :: 0 <= b < |bs| && (b >= start || b < k - 1) ==> bs[b].size < n
  {
    forall b | 0 <= b < |bs| && (if k > start then start <= b < k - 1 else b >= start || b < k - 1)
      ensures bs[b].size < n
    {
      var i := b + 1;
      var s := if i > start then i - start - 1 else i + |bs| - start;
      assert Nth(|bs|, start, s) == i && SizeOf(bs, i) == bs[b].size;
    }
  }

  /** What a refill asks for: at least 1024 units, and their bytes. */
  lemma RefillMeans(nunits: nat)
    requires 0 < nunits <= 0x7FF_FFFF
    ensures Refill(nunits) == (if nunits < 1024 then 1024 else nunits) && RefillBytes(nunits) == Refill(nunits) * 16
  {
  }

  /** The units of a request: its bytes in whole headers, and one for the header. */
  lemma UnitsMeans(nbytes: nat)
    requires nbytes <= 0xF_FFFF_FFE0
    ensures nbytes <= (Units(nbytes) - 1) * 16 < nbytes + 16
  {
  }

  /** Node `start` comes last in the turn that begins behind it. */
  lemma AllTooSmall(bs: seq<Block>, start: nat, t: nat, n: nat)
    requires start <= |bs| && t <= |bs| && AllSmall(bs, start, t, n)
    requires Nth(|bs|, start, t) == start && SizeOf(bs, start) < n
    ensures forall i :: 0 <= i < |bs| ==> bs[i].size < n
  {
    assert t == |bs|;
    forall i | 0 <= i < |bs| ensures bs[i].size < n {
      var k := i + 1;
      var s := if k > start then k - start - 1 else k + |bs| - start;
      assert Nth(|bs|, start, s) == k && SizeOf(bs, k) == bs[i].size;
    }
  }

  lemma PrecedingDiffers(m: seq<Header>, base: nat, bs: seq<Block>, c: nat)
    requires Cyclic(m, base, bs) && BlocksOk(bs) && c < |bs|
    ensures Node(base, bs, c) != Node(base, bs, c + 1)
  {
    NodesAscend(m, base, bs, c, c + 1);
  }

  lemma NodesDiffer(m: seq<Header>, base: nat, bs: seq<Block>, i: nat, k: nat)
    requires Cyclic(m, base, bs) && BlocksOk(bs) && i <= |bs| && k <= |bs| && Node(base, bs, i) == Node(base, bs, k)
    ensures i == k
  {
    if i < k { NodesAscend(m, base, bs, i, k); } else if k < i { NodesAscend(m, base, bs, k, i); }
  }

  lemma OnlyBase(m: seq<Header>, base: nat)
    requires base < |m| && m[base] == Header(base, 0)
    ensures Cyclic(m, base, [])
  {
  }

  lemma TailIsGranted(bs: seq<Block>, live: map<nat, nat>, granted: set<nat>, c: nat, n: nat)
    requires HeapOk(bs, live, granted) && c < |bs| && 0 < n <= bs[c].size
    ensures TakenAddr(bs, c, n) in granted
  {
    assert Covers(bs[c], TakenAddr(bs, c, n));
    assert UnitOk(bs, live, granted, TakenAddr(bs, c, n));
  }

  lemma TakeLength(base: nat, bs: seq<Block>, c: nat, n: nat)
    requires c < |bs| && 0 < n <= bs[c].size
    ensures c <= |Take(bs, c, n)| && Node(base, Take(bs, c, n), c) == Node(base, bs, c)
  {
  }

  lemma HeapIsOk(bs: seq<Block>, live: map<nat, nat>, granted: set<nat>)
    requires HeapOk(bs, live, granted)
    ensures BlocksOk(bs) && LiveOk(live)
  {
  }

  lemma HeapParts(bs: seq<Block>, live: map<nat, nat>, granted: set<nat>, a: nat)
    requires HeapOk(bs, live, granted) && a in live
    ensures BlocksOk(bs) && live[a] > 0 && Disjoint(bs, a, live[a]) && a in granted
  {
    LiveIsNotFree(bs, live, granted, a);
  }

  lemma NodeIsGranted(m: seq<Header>, base: nat, bs: seq<Block>, live: map<nat, nat>, granted: set<nat>, i: nat)
    requires HeapOk(bs, live, granted) && i <= |bs|
    ensures i > 0 ==> Node(base, bs, i) in granted && Covered(bs, Node(base, bs, i))
  {
    if i > 0 {
      assert Covers(bs[i - 1], bs[i - 1].addr);
      assert UnitOk(bs, live, granted, bs[i - 1].addr);
    }
  }

  lemma LiveIsNoNode(m: seq<Header>, base: nat, bs: seq<Block>, live: map<nat, nat>, granted: set<nat>, a: nat, i: nat)
    requires HeapOk(bs, live, granted) && a in live && i <= |bs| && forall u :: u in granted ==> base < u
    ensures a != Node(base, bs, i)
  {
    HeapParts(bs, live, granted, a);
    NodeIsGranted(m, base, bs, live, granted, i);
    hide HeapOk, BlocksOk, Covered;
    assert !Covered(bs, a);
  }

  /** A header outside the cycle may hold anything. */
  lemma CyclicElsewhere(m: seq<Header>, base: nat, bs: seq<Block>, x: nat, h: Header)
    requires Cyclic(m, base, bs) && x < |m| && forall i :: 0 <= i <= |bs| ==> Node(base, bs, i) != x
    ensures Cyclic(m[x := h], base, bs)
  {
    var m' := m[x := h];
    forall i | 0 <= i <= |bs| ensures NodeOk(m', base, bs, i) {
      NodeAt(m, base, bs, i);
    }
  }

  /** One look at node `i`: its links, and whether the block at `bp` belongs behind it. */
  lemma CycleStep(m: seq<Header>, base: nat, bs: seq<Block>, bp: nat, n: nat, i: nat)
    requires Cyclic(m, base, bs) && BlocksOk(bs) && n > 0 && Disjoint(bs, bp, n) && base < bp && i <= |bs|
    ensures var p := Node(base, bs, i);
            && p < |m| && m[p].ptr == NextNode(base, bs, i) == Node(base, bs, Succ(|bs|, i)) < |m|
            && (bp > p && bp < m[p].ptr <==> i == Place(bs, bp) && i < |bs|)
            && (p >= m[p].ptr && (bp > p || bp < m[p].ptr) <==> i == Place(bs, bp) && i == |bs|)
  {
    NodeAt(m, base, bs, i);
    NodeAt(m, base, bs, Succ(|bs|, i));
    PlaceIsBetween(m, base, bs, bp, n, i);
    if i < |bs| {
      PlaceIsBetween(m, base, bs, bp, n, i + 1);
      NodesAscend(m, base, bs, i, i + 1);
    } else if 0 < i {
      NodesAscend(m, base, bs, 0, i);
    }
  }

  /** The predecessor keeps its position, and the new units are in it or behind it. */
  lemma InsertKeepsPlace(base: nat, bs: seq<Block>, a: nat, n: nat)
    requires BlocksOk(bs) && n > 0 && Disjoint(bs, a, n)
    ensures Place(bs, a) <= |Insert(bs, a, n)|
    ensures Node(base, Insert(bs, a, n), Place(bs, a)) == Node(base, bs, Place(bs, a))
    ensures SizeOf(Insert(bs, a, n), Place(bs, a)) >= n ||
            (Place(bs, a) < |Insert(bs, a, n)| && SizeOf(Insert(bs, a, n), Place(bs, a) + 1) >= n)
  {
    hide BlocksOk, Disjoint, Insert, Place, SizeOf, NextNode;
    PlaceBounds(bs, a, n);
    var lo, hi, b := InsertParts(bs, a, n);
    InsertedNodes(base, bs, a, n, lo, hi, b, lo);
    InsertedNodes(base, bs, a, n, lo, hi, b, lo + 1);
  }

  /**
   What holds of the heap after every call: the headers form one cycle from base through
   the free blocks in ascending order, no two of which touch; live blocks overlap neither
   each other nor free ones; and the two together are all that came from the kernel.
   */
  lemma HeapMeans(h: Heap)
    requires h.Valid() && h.freep != NULL
    ensures h.base < h.mem.Length && h.mem[h.base].size == 0
    ensures h.mem[h.base].ptr == if h.blocks == [] then h.base else h.blocks[0].addr
    ensures forall i, j :: 0 <= i < j < |h.blocks| ==> h.blocks[i].addr + h.blocks[i].size < h.blocks[j].addr
    ensures forall a, b :: a in h.live && b in h.live && a < b ==> a + h.live[a] <= b
    ensures forall u: nat :: u in h.granted <==>
      || (exists i :: 0 <= i < |h.blocks| && h.blocks[i].addr <= u < h.blocks[i].addr + h.blocks[i].size)
      || (exists a :: a in h.live && a <= u < a + h.live[a])
    ensures forall i, a :: 0 <= i < |h.blocks| && a in h.live ==>
      h.blocks[i].addr + h.blocks[i].size <= a || a + h.live[a] <= h.blocks[i].addr
  {
    hide Cyclic, HeapOk;
    h.ListIsOk();
    HeapIsOk(h.blocks, h.live, h.granted);
    UnitsMean(h.blocks, h.live, h.granted);
    BaseMeans(h.mem[..], h.base, h.blocks);
  }

  /** The header of free block `i` holds its size and leads to the next one, the last to base. */
  lemma HeaderMeans(h: Heap, i: nat)
    requires h.Valid() && h.freep != NULL && i < |h.blocks|
    ensures h.blocks[i].addr < h.mem.Length && h.mem[h.blocks[i].addr].size == h.blocks[i].size > 0
    ensures h.mem[h.blocks[i].addr].ptr == if i + 1 < |h.blocks| then h.blocks[i + 1].addr else h.base
  {
    hide Cyclic, HeapOk;
    h.ListIsOk();
    HeapIsOk(h.blocks, h.live, h.granted);
    NodeMeans(h.mem[..], h.base, h.blocks, i);
  }

  lemma BaseMeans(m: seq<Header>, base: nat, bs: seq<Block>)
    requires Cyclic(m, base, bs)
    ensures base < |m| && m[base] == Header(if bs == [] then base else bs[0].addr, 0)
  {
    hide Cyclic;
    NodeAt(m, base, bs, 0);
  }

  lemma NodeMeans(m: seq<Header>, base: nat, bs: seq<Block>, i: nat)
    requires Cyclic(m, base, bs) && i < |bs|
    ensures bs[i].addr < |m|
    ensures m[bs[i].addr] == Header(if i + 1 < |bs| then bs[i + 1].addr else base, bs[i].size)
  {
    hide Cyclic;
    NodeAt(m, base, bs, i + 1);
  }

  lemma UnitsMean(bs: seq<Block>, live: map<nat, nat>, granted: set<nat>)
    requires HeapOk(bs, live, granted)
    ensures forall u: nat :: u in granted <==>
      || (exists i :: 0 <= i < |bs| && bs[i].addr <= u < bs[i].addr + bs[i].size)
      || (exists a :: a in live && a <= u < a + live[a])
    ensures forall i, a :: 0 <= i < |bs| && a in live ==>
      bs[i].addr + bs[i].size <= a || a + live[a] <= bs[i].addr
  {
    forall u: nat
      ensures u in granted <==>
        || (exists i :: 0 <= i < |bs| && bs[i].addr <= u < bs[i].addr + bs[i].size)
        || (exists a :: a in live && a <= u < a + live[a])
    {
      assert UnitOk(bs, live, granted, u);
      CoveredMeans(bs, u);
    }
    forall i, a | 0 <= i < |bs| && a in live
      ensures bs[i].addr + bs[i].size <= a || a + live[a] <= bs[i].addr
    {
      var u := if bs[i].addr < a then a else bs[i].addr;
      assert UnitOk(bs, live, granted, u);
      CoveredMeans(bs, u);
    }
  }

  lemma CoveredMeans(bs: seq<Block>, u: nat)
    ensures Covered(bs, u) <==> exists i :: 0 <= i < |bs| && bs[i].addr <= u < bs[i].addr + bs[i].size
  {
    if i :| 0 <= i < |bs| && bs[i].addr <= u < bs[i].addr + bs[i].size {
      assert Covers(bs[i], u);
    }
  }
}
