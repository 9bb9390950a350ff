/**
 The free blocks of the user heap as a value: an address-ordered list in which no two
 blocks touch.  Addresses and sizes are counted in 16-byte headers.
 */
module HeapModel {

  datatype Block = Block(addr: nat, size: nat)

  predicate Covers(b: Block, u: nat) {
    b.addr <= u < b.addr + b.size
  }

  /** Is unit `u` in some block? */
  ghost predicate Covered(bs: seq<Block>, u: nat) {
    exists i :: 0 <= i < |bs| && Covers(bs[i], u)
  }

  /** Ascending, not empty, disjoint, and with a gap between neighbours. */
  ghost predicate BlocksOk(bs: seq<Block>) {
    && (forall i :: 0 <= i < |bs| ==> bs[i].size > 0)
    && (forall i, j :: 0 <= i < j < |bs| ==> bs[i].addr + bs[i].size < bs[j].addr)
  }

  // ---------- The free list is the canonical decomposition of its units ----------

  lemma CoveredTail(bs: seq<Block>, u: nat)
    requires bs != []
    ensures Covered(bs, u) <==> Covers(bs[0], u) || Covered(bs[1..], u)
  {
    if Covered(bs[1..], u) {
      var i :| 0 <= i < |bs| - 1 && Covers(bs[1..][i], u);
      assert Covers(bs[i + 1], u);
    }
    if Covered(bs, u) && !Covers(bs[0], u) {
      var i :| 0 <= i < |bs| && Covers(bs[i], u);
      assert Covers(bs[1..][i - 1], u);
    }
  }

  /** Every covered unit is at or above the first block. */
  lemma CoveredFrom(bs: seq<Block>, u: nat)
    requires BlocksOk(bs) && Covered(bs, u)
    ensures bs != [] && bs[0].addr <= u
    ensures u == bs[0].addr + bs[0].size ==> false
  {
  }

  lemma FirstCovered(bs: seq<Block>)
    requires BlocksOk(bs)
    ensures bs != [] ==> Covered(bs, bs[0].addr)
  {
    if bs != [] {
      assert Covers(bs[0], bs[0].addr);
    }
  }

  lemma {:induction false} Canonical(a: seq<Block>, b: seq<Block>)
    requires BlocksOk(a) && BlocksOk(b) && forall u: nat :: Covered(a, u) <==> Covered(b, u)
    ensures a == b
    decreases |a|
  {
    if a == [] || b == [] {
      FirstCovered(a);
      FirstCovered(b);
    } else {
      SameFirst(a, b);
      forall u: nat ensures Covered(a[1..], u) <==> Covered(b[1..], u) {
        CoveredTail(a, u);
        CoveredTail(b, u);
        if Covered(a[1..], u) { CoveredFrom(a[1..], u); }
        if Covered(b[1..], u) { CoveredFrom(b[1..], u); }
      }
      Canonical(a[1..], b[1..]);
      assert a == [a[0]] + a[1..] && b == [b[0]] + b[1..];
    }
  }

  lemma SameFirst(a: seq<Block>, b: seq<Block>)
    requires BlocksOk(a) && BlocksOk(b) && a != [] && b != [] && forall u: nat :: Covered(a, u) <==> Covered(b, u)
    ensures a[0] == b[0]
  {
    assert Covers(a[0], a[0].addr) && Covers(b[0], b[0].addr);
    assert Covered(b, a[0].addr) && Covered(a, b[0].addr);
    CoveredFrom(b, a[0].addr);
    CoveredFrom(a, b[0].addr);
    if a[0].size < b[0].size {
      assert Covers(b[0], a[0].addr + a[0].size);
      CoveredFrom(a, a[0].addr + a[0].size);
    } else if b[0].size < a[0].size {
      assert Covers(a[0], b[0].addr + b[0].size);
      CoveredFrom(b, b[0].addr + b[0].size);
    }
  }

  // ---------- free: put a block back ----------

  /** How many blocks lie below address `a`. */
  function Place(bs: seq<Block>, a: nat): (j: nat)
    ensures j <= |bs| && (forall i :: 0 <= i < j ==> bs[i].addr < a) && (j < |bs| ==> bs[j].addr >= a)
  {
    if bs == [] || bs[0].addr >= a then 0
    else
      var j := Place(bs[1..], a) + 1;
      assert forall i :: 0 < i < j ==> bs[i] == bs[1..][i - 1];
      j
  }

  /** Join the block with the next one if they touch, then with the previous one. */
  function Insert(bs: seq<Block>, a: nat, n: nat): seq<Block> {
    var j := Place(bs, a);
    var joinsNext := j < |bs| && a + n == bs[j].addr;
    var size := if joinsNext then n + bs[j].size else n;
    var rest := if joinsNext then bs[j + 1..] else bs[j..];
    if j > 0 && bs[j - 1].addr + bs[j - 1].size == a then
      bs[..j - 1] + [Block(bs[j - 1].addr, bs[j - 1].size + size)] + rest
    else
      bs[..j] + [Block(a, size)] + rest
  }

  /** No unit of [a, a + n) is free. */
  ghost predicate Disjoint(bs: seq<Block>, a: nat, n: nat) {
    forall u: nat :: a <= u < a + n ==> !Covered(bs, u)
  }

  lemma PlaceBounds(bs: seq<Block>, a: nat, n: nat)
    requires BlocksOk(bs) && n > 0 && Disjoint(bs, a, n)
    ensures var j := Place(bs, a);
            && (j > 0 ==> bs[j - 1].addr + bs[j - 1].size <= a)
            && (j < |bs| ==> a + n <= bs[j].addr)
  {
    var j := Place(bs, a);
    assert j > 0 && Covers(bs[j - 1], a) ==> Covered(bs, a);
    assert j < |bs| ==> Covers(bs[j], bs[j].addr) && Covered(bs, bs[j].addr);
  }

  lemma CoveredConcat(x: seq<Block>, y: seq<Block>, u: nat)
    ensures Covered(x + y, u) <==> Covered(x, u) || Covered(y, u)
  {
    if Covered(x, u) {
      var i :| 0 <= i < |x| && Covers(x[i], u);
      assert Covers((x + y)[i], u);
    }
    if Covered(y, u) {
      var i :| 0 <= i < |y| && Covers(y[i], u);
      assert Covers((x + y)[|x| + i], u);
    }
    if Covered(x + y, u) {
      var i :| 0 <= i < |x + y| && Covers((x + y)[i], u);
      assert if i < |x| then Covers(x[i], u) else Covers(y[i - |x|], u);
    }
  }

  /** Neighbours leave a gap. */
  lemma Gap(bs: seq<Block>, i: nat, j: nat)
    requires BlocksOk(bs) && i < j < |bs|
    ensures bs[i].addr + bs[i].size < bs[j].addr && bs[j].size > 0
  {
  }

  /** A list with one block in the middle. */
  lemma SpliceOk(x: seq<Block>, b: Block, y: seq<Block>)
    requires BlocksOk(x) && BlocksOk(y) && b.size > 0
    requires x != [] ==> x[|x| - 1].addr + x[|x| - 1].size < b.addr
    requires y != [] ==> b.addr + b.size < y[0].addr
    ensures BlocksOk(x + [b] + y)
  {
    var s := x + [b] + y;
    forall i | 0 <= i < |s| ensures s[i].size > 0 {
      SplicedAt(x, b, y, i);
    }
    forall i, j | 0 <= i < j < |s| ensures s[i].addr + s[i].size < s[j].addr {
      SplicedPair(x, b, y, i, j);
    }
  }

  lemma SplicedAt(x: seq<Block>, b: Block, y: seq<Block>, i: nat)
    requires i < |x| + 1 + |y|
    ensures (x + [b] + y)[i] == if i < |x| then x[i] else if i == |x| then b else y[i - |x| - 1]
  {
  }

  lemma SplicedPair(x: seq<Block>, b: Block, y: seq<Block>, i: nat, j: nat)
    requires BlocksOk(x) && BlocksOk(y) && b.size > 0 && i < j < |x| + 1 + |y|
    requires x != [] ==> x[|x| - 1].addr + x[|x| - 1].size < b.addr
    requires y != [] ==> b.addr + b.size < y[0].addr
    ensures (x + [b] + y)[i].addr + (x + [b] + y)[i].size < (x + [b] + y)[j].addr
  {
    hide BlocksOk;
    SplicedAt(x, b, y, i);
    SplicedAt(x, b, y, j);
    if i < |x| - 1 { Gap(x, i, |x| - 1); }
    if j > |x| + 1 { Gap(y, 0, j - |x| - 1); }
    if j < |x| { Gap(x, i, j); }
    if i > |x| { Gap(y, i - |x| - 1, j - |x| - 1); }
  }

  lemma SpliceCovers(x: seq<Block>, b: Block, y: seq<Block>, u: nat)
    ensures Covered(x + [b] + y, u) <==> Covered(x, u) || Covers(b, u) || Covered(y, u)
  {
    CoveredConcat(x + [b], y, u);
    CoveredConcat(x, [b], u);
    assert Covered([b], u) <==> Covers([b][0], u);
  }

  lemma Parts(bs: seq<Block>, i: nat)
    requires BlocksOk(bs) && i <= |bs|
    ensures BlocksOk(bs[..i]) && BlocksOk(bs[i..])
  {
  }

  lemma PartsCover(bs: seq<Block>, i: nat, u: nat)
    requires i <= |bs|
    ensures Covered(bs, u) <==> Covered(bs[..i], u) || Covered(bs[i..], u)
  {
    CoveredConcat(bs[..i], bs[i..], u);
    assert bs == bs[..i] + bs[i..];
  }

  /** The result is in order ... */
  lemma InsertIsOk(bs: seq<Block>, a: nat, n: nat)
    requires BlocksOk(bs) && n > 0 && Disjoint(bs, a, n)
    ensures BlocksOk(Insert(bs, a, n))
  {
    hide BlocksOk, Covered, Disjoint, Insert, Place;
    var lo, hi, b := InsertParts(bs, a, n);
    InsertGaps(bs, a, n, lo, hi, b);
    Parts(bs, lo);
    Parts(bs, hi);
    SpliceOk(bs[..lo], b, bs[hi..]);
  }

  /** The block put in touches neither of its new neighbours. */
  lemma InsertGaps(bs: seq<Block>, a: nat, n: nat, lo: nat, hi: nat, b: Block)
    requires BlocksOk(bs) && n > 0 && Disjoint(bs, a, n)
    requires var j := Place(bs, a);
             && lo <= j <= hi <= |bs| && j <= lo + 1 && hi <= j + 1
             && (lo < j <==> j > 0 && bs[j - 1].addr + bs[j - 1].size == a)
             && (hi > j <==> j < |bs| && a + n == bs[j].addr)
             && b.addr == (if lo < j then bs[lo].addr else a)
             && b.addr + b.size == (if hi > j then a + n + bs[hi - 1].size else a + n)
    ensures b.size > 0
    ensures lo > 0 ==> bs[lo - 1].addr + bs[lo - 1].size < b.addr
    ensures hi < |bs| ==> b.addr + b.size < bs[hi].addr
  {
    hide BlocksOk, Covered, Disjoint, Place;
    PlaceBounds(bs, a, n);
    var j := Place(bs, a);
    if 1 < j { Gap(bs, j - 2, j - 1); }
    if j + 1 < |bs| { Gap(bs, j, j + 1); }
  }

  /** ... and its units are the old ones and the block's. */
  lemma InsertCovers(bs: seq<Block>, a: nat, n: nat, u: nat)
    requires BlocksOk(bs) && n > 0 && Disjoint(bs, a, n)
    ensures Covered(Insert(bs, a, n), u) <==> Covered(bs, u) || a <= u < a + n
  {
    hide BlocksOk, Covered, Disjoint;
    PlaceBounds(bs, a, n);
    var j := Place(bs, a);
    var lo, hi, b := InsertParts(bs, a, n);
    PartsCover(bs, lo, u);
    MiddleUnits(bs, lo, j, u);
    MiddleUnits(bs, j, hi, u);
    SpliceCovers(bs[..lo], b, bs[hi..], u);
  }

  /** Insert keeps a prefix and a suffix and puts one block between them. */
  lemma InsertParts(bs: seq<Block>, a: nat, n: nat) returns (lo: nat, hi: nat, b: Block)
    ensures var j := Place(bs, a); lo <= j <= hi <= |bs| && j <= lo + 1 && hi <= j + 1
    ensures lo < Place(bs, a) <==> Place(bs, a) > 0 && bs[Place(bs, a) - 1].addr + bs[Place(bs, a) - 1].size == a
    ensures hi > Place(bs, a) <==> Place(bs, a) < |bs| && a + n == bs[Place(bs, a)].addr
    ensures b.addr == if lo < Place(bs, a) then bs[lo].addr else a
    ensures b.addr + b.size == if hi > Place(bs, a) then a + n + bs[hi - 1].size else a + n
    ensures Insert(bs, a, n) == bs[..lo] + [b] + bs[hi..]
  {
    var j := Place(bs, a);
    var joinsNext := j < |bs| && a + n == bs[j].addr;
    var joinsPrev := j > 0 && bs[j - 1].addr + bs[j - 1].size == a;
    var size := if joinsNext then n + bs[j].size else n;
    lo, hi := if joinsPrev then j - 1 else j, if joinsNext then j + 1 else j;
    b := if joinsPrev then Block(bs[j - 1].addr, bs[j - 1].size + size) else Block(a, size);
  }

  /** Between two cuts at most one apart lies at most one block. */
  lemma MiddleUnits(bs: seq<Block>, lo: nat, hi: nat, u: nat)
    requires lo <= hi <= |bs| && hi <= lo + 1
    ensures Covered(bs[lo..], u) <==> (lo < hi && Covers(bs[lo], u)) || Covered(bs[hi..], u)
  {
    if lo < hi {
      CoveredTail(bs[lo..], u);
      assert bs[lo..][1..] == bs[hi..];
    }
  }

  // ---------- malloc: take a block out ----------

  /** `n` units from the tail of block `c`, or the whole block. */
  function Take(bs: seq<Block>, c: nat, n: nat): seq<Block>
    requires c < |bs| && n <= bs[c].size
  {
    if bs[c].size == n then bs[..c] + bs[c + 1..]
    else bs[..c] + [Block(bs[c].addr, bs[c].size - n)] + bs[c + 1..]
  }

  function TakenAddr(bs: seq<Block>, c: nat, n: nat): nat
    requires c < |bs| && n <= bs[c].size
  {
    bs[c].addr + bs[c].size - n
  }

  lemma TakeIsOk(bs: seq<Block>, c: nat, n: nat)
    requires BlocksOk(bs) && c < |bs| && 0 < n <= bs[c].size
    ensures BlocksOk(Take(bs, c, n))
  {
    hide BlocksOk;
    Parts(bs, c);
    Parts(bs, c + 1);
    if c > 0 { Gap(bs, c - 1, c); }
    if c + 1 < |bs| { Gap(bs, c, c + 1); }
    if bs[c].size != n {
      SpliceOk(bs[..c], Block(bs[c].addr, bs[c].size - n), bs[c + 1..]);
    } else {
      DropOk(bs, c);
    }
  }

  lemma DropOk(bs: seq<Block>, c: nat)
    requires BlocksOk(bs) && c < |bs|
    ensures BlocksOk(bs[..c] + bs[c + 1..])
  {
    var t := bs[..c] + bs[c + 1..];
    assert |t| == |bs| - 1;
    forall i | 0 <= i < |t| ensures t[i] == bs[if i < c then i else i + 1] {}
  }

  /** What is taken was free, and everything else stays free. */
  lemma TakeCovers(bs: seq<Block>, c: nat, n: nat, u: nat)
    requires BlocksOk(bs) && c < |bs| && 0 < n <= bs[c].size
    ensures var taken := Block(TakenAddr(bs, c, n), n);
            && (Covered(Take(bs, c, n), u) <==> Covered(bs, u) && !Covers(taken, u))
            && (Covers(taken, u) ==> Covered(bs, u))
  {
    PartsCover(bs, c, u);
    MiddleUnits(bs, c, c + 1, u);
    if Covers(bs[c], u) { OthersApart(bs, c, u); }
    hide BlocksOk, Covered;
    if bs[c].size == n {
      CoveredConcat(bs[..c], bs[c + 1..], u);
    } else {
      SpliceCovers(bs[..c], Block(bs[c].addr, bs[c].size - n), bs[c + 1..], u);
    }
  }

  lemma OthersApart(bs: seq<Block>, c: nat, u: nat)
    requires BlocksOk(bs) && c < |bs| && Covers(bs[c], u)
    ensures !Covered(bs[..c], u) && !Covered(bs[c + 1..], u)
  {
    forall i | 0 <= i < c ensures !Covers(bs[..c][i], u) {
      Gap(bs, i, c);
    }
    var rest := bs[c + 1..];
    forall i | 0 <= i < |rest| ensures !Covers(rest[i], u) {
      Gap(bs, c, c + 1 + i);
    }
  }

  /**
   Giving a block back restores the free list malloc took it from, block for block,
   whichever branch malloc used.
   */
  lemma FreeUndoesMalloc(bs: seq<Block>, c: nat, n: nat)
    requires BlocksOk(bs) && c < |bs| && 0 < n <= bs[c].size
    ensures Insert(Take(bs, c, n), TakenAddr(bs, c, n), n) == bs
  {
    hide BlocksOk, Covered, Take, Insert;
    var t, a := Take(bs, c, n), TakenAddr(bs, c, n);
    TakeIsOk(bs, c, n);
    forall u: nat ensures Covered(t, u) <==> Covered(bs, u) && !(a <= u < a + n) {
      TakeCovers(bs, c, n, u);
    }
    InsertIsOk(t, a, n);
    forall u: nat ensures Covered(Insert(t, a, n), u) <==> Covered(bs, u) {
      InsertCovers(t, a, n, u);
      TakeCovers(bs, c, n, u);
    }
    Canonical(Insert(t, a, n), bs);
  }

  // ---------- Free, live and granted units ----------

  /** The units [a, a + n). */
  function Range(a: nat, n: nat): (r: set<nat>)
    ensures forall u: nat :: u in r <==> a <= u < a + n
  {
    if n == 0 then {} else Range(a, n - 1) + {a + n - 1}
  }

  ghost predicate InLive(live: map<nat, nat>, u: nat) {
    exists a :: a in live && a <= u < a + live[a]
  }

  /** Every unit obtained from the kernel is in exactly one free or live block. */
  ghost predicate UnitOk(bs: seq<Block>, live: map<nat, nat>, granted: set<nat>, u: nat) {
    && (u in granted <==> Covered(bs, u) || InLive(live, u))
    && !(Covered(bs, u) && InLive(live, u))
  }

  ghost predicate LiveOk(live: map<nat, nat>) {
    && (forall a :: a in live ==> live[a] > 0)
    && (forall a, b :: a in live && b in live && a < b ==> a + live[a] <= b)
  }

  ghost predicate HeapOk(bs: seq<Block>, live: map<nat, nat>, granted: set<nat>) {
    BlocksOk(bs) && LiveOk(live) && forall u: nat :: UnitOk(bs, live, granted, u)
  }

  lemma UnitsOfLive(live: map<nat, nat>, b: nat)
    requires b in live
    ensures forall u: nat :: b <= u < b + live[b] ==> InLive(live, u)
  {
  }

  /** A live block and a range without live units lie apart. */
  lemma LiveApart(live: map<nat, nat>, b: nat, a: nat, n: nat)
    requires b in live && live[b] > 0 && n > 0 && forall u: nat :: a <= u < a + n ==> !InLive(live, u)
    ensures b + live[b] <= a || a + n <= b
  {
    var u := if b < a then a else b;
    UnitsOfLive(live, b);
    assert InLive(live, u) || !(b <= u < b + live[b]);
  }

  lemma LiveIsNotFree(bs: seq<Block>, live: map<nat, nat>, granted: set<nat>, a: nat)
    requires HeapOk(bs, live, granted) && a in live
    ensures Disjoint(bs, a, live[a])
    ensures forall u: nat :: a <= u < a + live[a] ==> u in granted
  {
    forall u: nat | a <= u < a + live[a] ensures !Covered(bs, u) && u in granted {
      assert UnitOk(bs, live, granted, u) && InLive(live, u);
    }
  }

  /** free moves a live block to the free list. */
  lemma FreeKeepsHeap(bs: seq<Block>, live: map<nat, nat>, granted: set<nat>, a: nat)
    requires HeapOk(bs, live, granted) && a in live
    ensures HeapOk(Insert(bs, a, live[a]), live - {a}, granted)
  {
    hide BlocksOk, Covered, Insert;
    LiveIsNotFree(bs, live, granted, a);
    var n, live' := live[a], live - {a};
    InsertIsOk(bs, a, n);
    forall u: nat ensures UnitOk(Insert(bs, a, n), live', granted, u) {
      assert UnitOk(bs, live, granted, u);
      InsertCovers(bs, a, n, u);
      if InLive(live, u) && !(a <= u < a + n) {
        var b :| b in live && b <= u < b + live[b];
        assert b in live';
      }
    }
  }

  /** A region fresh from the kernel joins the free list. */
  lemma GrantKeepsHeap(bs: seq<Block>, live: map<nat, nat>, granted: set<nat>, a: nat, n: nat)
    requires HeapOk(bs, live, granted) && n > 0 && Range(a, n) !! granted
    ensures Disjoint(bs, a, n)
    ensures HeapOk(Insert(bs, a, n), live, granted + Range(a, n))
  {
    hide BlocksOk, Covered, Insert;
    forall u: nat | a <= u < a + n ensures !Covered(bs, u) && !InLive(live, u) {
      assert u in Range(a, n) && UnitOk(bs, live, granted, u);
    }
    InsertIsOk(bs, a, n);
    var granted' := granted + Range(a, n);
    forall u: nat ensures UnitOk(Insert(bs, a, n), live, granted', u) {
      assert UnitOk(bs, live, granted, u);
      InsertCovers(bs, a, n, u);
    }
  }

  /** malloc moves units from the free list to a live block of exactly that size. */
  lemma TakeKeepsHeap(bs: seq<Block>, live: map<nat, nat>, granted: set<nat>, c: nat, n: nat)
    requires HeapOk(bs, live, granted) && c < |bs| && 0 < n <= bs[c].size
    ensures TakenAddr(bs, c, n) !in live
    ensures HeapOk(Take(bs, c, n), live[TakenAddr(bs, c, n) := n], granted)
  {
    hide BlocksOk, Covered, Take;
    var a := TakenAddr(bs, c, n);
    var live' := live[a := n];
    TakeIsOk(bs, c, n);
    forall u: nat | a <= u < a + n ensures !InLive(live, u) {
      TakeCovers(bs, c, n, u);
      assert UnitOk(bs, live, granted, u);
    }
    forall b | b in live ensures b + live[b] <= a || a + n <= b {
      LiveApart(live, b, a, n);
    }
    forall u: nat ensures UnitOk(Take(bs, c, n), live', granted, u) {
      assert UnitOk(bs, live, granted, u);
      TakeCovers(bs, c, n, u);
      if InLive(live, u) {
        var b :| b in live && b <= u < b + live[b];
        assert b in live' && live'[b] == live[b];
      }
      if a <= u < a + n {
        assert a in live';
      }
    }
  }

  /** What is live and what was granted determine the free list, block for block. */
  lemma ListIsDetermined(a: seq<Block>, b: seq<Block>, live: map<nat, nat>, granted: set<nat>)
    requires HeapOk(a, live, granted) && HeapOk(b, live, granted)
    ensures a == b
  {
    hide BlocksOk, Covered, InLive;
    forall u: nat ensures Covered(a, u) <==> Covered(b, u) {
      assert UnitOk(a, live, granted, u) && UnitOk(b, live, granted, u);
    }
    Canonical(a, b);
  }
}
