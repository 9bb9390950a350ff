/**
 What cloning or clearing a part of a page-table tree means for the flat map, and how
 one more slot of a table adds to it.
 */
module TreeCopy {
  import opened PageModel

  /** Mappings below slots [0, n) of table `p`. */
  predicate Below(p: Pos, n: nat, k: Pos) {
    0 <= Via(p, k) < n
  }

  /** `k` is the child's copy of a mapping below slots [0, n) of `p`. */
  predicate IsClone(m: map<Pos, Entry>, p: Pos, c: Frame, n: nat, k: Pos) {
    var source := Retarget(k, RootOf(p));
    RootOf(k) == c && source in m && Below(p, n, source)
  }

  /**
   The mappings below slots [0, n) of `p` have been cloned into the tree of `c`: parent
   and child both hold the tagged entry, and nothing else has changed.
   */
  ghost predicate Cloned(m: map<Pos, Entry>, m': map<Pos, Entry>, p: Pos, c: Frame, n: nat) {
    forall k :: ClonedAt(m, m', p, c, n, k)
  }

  predicate ClonedAt(m: map<Pos, Entry>, m': map<Pos, Entry>, p: Pos, c: Frame, n: nat, k: Pos) {
    && (k in m' <==> k in m || IsClone(m, p, c, n, k))
    && (k in m' ==>
          m'[k] == if k in m then (if Below(p, n, k) then CowTag(m[k]) else m[k])
                   else CowTag(m[Retarget(k, RootOf(p))]))
  }

  lemma ClonedNothing(m: map<Pos, Entry>, p: Pos, c: Frame)
    ensures Cloned(m, m, p, c, 0)
  {
  }

  lemma ClonedKeeps(m: map<Pos, Entry>, m': map<Pos, Entry>, p: Pos, c: Frame, n: nat, k: Pos)
    requires Cloned(m, m', p, c, n)
    ensures k in m ==> k in m'
  {
    assert ClonedAt(m, m', p, c, n, k);
  }

  /** A slot with nothing below it adds nothing. */
  lemma ClonedSkip(m: map<Pos, Entry>, m': map<Pos, Entry>, p: Pos, c: Frame, n: nat)
    requires Cloned(m, m', p, c, n) && forall k :: k in m ==> Via(p, k) != n
    ensures Cloned(m, m', p, c, n + 1)
  {
    var n1 := n + 1;
    forall k ensures ClonedAt(m, m', p, c, n1, k) {
      assert ClonedAt(m, m', p, c, n, k);
    }
  }

  /** One entry of a last-level table. */
  lemma ClonedEntry(m: map<Pos, Entry>, m': map<Pos, Entry>, p: Pos, c: Frame, n: nat, k: Pos)
    requires Cloned(m, m', p, c, n) && RootOf(p) != c
    requires k in m' && Via(p, k) == n && Retarget(k, c) !in m
    requires forall j :: j in m && Via(p, j) == n ==> j == k
    ensures k in m
    ensures Cloned(m, m'[k := CowTag(m'[k])][Retarget(k, c) := CowTag(m'[k])], p, c, n + 1)
  {
    ViaIsBelow(p, k);
    assert ClonedAt(m, m', p, c, n, k);
    var m2 := m'[k := CowTag(m'[k])][Retarget(k, c) := CowTag(m'[k])];
    var n1 := n + 1;
    forall j ensures ClonedAt(m, m2, p, c, n1, j) {
      assert ClonedAt(m, m', p, c, n, j);
      RetargetBack(k, c);
      RetargetBack(j, RootOf(p));
    }
  }

  /** One whole table below slot `n`. */
  lemma ClonedTable(m: map<Pos, Entry>, m1: map<Pos, Entry>, m2: map<Pos, Entry>, p: Pos, c: Frame, n: nat)
    requires Cloned(m, m1, p, c, n) && Cloned(m1, m2, Sub(p, n), c, 512) && RootOf(p) != c
    requires Sub(p, n) !in m && forall k :: k in m1 ==> Via(Sub(p, n), k) < 512
    ensures Cloned(m, m2, p, c, n + 1)
  {
    var n1 := n + 1;
    forall k ensures ClonedAt(m, m2, p, c, n1, k) {
      var source := Retarget(k, RootOf(p));
      assert ClonedAt(m, m1, p, c, n, k) && ClonedAt(m1, m2, Sub(p, n), c, 512, k);
      assert ClonedAt(m, m1, p, c, n, source);
      ViaSplit(p, n, k);
      ViaSplit(p, n, source);
      ViaIsBelow(p, k);
      hide Via, Retarget, Depth;
    }
  }

  /** The mappings below slots [0, n) of `p` have gone. */
  function Pruned<T>(m: map<Pos, T>, p: Pos, n: nat): map<Pos, T> {
    map k | k in m && !Below(p, n, k) :: m[k]
  }

  lemma PrunedNothing<T>(m: map<Pos, T>, p: Pos)
    ensures Pruned(m, p, 0) == m
  {
  }

  /** Dropping the entry in slot `n` itself, when nothing lies below it. */
  lemma PrunedEntry<T>(m: map<Pos, T>, p: Pos, n: nat)
    requires forall k :: k in m && Via(p, k) == n ==> k == Sub(p, n)
    ensures Pruned(m, p, n + 1) == Pruned(m, p, n) - {Sub(p, n)}
  {
    assert Via(p, Sub(p, n)) == n;
    hide Via;
  }

  /** Clearing the table below slot `n` and then its slot. */
  lemma PrunedTable<T>(m: map<Pos, T>, p: Pos, n: nat)
    requires forall k :: k in m ==> Via(Sub(p, n), k) < 512
    ensures Pruned(m, p, n + 1) == Pruned(Pruned(m, p, n), Sub(p, n), 512) - {Sub(p, n)}
  {
    assert Via(p, Sub(p, n)) == n;
    forall k ensures Via(Sub(p, n), k) >= 0 <==> Via(p, k) == n && k != Sub(p, n) {
      ViaSplit(p, n, k);
    }
    hide Via;
  }

  /** Nothing below `q`, nothing pruned. */
  lemma PrunedNone<T>(m: map<Pos, T>, q: Pos, n: nat)
    requires forall k :: k in m ==> Via(q, k) < 0
    ensures Pruned(m, q, n) == m
  {
    hide Via;
  }

  lemma PrunedAll<T>(m: map<Pos, T>, q: Pos, n: nat)
    requires forall k :: k in m ==> Via(q, k) < n
    ensures forall k :: k in Pruned(m, q, n) ==> Via(q, k) < 0
  {
    hide Via;
  }

  /** Pruning below `p` keeps `p`. */
  lemma PrunedKeepsTop<T>(m: map<Pos, T>, p: Pos, n: nat)
    requires p in m
    ensures p in Pruned(m, p, n) && Pruned(m, p, n)[p] == m[p]
  {
    ViaIsBelow(p, p);
  }

  lemma PrunedKeeps<T>(m: map<Pos, T>, q: Pos, n: nat, k: Pos)
    requires k in m && Via(q, k) < 0
    ensures k in Pruned(m, q, n) && Pruned(m, q, n)[k] == m[k]
  {
  }
}
