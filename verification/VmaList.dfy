/**
 A task's memory areas as the linked list they are, and the copy fork makes of it.
 */
module VmaList {
  import opened Fault

  class VmaNode {
    var beginAddress: nat
    var lastAddress: nat
    var next: VmaNode?

    constructor (begin: nat, last: nat, n: VmaNode?)
      ensures beginAddress == begin && lastAddress == last && next == n
    {
      beginAddress, lastAddress, next := begin, last, n;
    }
  }

  /** Following `next` from `head` visits exactly `nodes` and ends in NULL. */
  ghost predicate Chain(head: VmaNode?, nodes: seq<VmaNode>)
    reads nodes
  {
    head == NodeOrNull(nodes, 0) && forall i :: 0 <= i < |nodes| ==> nodes[i].next == NodeOrNull(nodes, i + 1)
  }

  /** The areas in list order. */
  ghost function Areas(nodes: seq<VmaNode>): (vm: seq<Vma>)
    reads nodes
    ensures |vm| == |nodes|
    ensures forall i :: 0 <= i < |nodes| ==> vm[i] == Vma(nodes[i].beginAddress, nodes[i].lastAddress)
  {
    if nodes == [] then [] else [Vma(nodes[0].beginAddress, nodes[0].lastAddress)] + Areas(nodes[1..])
  }

  /**
   copyVMA: the child's list is made of new nodes only, in the parent's order, and the
   parent's list is untouched.  memcpy copies `next` as well; the following turn of the
   loop, or the NULL at the end, puts it right.
   */
  method CopyVMA(vm: VmaNode?, ghost nodes: seq<VmaNode>) returns (copy: VmaNode?, ghost copies: seq<VmaNode>)
    requires Chain(vm, nodes)
    ensures Chain(copy, copies) && Areas(copies) == Areas(nodes)
    ensures forall c :: c in copies ==> fresh(c)
  {
    hide Areas, Copied;
    var a, p: VmaNode? := vm, null;
    copy, copies := null, [];
    NothingCopied(vm, nodes);
    while a != null
      invariant Chain(vm, nodes) && Copied(nodes, copies, a, p) && |copies| <= |nodes| && copy == NodeOrNull(copies, 0)
      invariant forall c :: c in copies ==> fresh(c)
      invariant p == null || p in copies
      invariant p == null <==> copies == []
      decreases |nodes| - |copies|
    {
      var duplicate := CopyNode(a, p, vm, nodes, copies);
      if p == null {
        copy := duplicate;
      }
      p := duplicate;
      copies := copies + [duplicate];
      a := a.next;
    }
    AllCopied(vm, nodes, copies, p, copy);
  }

  ghost function NodeOrNull(nodes: seq<VmaNode>, i: nat): VmaNode? {
    if i < |nodes| then nodes[i] else null
  }

  /** The node behind node `i` of a list that goes on with `rest`. */
  ghost function Behind(nodes: seq<VmaNode>, i: nat, rest: VmaNode?): VmaNode? {
    if i + 1 < |nodes| then nodes[i + 1] else rest
  }

  ghost predicate SameArea(a: VmaNode, b: VmaNode)
    reads a, b
  {
    a.beginAddress == b.beginAddress && a.lastAddress == b.lastAddress
  }

  /** `copies` are copies of the first nodes, `p` the last of them, and `a` the node copied next. */
  ghost predicate Copied(nodes: seq<VmaNode>, copies: seq<VmaNode>, a: VmaNode?, p: VmaNode?)
    reads nodes, copies
  {
    && |copies| <= |nodes| && a == NodeOrNull(nodes, |copies|)
    && p == (if copies == [] then null else copies[|copies| - 1])
    && (forall c :: c in copies ==> c !in nodes)
    && Distinct(copies)
    && (forall i :: 0 <= i < |copies| ==> CopyOk(nodes, copies, a, i))
  }

  ghost predicate Distinct(copies: seq<VmaNode>) {
    forall i, j :: 0 <= i < j < |copies| ==> copies[i] != copies[j]
  }

  /** Copy `i` has the area of node `i` and is linked to the next copy, the last one to node `a`. */
  ghost predicate CopyOk(nodes: seq<VmaNode>, copies: seq<VmaNode>, a: VmaNode?, i: nat)
    requires i < |copies| <= |nodes|
    reads nodes, copies
  {
    SameArea(copies[i], nodes[i]) && copies[i].next == Behind(copies, i, a)
  }

  lemma DistinctAppend(copies: seq<VmaNode>, c: VmaNode)
    requires Distinct(copies) && c !in copies
    ensures Distinct(copies + [c])
  {
  }

  lemma DistinctLast(copies: seq<VmaNode>, i: nat)
    requires Distinct(copies) && i < |copies| - 1
    ensures copies[i] != copies[|copies| - 1]
  {
  }

  lemma NothingCopied(vm: VmaNode?, nodes: seq<VmaNode>)
    requires Chain(vm, nodes)
    ensures Copied(nodes, [], vm, null)
  {
  }

  lemma AllCopied(vm: VmaNode?, nodes: seq<VmaNode>, copies: seq<VmaNode>, p: VmaNode?, copy: VmaNode?)
    requires Chain(vm, nodes) && Copied(nodes, copies, null, p) && copy == NodeOrNull(copies, 0)
    ensures Chain(copy, copies) && Areas(copies) == Areas(nodes)
  {
    hide Areas, Distinct;
    assert |copies| == |nodes|;
    forall i | 0 <= i < |copies|
      ensures copies[i].next == NodeOrNull(copies, i + 1) && Areas(copies)[i] == Areas(nodes)[i]
    {
      assert CopyOk(nodes, copies, null, i);
    }
  }

  /** One node, linked behind `p` unless it is the first. */
  method CopyNode(a: VmaNode, p: VmaNode?, ghost vm: VmaNode?, ghost nodes: seq<VmaNode>, ghost copies: seq<VmaNode>)
    returns (duplicate: VmaNode)
    requires Chain(vm, nodes) && Copied(nodes, copies, a, p)
    modifies if p == null then {} else {p}
    ensures fresh(duplicate) && p !in nodes && a.next == old(a.next)
    ensures |copies| < |nodes| && Copied(nodes, copies + [duplicate], a.next, duplicate)
  {
    hide Distinct;
    ghost var n := |copies|;
    assert a == nodes[n] && a.next == NodeOrNull(nodes, n + 1);
    duplicate := new VmaNode(a.beginAddress, a.lastAddress, a.next);
    ghost var all := copies + [duplicate];
    DistinctAppend(copies, duplicate);
    assert forall i :: 0 <= i < n ==> CopyOk(nodes, copies, a, i);
    assert forall c :: c in all ==> c !in nodes;
    assert p != null ==> p in copies;
    label linking:
    if p != null {
      p.next := duplicate;
    }
    forall i | 0 <= i < |all| ensures CopyOk(nodes, all, a.next, i) {
      if i < n {
        assert old@linking(CopyOk(nodes, copies, a, i));
        if i < n - 1 { DistinctLast(copies, i); }
      }
    }
  }

  /** checkForVM on the list itself. */
  method CheckNodes(vm: VmaNode?, ghost nodes: seq<VmaNode>, cr2: nat) returns (flag: bool)
    requires Chain(vm, nodes)
    ensures flag <==> InSome(Areas(nodes), cr2)
  {
    hide Areas;
    ghost var areas := Areas(nodes);
    var a := vm;
    ghost var n := 0;
    while a != null
      invariant 0 <= n <= |nodes| && a == NodeOrNull(nodes, n)
      invariant forall i :: 0 <= i < n ==> !(areas[i].beginAddress < cr2 < areas[i].lastAddress)
      decreases |nodes| - n
    {
      assert areas[n] == Vma(a.beginAddress, a.lastAddress) && a.next == NodeOrNull(nodes, n + 1);
      if a.beginAddress < cr2 && a.lastAddress > cr2 { return true; }
      a, n := a.next, n + 1;
    }
    return false;
  }
}
