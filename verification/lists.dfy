/** The intrusive circular doubly linked list: a head and its members form one ring. */
module RtList {
  import opened Sequences

  class ListNode {
    var next: ListNode
    var prev: ListNode

    constructor ()
      ensures next == this && prev == this
    {
      next := this;
      prev := this;
    }
  }

  /** The member that follows position i; the last one is followed by the head at position 0. */
  function After<T>(r: seq<T>, i: nat): T
    requires i < |r|
  {
    if i + 1 < |r| then r[i + 1] else r[0]
  }

  /** r, from the head on, is exactly the ring that the next links walk and the prev links mirror. */
  ghost predicate Ring(r: seq<ListNode>)
    reads r
  {
    && |r| > 0
    && Distinct(r)
    && (forall i {:trigger After(r, i)} :: 0 <= i < |r| ==> r[i].next == After(r, i) && After(r, i).prev == r[i])
  }

  /** In a ring the prev link leads to the preceding position. */
  lemma RingPrev(r: seq<ListNode>, i: nat)
    requires Ring(r) && i < |r|
    ensures r[i].prev == if i > 0 then r[i - 1] else r[|r| - 1]
  {
    if i > 0 {
      assert After(r, i - 1) == r[i];
    } else {
      assert After(r, |r| - 1) == r[0];
    }
  }

  /** Inserts n right behind the member at position i; i = 0 is the head, so n becomes first. */
  method InsertAfter(l: ListNode, n: ListNode, ghost r: seq<ListNode>, ghost i: nat)
    requires Ring(r) && i < |r| && l == r[i]
    requires n !in r
    modifies l, l.next, n
    ensures Ring(Inserted(r, i + 1, n))
  {
    assert l.next == After(r, i);
    l.next.prev := n;
    n.next := l.next;
    l.next := n;
    n.prev := l;
    ghost var q := Inserted(r, i + 1, n);
    forall k | 0 <= k < |q|
      ensures q[k].next == After(q, k) && After(q, k).prev == q[k]
    {
      assert if k <= i then r[k] == q[k] && old(r[k].next) == After(r, k)
             else k > i + 1 ==> r[k - 1] == q[k] && old(r[k - 1].next) == After(r, k - 1);
    }
  }

  /** Inserts n right before the member at position i; before the head is the end of the list. */
  method InsertBefore(l: ListNode, n: ListNode, ghost r: seq<ListNode>, ghost i: nat)
    requires Ring(r) && i < |r| && l == r[i]
    requires n !in r
    modifies l, l.prev, n
    ensures Ring(Inserted(r, if i == 0 then |r| else i, n))
  {
    RingPrev(r, i);
    l.prev.next := n;
    n.prev := l.prev;
    l.prev := n;
    n.next := l;
    ghost var at := if i == 0 then |r| else i;
    ghost var q := Inserted(r, at, n);
    forall k | 0 <= k < |q|
      ensures q[k].next == After(q, k) && After(q, k).prev == q[k]
    {
      assert if k < at then r[k] == q[k] && old(r[k].next) == After(r, k)
             else k > at ==> r[k - 1] == q[k] && old(r[k - 1].next) == After(r, k - 1);
    }
  }

  /** Unlinks the member at position i, which is left linked to itself. */
  method Remove(n: ListNode, ghost r: seq<ListNode>, ghost i: nat)
    requires Ring(r) && 0 < i < |r| && n == r[i]
    modifies n, n.prev, n.next
    ensures Ring(Deleted(r, i))
    ensures Ring([n])
  {
    RingPrev(r, i);
    assert After(r, i - 1) == n && n.next == After(r, i);
    n.next.prev := n.prev;
    n.prev.next := n.next;
    n.next := n;
    n.prev := n;
    ghost var q := Deleted(r, i);
    forall k | 0 <= k < |q|
      ensures q[k].next == After(q, k) && After(q, k).prev == q[k]
    {
      assert if k < i then r[k] == q[k] && old(r[k].next) == After(r, k)
             else r[k + 1] == q[k] && old(r[k + 1].next) == After(r, k + 1);
    }
  }

  method IsEmpty(l: ListNode, ghost r: seq<ListNode>) returns (b: bool)
    requires Ring(r) && l == r[0]
    ensures b <==> |r| == 1
  {
    assert l.next == After(r, 0);
    b := l.next == l;
  }

  /** Walks the ring until it comes back to the head. */
  method Len(l: ListNode, ghost r: seq<ListNode>) returns (len: nat)
    requires Ring(r) && l == r[0]
    ensures len == |r| - 1
  {
    len := 0;
    var p := l;
    while p.next != l
      invariant len < |r| && p == r[len]
      decreases |r| - len
    {
      assert p.next == After(r, len);
      p := p.next;
      len := len + 1;
    }
    assert p.next == After(r, len);
  }
}

/** The singly linked list: a head whose next links end in null. */
module RtSlist {
  import opened Sequences

  class SlistNode {
    var next: SlistNode?
  }

  ghost predicate Chain(c: seq<SlistNode>)
    reads c
  {
    && |c| > 0
    && Distinct(c)
    && (forall i :: 0 <= i < |c| - 1 ==> c[i].next == c[i + 1])
    && c[|c| - 1].next == null
  }

  /** Walks to the tail and links n behind it. */
  method Append(l: SlistNode, n: SlistNode, ghost c: seq<SlistNode>)
    requires Chain(c) && l == c[0] && n !in c
    modifies c, n
    ensures Chain(c + [n])
  {
    var node := l;
    ghost var k := 0;
    while node.next != null
      invariant k < |c| && node == c[k]
      invariant node.next == if k + 1 < |c| then c[k + 1] else null
      decreases |c| - k
    {
      node := node.next;
      k := k + 1;
    }
    node.next := n;
    n.next := null;
  }

  method Insert(l: SlistNode, n: SlistNode, ghost c: seq<SlistNode>)
    requires Chain(c) && l == c[0] && n !in c
    modifies l, n
    ensures Chain(Inserted(c, 1, n))
  {
    n.next := l.next;
    l.next := n;
  }

  method Len(l: SlistNode, ghost c: seq<SlistNode>) returns (len: nat)
    requires Chain(c) && l == c[0]
    ensures len == |c| - 1
  {
    len := 0;
    var list := l.next;
    while list != null
      invariant len < |c| && list == (if len + 1 < |c| then c[len + 1] else null)
      decreases |c| - len
    {
      list := list.next;
      len := len + 1;
    }
  }

  /** Deletes exactly n when it follows the head somewhere, and changes nothing otherwise. */
  method Remove(l: SlistNode, n: SlistNode, ghost c: seq<SlistNode>)
    requires Chain(c) && l == c[0]
    modifies c
    ensures n in c[1..] ==> exists i :: 0 < i < |c| && c[i] == n && Chain(Deleted(c, i))
    ensures n !in c[1..] ==> Chain(c)
    ensures n in c[1..] ==> n.next == old(n.next)
    ensures n !in c[1..] ==> forall x <- c :: x.next == old(x.next)
  {
    var node := l;
    ghost var k := 0;
    while node.next != null && node.next != n
      invariant k < |c| && node == c[k]
      invariant forall j :: 0 < j <= k ==> c[j] != n
      decreases |c| - k
    {
      node := node.next;
      k := k + 1;
    }
    if node.next != null {
      node.next := node.next.next;
      assert c[k + 1] == n && Chain(Deleted(c, k + 1)) by {
        ghost var d := Deleted(c, k + 1);
        assert d[k] == c[k];
      }
    }
  }
}
