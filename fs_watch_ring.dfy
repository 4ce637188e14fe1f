/**
 * The intrusive circular doubly-linked lists of sfl_fs_watch.h
 * (SflFsWatchListNode). A ring is described by the ghost sequence of its
 * nodes in `next` order, starting at the node used as its head.
 */
module FsWatchRing {

  class ListNode {
    var next: ListNode?
    var prev: ListNode?

    /** A node that is not yet on any ring. */
    constructor ()
      ensures next == null && prev == null
    {
      next, prev := null, null;
    }

    /** sfl_fs_watch_list_node_init: the node becomes a ring of itself. */
    method Init()
      modifies this
      ensures IsRing([this])
    {
      next := this;
      prev := this;
    }
  }

  /**
   * `r` lists the nodes of one ring in `next` order: its nodes are distinct,
   * each one's `next` is its successor (the last one's is the first) and each
   * one's `prev` is its predecessor.
   */
  ghost predicate IsRing(r: seq<ListNode>)
    reads set n | n in r
  {
    && |r| > 0
    && (forall i, j :: 0 <= i < j < |r| ==> r[i] != r[j])
    && (forall i :: 0 <= i < |r| - 1 ==> r[i].next == r[i + 1])
    && (forall i :: 0 < i < |r| ==> r[i].prev == r[i - 1])
    && r[|r| - 1].next == r[0]
    && r[0].prev == r[|r| - 1]
  }

  /** On a ring, prev undoes next and next undoes prev, at every node. */
  lemma RingLinksAgree(r: seq<ListNode>, i: nat)
    requires IsRing(r) && i < |r|
    ensures r[i].next != null && r[i].next.prev == r[i]
    ensures r[i].prev != null && r[i].prev.next == r[i]
  {
    if i < |r| - 1 {
      assert r[i + 1].prev == r[i];
    }
    if 0 < i {
      assert r[i - 1].next == r[i];
    }
  }

  /**
   * sfl_fs_watch_list_node_add: put `entry` between the adjacent nodes `prev`
   * and `next`. The entry must not already be one of the two.
   */
  method Add(entry: ListNode, prev: ListNode, next: ListNode)
    requires entry != prev && entry != next
    modifies entry, prev, next
    ensures next.prev == entry && entry.next == next
    ensures entry.prev == prev && prev.next == entry
    ensures prev != next ==> prev.prev == old(prev.prev) && next.next == old(next.next)
  {
    next.prev := entry;
    entry.next := next;
    entry.prev := prev;
    prev.next := entry;
  }

  /**
   * sfl_fs_watch_list_node_append: insert `newNode` just before `node`. For
   * the ring that starts at `node` this makes `newNode` its last member,
   * with the others keeping their order.
   */
  method Append(node: ListNode, newNode: ListNode, ghost r: seq<ListNode>)
    requires IsRing(r) && r[0] == node && newNode !in r
    modifies node, node.prev, newNode
    ensures IsRing(r + [newNode])
  {
    ghost var last := r[|r| - 1];
    Add(newNode, node.prev, node);
    ghost var r' := r + [newNode];
    assert forall i :: 0 < i < |r| - 1 ==> r[i].next == old(r[i].next) && r[i].prev == old(r[i].prev);
    assert r'[|r'| - 1] == newNode;
    if |r| > 1 {
      assert r[1].prev == node;
      assert last.prev == r[|r| - 2];
    }
  }

  /**
   * sfl_fs_watch_list_node_link: splice the ring starting at `head2` after
   * the last node of the ring starting at `head1`.
   */
  method Link(head1: ListNode, head2: ListNode, ghost r1: seq<ListNode>, ghost r2: seq<ListNode>)
    requires IsRing(r1) && IsRing(r2) && r1[0] == head1 && r2[0] == head2
    requires forall i, j :: 0 <= i < |r1| && 0 <= j < |r2| ==> r1[i] != r2[j]
    modifies head1, head1.prev, head2, head2.prev
    ensures IsRing(r1 + r2)
  {
    var last1 := head1.prev;
    var last2 := head2.prev;
    last1.next := head2;
    head2.prev := last1;
    last2.next := head1;
    head1.prev := last2;
  }
}
