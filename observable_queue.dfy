/**
 * The doubly-linked FIFO queue: nodes linked through prev/next, with the queue holding
 * its head and tail. The published element count, updated asynchronously on the main
 * thread, is not part of this model.
 */
module ObservableQueues {
  import opened Wrappers

  class QueueNode<T> {
    var prev: QueueNode?<T>
    var next: QueueNode?<T>
    const value: T

    constructor (value: T)
      ensures this.value == value && prev == null && next == null
    {
      this.value := value;
      next := null;
      prev := null;
    }

    /**
     * insertAfter: splice n in directly after this node, before this node's old
     * successor if there was one, keeping prev and next links mutually consistent.
     * This node's prev and the old successor's next are kept, unless this node was
     * its own successor.
     */
    method InsertAfter(n: QueueNode<T>)
      requires n != this && n != next
      modifies this, n, next
      ensures next == n && n.prev == this
      ensures old(next) == null ==> n.next == old(n.next)
      ensures old(next) != null ==> n.next == old(next) && old(next).prev == n
      ensures prev == if old(next) == this then n else old(prev)
      ensures old(next) != null ==> old(next).next == if old(next) == this then n else old(next.next)
    {
      if next == null {
        next := n;
        n.prev := this;
      } else {
        n.next := next;
        n.next.prev := n;
        n.prev := this;
        next := n;
      }
    }

    /**
     * insertBefore: splice n in directly before this node, after this node's old
     * predecessor if there was one, keeping prev and next links mutually consistent.
     * This node's next and the old predecessor's prev are kept, unless this node was
     * its own predecessor.
     */
    method InsertBefore(n: QueueNode<T>)
      requires n != this && n != prev
      modifies this, n, prev
      ensures prev == n && n.next == this
      ensures old(prev) == null ==> n.prev == old(n.prev)
      ensures old(prev) != null ==> n.prev == old(prev) && old(prev).next == n
      ensures next == if old(prev) == this then n else old(next)
      ensures old(prev) != null ==> old(prev).prev == if old(prev) == this then n else old(prev.prev)
    {
      if prev == null {
        prev := n;
        n.next := this;
      } else {
        n.prev := prev;
        n.prev.next := n;
        n.next := this;
        prev := n;
      }
    }
  }

  class ObservableQueue<T> {
    var head: QueueNode?<T>
    var tail: QueueNode?<T>

    /** The linked nodes from head to tail. */
    ghost var nodes: seq<QueueNode<T>>

    /** The values held, oldest first. */
    ghost function Contents(): seq<T>
      reads this
    {
      var ns := nodes;
      seq(|ns|, i requires 0 <= i < |ns| => ns[i].value)
    }

    /**
     * head and tail are the ends of a chain of distinct nodes in which each node's next
     * is its successor and each successor's prev is that node; the ends point nowhere.
     */
    ghost predicate Valid()
      reads this, nodes
    {
      && (nodes == [] <==> head == null)
      && (nodes == [] <==> tail == null)
      && (nodes != [] ==> head == nodes[0] && tail == nodes[|nodes| - 1])
      && (nodes != [] ==> head.prev == null && tail.next == null)
      && (forall i :: 0 <= i < |nodes| - 1 ==> nodes[i].next == nodes[i + 1])
      && (forall i :: 0 < i < |nodes| ==> nodes[i].prev == nodes[i - 1])
      && (forall i, j :: 0 <= i < j < |nodes| ==> nodes[i] != nodes[j])
    }

    constructor ()
      ensures Valid() && Contents() == []
    {
      head := null;
      tail := null;
      nodes := [];
    }

    /** offer: a new node becomes the tail, linked after the old tail if there was one. */
    method Offer(value: T)
      requires Valid()
      modifies this, nodes
      ensures Valid() && Contents() == old(Contents()) + [value]
      ensures fresh(nodes[|nodes| - 1])
    {
      var node := new QueueNode(value);
      if tail == null {
        head := node;
        tail := node;
      } else {
        tail.InsertAfter(node);
        tail := node;
      }
      nodes := nodes + [node];
    }

    /**
     * poll: None on an empty queue, which stays as it is; otherwise the head's value,
     * with the queue emptied if that was its only node and else the head moved to the
     * next node, whose prev is cleared.
     */
    method Poll() returns (r: Option<T>)
      requires Valid()
      modifies this, nodes
      ensures Valid()
      ensures old(Contents()) == [] ==> r == None && Contents() == [] && head == old(head) && tail == old(tail)
      ensures old(Contents()) != [] ==> r == Some(old(Contents())[0]) && Contents() == old(Contents())[1..]
    {
      if head == null {
        return None;
      }
      r := Some(head.value);
      assert |nodes| > 1 ==> head.next == nodes[1];
      if head.next == null {
        head := null;
        tail := null;
      } else {
        head := head.next;
        head.prev := null;
      }
      nodes := nodes[1..];
    }

    /** peek: the head's value, or None when the queue is empty. */
    function Peek(): (r: Option<T>)
      requires Valid()
      reads this, nodes
      ensures r == if Contents() == [] then None else Some(Contents()[0])
    {
      if head == null then None else Some(head.value)
    }

    /** clear: drop both ends; the queue is empty. */
    method Clear()
      requires Valid()
      modifies this
      ensures Valid() && Contents() == [] && head == null && tail == null
    {
      head := null;
      tail := null;
      nodes := [];
    }
  }
}
