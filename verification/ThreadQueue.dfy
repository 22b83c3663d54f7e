/** The singly linked thread queues. `tail` is the newest node and every node
    points to the one enqueued before it, so the head is found by walking. */
module ThreadQueue {

  /** A queue node. Its thread is named by its id, which stands for the pointer to
      the thread record. */
  class Node {
    const thread: nat
    var priority: int
    var next: Node?

    constructor (thread: nat, priority: int)
      ensures this.thread == thread && this.priority == priority && next == null
    {
      this.thread := thread;
      this.priority := priority;
      next := null;
    }
  }

  class Queue {
    var tail: Node?
    var size: int
    /** The nodes, head first, the ids of their threads, and the nodes as a set. */
    ghost var nodes: seq<Node>
    ghost var ids: seq<nat>
    ghost var repr: set<Node>

    ghost predicate Valid()
      reads this, repr
    {
      && size == |nodes| == |ids|
      && (forall i :: 0 <= i < |nodes| ==> nodes[i] in repr && ids[i] == nodes[i].thread)
      && (nodes == [] ==> tail == null)
      && (nodes != [] ==> tail == nodes[|nodes| - 1] && nodes[0].next == null)
      && (forall i {:trigger nodes[i].next} :: 1 <= i < |nodes| ==> nodes[i].next == nodes[i - 1])
      && (forall i, j :: 0 <= i < j < |nodes| ==> nodes[i] != nodes[j])
    }

    constructor ()
      ensures Valid() && nodes == [] && ids == [] && repr == {}
    {
      tail := null;
      size := 0;
      nodes := [];
      ids := [];
      repr := {};
    }

    method Enqueue(node: Node)
      requires Valid() && node !in repr
      modifies this, node`next
      ensures Valid() && nodes == old(nodes) + [node] && repr == old(repr) + {node}
      ensures ids == old(ids) + [node.thread]
    {
      if tail == null {
        node.next := null;
      } else {
        node.next := tail;
      }
      size := size + 1;
      tail := node;
      nodes := nodes + [node];
      ids := ids + [node.thread];
      repr := repr + {node};
    }

    /** Removes the node at the far end of the chain, the first one enqueued. */
    method Dequeue() returns (node: Node?)
      requires Valid()
      modifies this, repr`next
      ensures Valid()
      ensures old(nodes) == [] ==> node == null && nodes == [] && ids == [] && repr == old(repr)
      ensures old(nodes) != [] ==> node == old(nodes)[0] && nodes == old(nodes)[1..] && ids == old(ids)[1..]
      ensures old(nodes) != [] ==> node.next == null && node in old(repr) && repr == old(repr) - {node}
    {
      if tail == null {
        return null;
      }
      var iter: Node := tail;
      var prev: Node? := null;
      ghost var i := |nodes| - 1;
      while iter.next != null
        invariant 0 <= i < |nodes| && iter == nodes[i]
        invariant i + 1 == |nodes| ==> prev == null
        invariant i + 1 < |nodes| ==> prev == nodes[i + 1]
        decreases i
      {
        prev := iter;
        iter := iter.next;
        i := i - 1;
      }
      if prev != null {
        prev.next := null;
      } else {
        tail := null;
      }
      size := size - 1;
      nodes := nodes[1..];
      ids := ids[1..];
      repr := repr - {iter};
      node := iter;
    }

    method Peek() returns (node: Node?)
      requires Valid()
      ensures nodes == [] ==> node == null
      ensures nodes != [] ==> node == nodes[0]
    {
      if tail == null {
        return null;
      }
      var iter: Node := tail;
      ghost var i := |nodes| - 1;
      while iter.next != null
        invariant 0 <= i < |nodes| && iter == nodes[i]
        decreases i
      {
        iter := iter.next;
        i := i - 1;
      }
      node := iter;
    }
  }
}
