/** The sentinel linked list behind the worker pool (pkg/pool/queue.go). */
module Queues {
  import opened Base

  class Node<T> {
    var val: Option<T>
    var next: Node?<T>

    constructor (v: Option<T>)
      ensures val == v && next == null
    {
      val, next := v, null;
    }
  }

  /** A first-in first-out queue: `nodes` are the linked nodes after the sentinel `head`. */
  class WorkerPoolQueue<T> {
    var head: Node<T>
    var tail: Node<T>
    var closed: bool
    var size: int
    ghost var nodes: seq<Node<T>>
    ghost var contents: seq<T>

    ghost predicate Valid()
      reads this, head, nodes
    {
      && head !in nodes
      && (forall i, j | 0 <= i < j < |nodes| :: nodes[i] != nodes[j])
      && |contents| == |nodes|
      && (forall i | 0 <= i < |nodes| :: nodes[i].val == Some(contents[i]))
      && head.next == (if nodes == [] then null else nodes[0])
      && (forall i | 0 <= i < |nodes| - 1 :: nodes[i].next == nodes[i + 1])
      && (nodes != [] ==> nodes[|nodes| - 1].next == null)
      && tail == (if nodes == [] then head else nodes[|nodes| - 1])
    }

    constructor ()
      ensures Valid() && contents == [] && !closed && size == 0 && fresh(head)
    {
      var s := new Node<T>(None);
      head, tail, closed, size, nodes, contents := s, s, false, 0, [], [];
    }

    /** Put under the lock: refused when closed, appended otherwise. */
    method Put(v: T) returns (ok: bool)
      requires Valid()
      modifies this, tail
      ensures Valid() && closed == old(closed) && head == old(head)
      ensures ok == !old(closed)
      ensures contents == if ok then old(contents) + [v] else old(contents)
      ensures size == if ok then old(size) + 1 else old(size)
      ensures ok ==> fresh(tail) && nodes == old(nodes) + [tail]
    {
      if closed {
        return false;
      }
      var n := new Node<T>(Some(v));
      tail.next := n;
      tail := n;
      nodes, contents := nodes + [n], contents + [v];
      size := size + 1;
      return true;
    }

    /** The locked section shared by Get and TryGet: takes the first item, if there is one. A
        blocked Get waits until there is an item or the queue is closed. */
    method Pop() returns (r: Option<T>)
      requires Valid()
      modifies this, head
      ensures Valid() && closed == old(closed) && head == old(head) && size == old(size)
      ensures r.Some? <==> old(contents) != []
      ensures r.Some? ==> old(contents) == [r.value] + contents
      ensures r.None? ==> contents == old(contents)
    {
      if head.next == null {
        return None;
      }
      var n := head.next;
      head.next := n.next;
      nodes, contents := nodes[1..], contents[1..];
      if head.next == null {
        tail := head;
      }
      r := n.val;
    }

    /** After the lock is released the size counter follows. */
    method CountDown()
      modifies `size
      ensures size == old(size) - 1
    {
      size := size - 1;
    }

    method Close()
      modifies `closed
      ensures closed
    {
      closed := true;
    }
  }

  /** Taking items until the queue is empty yields its contents in order, closed or not, and the
      size counter follows. */
  method Drain<T>(q: WorkerPoolQueue<T>) returns (out: seq<T>)
    requires q.Valid()
    modifies q, q.head
    ensures q.Valid() && q.contents == [] && out == old(q.contents) && q.closed == old(q.closed)
    ensures q.size == old(q.size) - |out|
  {
    out := [];
    var r := q.Pop();
    while r.Some?
      invariant q.Valid() && q.head == old(q.head) && q.closed == old(q.closed)
      invariant r.Some? ==> out + [r.value] + q.contents == old(q.contents)
      invariant r.None? ==> out == old(q.contents) && q.contents == []
      invariant q.size == old(q.size) - |out|
      decreases r.Some?, |q.contents|
    {
      q.CountDown();
      out := out + [r.value];
      r := q.Pop();
    }
  }
}
