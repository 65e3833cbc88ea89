/** The linked first-in-first-out queue (src/kernel/include/lib/data/queue.hpp). */
module LinkedQueue {
  import opened Options

  class Node<T> {
    var value: T
    var next: Node?<T>

    constructor (value: T)
      ensures this.value == value && next == null
    {
      this.value := value;
      next := null;
    }
  }

  function After<T>(spine: seq<Node<T>>, i: nat): Node?<T>
    requires i < |spine|
  {
    if i + 1 < |spine| then spine[i + 1] else null
  }

  class Queue<T> {
    var head: Node?<T>
    var tail: Node?<T>
    var count: int
    /** The values in the queue, oldest first, the nodes that hold them, and all nodes it has ever had. */
    ghost var contents: seq<T>
    ghost var spine: seq<Node<T>>
    ghost var nodes: set<Node<T>>

    ghost predicate Valid()
      reads this, nodes
    {
      && |contents| == |spine| == count
      && (if spine == [] then head == null && tail == null else head == spine[0] && tail == spine[|spine| - 1])
      && (forall i :: 0 <= i < |spine| ==> spine[i] in nodes && spine[i].value == contents[i])
      && (forall i :: 0 <= i < |spine| ==> spine[i].next == After(spine, i))
      && (forall i, j :: 0 <= i < j < |spine| ==> spine[i] != spine[j])
    }

    constructor ()
      ensures Valid() && contents == [] && nodes == {}
    {
      head, tail, count := null, null, 0;
      contents, spine, nodes := [], [], {};
    }

    method Empty() returns (empty: bool)
      requires Valid()
      ensures empty <==> contents == []
    {
      empty := head == null;
    }

    method Push(value: T)
      requires Valid()
      modifies this, nodes
      ensures Valid() && contents == old(contents) + [value]
      ensures fresh(nodes - old(nodes))
    {
      var n := new Node(value);
      if tail == null {
        head, tail := n, n;
      } else {
        tail.next := n;
        tail := n;
      }
      count := count + 1;
      contents, spine, nodes := contents + [value], spine + [n], nodes + {n};
    }

    /** An empty queue gives nothing and stays as it is. */
    method Pop() returns (value: Option<T>)
      requires Valid()
      modifies this
      ensures Valid()
      ensures old(contents) == [] ==> value == None && contents == []
      ensures old(contents) != [] ==> value == Some(old(contents)[0]) && contents == old(contents)[1..]
      ensures nodes == old(nodes)
    {
      if head == null { return None; }
      assert spine[0].next == After(spine, 0);
      value := Some(head.value);
      head := head.next;
      if head == null { tail := null; }
      count := count - 1;
      contents, spine := contents[1..], spine[1..];
    }
  }
}
