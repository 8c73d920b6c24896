/** The sample `Queue`: a singly linked list that refines a sequence.

    The ghost field `nodes` lists the nodes from the head on. Copying an element is copying
    a value, and deleting a node marks it: a deleted node is neither read nor deleted again. */
module LinkedQueue {
  import opened Basics

  class QueueNode<E> {
    const element: E
    var next: QueueNode?<E>
    ghost var deleted: bool

    constructor (element: E)
      ensures this.element == element && next == null && !deleted
    {
      this.element := element;
      next := null;
      deleted := false;
    }

    function Element(): E
      requires !deleted
      reads this
    {
      element
    }

    function Next(): QueueNode?<E>
      requires !deleted
      reads this
    {
      next
    }

    method Delete()
      requires !deleted
      modifies this`deleted
      ensures deleted
    {
      deleted := true;
    }
  }

  ghost function Elements<E>(nodes: seq<QueueNode<E>>): (s: seq<E>)
    ensures |s| == |nodes| && forall k :: 0 <= k < |nodes| ==> s[k] == nodes[k].element
  {
    seq(|nodes|, k requires 0 <= k < |nodes| => nodes[k].element)
  }

  /** The nodes are an acyclic list. */
  ghost predicate IsList<E>(nodes: seq<QueueNode<E>>)
    reads nodes
  {
    && Distinct(nodes)
    && (forall k {:trigger nodes[k].next} :: 0 <= k < |nodes| ==>
          nodes[k].next == if k + 1 < |nodes| then nodes[k + 1] else null)
    && (forall k {:trigger nodes[k].deleted} :: 0 <= k < |nodes| ==> !nodes[k].deleted)
  }

  /** The node after `k` steps along the links, if the list is that long. */
  ghost function After<E>(node: QueueNode?<E>, k: nat, nodes: set<QueueNode<E>>): QueueNode?<E>
    reads nodes
  {
    if k == 0 || node == null || node !in nodes then node else After(node.next, k - 1, nodes)
  }

  /** Following the links meets the nodes in order and then ends: the links determine the
      list. */
  lemma {:induction false} LinksLeadThrough<E>(nodes: seq<QueueNode<E>>, i: nat, k: nat)
    requires IsList(nodes) && i < |nodes|
    ensures After(nodes[i], k, set n | n in nodes) == if i + k < |nodes| then nodes[i + k] else null
    decreases k
  {
    if k > 0 && i + 1 < |nodes| {
      LinksLeadThrough(nodes, i + 1, k - 1);
    }
  }

  function Images<E, F>(f: E -> F, s: seq<E>): seq<F> {
    seq(|s|, k requires 0 <= k < |s| => f(s[k]))
  }

  lemma OneMoreImage<E, F>(f: E -> F, s: seq<E>, k: nat)
    requires k < |s|
    ensures Images(f, s[..k + 1]) == Images(f, s[..k]) + [f(s[k])]
  {
  }

  class Queue<E> {
    var head: QueueNode?<E>
    var last: QueueNode?<E>
    var size: nat
    ghost var nodes: seq<QueueNode<E>>

    ghost predicate Valid()
      reads this, nodes
    {
      && IsList(nodes) && size == |nodes|
      && head == (if size == 0 then null else nodes[0])
      && last == if size == 0 then null else nodes[size - 1]
    }

    ghost function Contents(): seq<E>
      reads this
    {
      Elements(nodes)
    }

    constructor ()
      ensures Valid() && nodes == [] && Contents() == []
    {
      head, last, size := null, null, 0;
      nodes := [];
    }

    /** Deletes every node exactly once. */
    method Clear()
      requires Valid()
      modifies this, nodes`deleted
      ensures Valid() && nodes == [] && Contents() == []
      ensures forall n :: n in old(nodes) ==> n.deleted
    {
      if size > 0 {
        var node: QueueNode<E> := head;
        var next := node.Next();
        ghost var k := 0;
        while true
          invariant k < |nodes| && nodes == old(nodes) && node == nodes[k]
          invariant next == if k + 1 < |nodes| then nodes[k + 1] else null
          invariant forall j {:trigger nodes[j].deleted} :: 0 <= j < |nodes| ==> (nodes[j].deleted <==> j < k)
          decreases |nodes| - k
        {
          node.Delete();
          if next == null {
            break;
          }
          node := next;
          k := k + 1;
          next := node.Next();
        }
        head, last := null, null;
        size := 0;
        nodes := [];
      }
    }

    function Size(): (n: nat)
      requires Valid()
      reads this, nodes
      ensures n == |Contents()|
    {
      size
    }

    function Head(): (n: QueueNode?<E>)
      requires Valid()
      reads this, nodes
      ensures n == null <==> Contents() == []
      ensures n != null ==> !n.deleted && n.element == Contents()[0]
    {
      head
    }

    function Last(): (n: QueueNode?<E>)
      requires Valid()
      reads this, nodes
      ensures n == null <==> Contents() == []
      ensures n != null ==> !n.deleted && n.element == Contents()[|Contents()| - 1] && n.next == null
    {
      last
    }

    method Enqueue(element: E)
      requires Valid()
      modifies this, nodes`next
      ensures Valid() && Contents() == old(Contents()) + [element]
      ensures |nodes| == |old(nodes)| + 1 && nodes[..|old(nodes)|] == old(nodes) && fresh(nodes[|old(nodes)|])
    {
      var newNode := new QueueNode(element);
      if size == 0 {
        head, last := newNode, newNode;
        size := 1;
      } else {
        last.next := newNode;
        last := newNode;
        size := size + 1;
      }
      nodes := nodes + [newNode];
    }

    /** The first element, whose node is deleted; `None` stands for NULL. */
    method Dequeue() returns (element: Option<E>)
      requires Valid()
      modifies this, nodes`deleted
      ensures Valid()
      ensures old(size) == 0 ==> element.None? && Contents() == old(Contents()) && nodes == old(nodes)
      ensures old(size) > 0 ==> element == Some(old(Contents())[0]) && Contents() == old(Contents())[1..]
      ensures old(size) > 0 ==> old(nodes)[0].deleted && nodes == old(nodes)[1..]
    {
      if size == 0 {
        return None;
      }
      var oldHead: QueueNode<E> := head;
      head := oldHead.next;
      size := size - 1;
      if size == 0 {
        last := null;
      }
      element := Some(oldHead.Element());
      oldHead.Delete();
      nodes := nodes[1..];
    }

    /** A new queue with the images; nothing of this queue changes. */
    method Map<F>(f: E -> F) returns (newQueue: Queue<F>)
      requires Valid()
      ensures fresh(newQueue) && newQueue.Valid() && newQueue.Contents() == Images(f, Contents())
      ensures forall j :: 0 <= j < |newQueue.nodes| ==> fresh(newQueue.nodes[j])
    {
      newQueue := new Queue();
      var node := head;
      ghost var k := 0;
      while node != null
        invariant k <= |nodes| && node == if k < |nodes| then nodes[k] else null
        invariant fresh(newQueue) && newQueue.Valid()
        invariant forall j :: 0 <= j < |newQueue.nodes| ==> fresh(newQueue.nodes[j])
        invariant newQueue.Contents() == Images(f, Contents()[..k])
        decreases |nodes| - k
      {
        ghost var before := newQueue.nodes;
        newQueue.Enqueue(f(node.Element()));
        assert forall j :: 0 <= j < |before| ==> newQueue.nodes[j] == before[j];
        OneMoreImage(f, Contents(), k);
        node := node.Next();
        k := k + 1;
      }
      assert Contents()[..k] == Contents();
    }
  }
}
