/** The intrusive doubly linked list: nodes in a ring through a head node, changed by rewriting pointers. */
module DList {

  /** A node with what the enclosing structure holds besides its links. */
  class Node<T> {
    var prev: Node?<T>
    var next: Node?<T>
    var data: T

    /** A number the node is given when it is made: its place in the order of posting, or the size of its buffer. */
    ghost const mark: nat

    /** A node that is not linked yet. */
    constructor (data: T, ghost mark: nat)
      ensures this.data == data && this.mark == mark
    {
      this.data := data;
      this.mark := mark;
      prev, next := null, null;
    }
  }

  /** Walking a ring: from the head through every node and back to the head. */
  ghost predicate Circle<T>(path: seq<Node<T>>) {
    && |path| >= 2 && path[|path| - 1] == path[0]
    && forall i, j :: 0 <= i < j < |path| - 1 ==> path[i] != path[j]
  }

  /** Step `i` of the walk is linked both ways. */
  ghost predicate Linked<T>(path: seq<Node<T>>, i: nat)
    requires i + 1 < |path|
    reads path
  {
    path[i].next == path[i + 1] && path[i + 1].prev == path[i]
  }

  ghost predicate Ring<T>(path: seq<Node<T>>)
    reads path
  {
    Circle(path) && forall i :: 0 <= i < |path| - 1 ==> Linked(path, i)
  }

  /** Two places of the walk are the same node only if they are its two ends. */
  lemma Apart<T>(path: seq<Node<T>>, i: nat, j: nat)
    requires Circle(path) && i < j < |path| && (i != 0 || j != |path| - 1)
    ensures path[i] != path[j]
  {
    assert j == |path| - 1 ==> path[j] == path[0];
  }

  /** `dlist_init` */
  method Init<T>(node: Node<T>)
    modifies node
    ensures Ring([node, node]) && node.data == old(node.data)
  {
    node.next, node.prev := node, node;
  }

  lemma InsertedCircle<T>(path: seq<Node<T>>, i: nat, node: Node<T>)
    requires Circle(path) && i + 1 < |path| && node !in path
    ensures Circle(path[..i + 1] + [node] + path[i + 1..])
  {
  }

  /** `__dlist_add`: `node` goes between `prev` and its neighbour `next`. */
  method Link<T>(node: Node<T>, prev: Node<T>, next: Node<T>, ghost path: seq<Node<T>>, ghost i: nat)
    requires Ring(path) && i + 1 < |path| && prev == path[i] && next == path[i + 1] && node !in path
    modifies node`prev, node`next, prev`next, next`prev
    ensures Ring(path[..i + 1] + [node] + path[i + 1..])
  {
    ghost var path' := path[..i + 1] + [node] + path[i + 1..];
    InsertedCircle(path, i, node);
    label before:
    node.next := next;
    node.prev := prev;
    prev.next := node;
    next.prev := node;
    forall k | 0 <= k < |path'| - 1 ensures Linked(path', k) {
      if k < i {
        assert old@before(Linked(path, k));
        Apart(path, k, i);
        Apart(path, k + 1, i + 1);
      } else if k > i + 1 {
        assert old@before(Linked(path, k - 1));
        Apart(path, i, k - 1);
        Apart(path, i + 1, k);
      }
    }
  }

  /** `dlist_del` */
  method Del<T>(node: Node<T>, ghost path: seq<Node<T>>, ghost i: nat)
    requires Ring(path) && 0 < i < |path| - 1 && node == path[i]
    modifies {path[i - 1]}`next, {path[i + 1]}`prev
    ensures Ring(path[..i] + path[i + 1..]) && forall n :: n in path ==> n.data == old(n.data)
  {
    ghost var path' := path[..i] + path[i + 1..];
    assert Linked(path, i - 1) && Linked(path, i);
    label before:
    var prev, next := node.prev, node.next;
    prev.next := next;
    next.prev := prev;
    forall k | 0 <= k < |path'| - 1 ensures Linked(path', k) {
      if k < i - 1 {
        assert old@before(Linked(path, k));
        Apart(path, k, i - 1);
        Apart(path, k + 1, i + 1);
      } else if k > i - 1 {
        assert old@before(Linked(path, k + 1));
        Apart(path, i - 1, k + 1);
        Apart(path, i + 1, k + 2);
      }
    }
  }

  /** The nodes of a ring without its head. */
  ghost function Inner<T>(path: seq<Node<T>>): (r: seq<Node<T>>)
    requires |path| >= 2
    ensures |r| == |path| - 2
  {
    path[1..|path| - 1]
  }

  /** The ring with these inner nodes. */
  ghost function Around<T>(head: Node<T>, inner: seq<Node<T>>): (path: seq<Node<T>>)
    ensures |path| == |inner| + 2 && Inner(path) == inner
  {
    [head] + inner + [head]
  }

  lemma HeadIsNotInner<T>(head: Node<T>, inner: seq<Node<T>>)
    requires Circle(Around(head, inner))
    ensures head !in inner && forall i, j :: 0 <= i < j < |inner| ==> inner[i] != inner[j]
  {
    var path := Around(head, inner);
    forall i | 0 <= i < |inner| ensures inner[i] != head {
      Apart(path, 0, i + 1);
    }
    forall i, j | 0 <= i < j < |inner| ensures inner[i] != inner[j] {
      Apart(path, i + 1, j + 1);
    }
  }

  /** `dlist_add`: the node becomes the first. */
  method AddFirst<T>(node: Node<T>, head: Node<T>, ghost inner: seq<Node<T>>)
    requires Ring(Around(head, inner)) && node != head && node !in inner
    modifies node`prev, node`next, head`prev, head`next, inner`prev, inner`next
    ensures Ring(Around(head, [node] + inner)) && forall n :: n in inner ==> n.data == old(n.data)
  {
    ghost var path := Around(head, inner);
    assert Linked(path, 0);
    Link(node, head, head.next, path, 0);
    assert path[..1] + [node] + path[1..] == Around(head, [node] + inner);
  }

  /** `dlist_add_tail`: the node becomes the last. */
  method AddLast<T>(node: Node<T>, head: Node<T>, ghost inner: seq<Node<T>>)
    requires Ring(Around(head, inner)) && node != head && node !in inner
    modifies node`prev, node`next, head`prev, head`next, inner`prev, inner`next
    ensures Ring(Around(head, inner + [node])) && forall n :: n in inner ==> n.data == old(n.data)
  {
    ghost var path := Around(head, inner);
    assert Linked(path, |inner|);
    Link(node, head.prev, head, path, |inner|);
    assert path[..|inner| + 1] + [node] + path[|inner| + 1..] == Around(head, inner + [node]);
  }

  /** The first node is taken out with `dlist_del`. */
  method DelFirst<T>(head: Node<T>, ghost inner: seq<Node<T>>) returns (node: Node<T>)
    requires Ring(Around(head, inner)) && inner != []
    modifies head`prev, head`next, inner`prev, inner`next
    ensures node == inner[0] && Ring(Around(head, inner[1..])) && forall n :: n in inner ==> n.data == old(n.data)
  {
    ghost var path := Around(head, inner);
    assert Linked(path, 0);
    node := head.next;
    Del(node, path, 1);
    assert path[..1] + path[2..] == Around(head, inner[1..]);
  }
}
