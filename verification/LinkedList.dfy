/** The doubly linked list behind `std::list`: nodes are objects, so a reference to a
    node stays good (as a list iterator does) while other nodes come, go and move. */
module LinkedList {
  import opened Seqs

  class Node<T> {
    var data: T
    var prev: Node?<T>
    var next: Node?<T>

    constructor (data: T)
      ensures this.data == data && prev == null && next == null
    {
      this.data, prev, next := data, null, null;
    }
  }

  class List<T> {
    var head: Node?<T>
    var tail: Node?<T>
    ghost var nodes: seq<Node<T>>
    ghost var items: seq<T>

    /** The links are exactly those of the sequence `nodes`, and `items` is what they hold. */
    ghost predicate Valid()
      reads this, nodes
    {
      && Distinct(nodes)
      && |items| == |nodes|
      && head == (if nodes == [] then null else nodes[0])
      && tail == (if nodes == [] then null else nodes[|nodes| - 1])
      && (forall i {:trigger nodes[i].prev} :: 0 <= i < |nodes| ==> nodes[i].prev == if i == 0 then null else nodes[i - 1])
      && (forall i {:trigger nodes[i].next} :: 0 <= i < |nodes| ==> nodes[i].next == if i == |nodes| - 1 then null else nodes[i + 1])
      && (forall i {:trigger nodes[i].data} :: 0 <= i < |nodes| ==> nodes[i].data == items[i])
    }

    constructor ()
      ensures Valid() && nodes == [] && items == []
    {
      head, tail, nodes, items := null, null, [], [];
    }

    /** Puts a detached node in front. */
    method LinkFront(n: Node<T>)
      requires Valid() && n !in nodes
      modifies this, nodes, n
      ensures Valid() && nodes == [n] + old(nodes) && items == [old(n.data)] + old(items)
    {
      n.prev, n.next := null, head;
      if head == null {
        tail := n;
      } else {
        head.prev := n;
      }
      head := n;
      nodes, items := [n] + nodes, [n.data] + items;
    }

    /** Takes the node at position `k` out of the chain. */
    method Unlink(n: Node<T>, ghost k: nat)
      requires Valid() && k < |nodes| && nodes[k] == n
      modifies this, nodes
      ensures Valid() && nodes == Removed(old(nodes), k) && items == Removed(old(items), k)
      ensures n !in nodes && n.data == old(items)[k]
    {
      if n.prev == null {
        head := n.next;
      } else {
        n.prev.next := n.next;
      }
      if n.next == null {
        tail := n.prev;
      } else {
        n.next.prev := n.prev;
      }
      nodes, items := Removed(nodes, k), Removed(items, k);
    }

    /** `push_front`. */
    method PushFront(x: T) returns (n: Node<T>)
      requires Valid()
      modifies this, nodes
      ensures Valid() && fresh(n) && nodes == [n] + old(nodes) && items == [x] + old(items)
    {
      n := new Node(x);
      LinkFront(n);
    }

    /** `splice(begin(), *this, n)`: the node itself moves to the front. */
    method Splice(n: Node<T>, ghost k: nat)
      requires Valid() && k < |nodes| && nodes[k] == n
      modifies this, nodes
      ensures Valid() && nodes == [n] + Removed(old(nodes), k) && items == [old(items)[k]] + Removed(old(items), k)
    {
      Unlink(n, k);
      LinkFront(n);
    }

    /** `*begin() = x`. */
    method SetFront(x: T)
      requires Valid() && nodes != []
      modifies this`items, nodes[0]
      ensures Valid() && items == [x] + old(items)[1..]
    {
      head.data := x;
      items := [x] + items[1..];
    }

    /** `pop_back`. */
    method PopBack()
      requires Valid() && nodes != []
      modifies this, nodes
      ensures Valid() && nodes == Removed(old(nodes), |old(nodes)| - 1) && items == Removed(old(items), |old(items)| - 1)
    {
      Unlink(tail, |nodes| - 1);
    }
  }
}
