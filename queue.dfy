/** A singly linked FIFO queue with `first`/`last` pointers and a `count`
    field (SushiSolution/main.swift, class Queue), and its FIFO iterator. */
module Queues {

  datatype Option<T> = None | Some(value: T)

  /** One cell of the linked list. */
  class Node<E> {
    var item: E
    var next: Node?<E>

    constructor (item: E, next: Node?<E>)
      ensures this.item == item && this.next == next
    {
      this.item := item;
      this.next := next;
    }
  }

  /** `nodes` is a chain spelling `items`: each node's `next` is its
      successor, the last one's is null and no node occurs twice. */
  ghost predicate Chain<E>(nodes: seq<Node<E>>, items: seq<E>, repr: set<object>)
    reads repr
    decreases |nodes|
  {
    |nodes| == |items| &&
    (nodes != [] ==>
       nodes[0] in repr && nodes[0].item == items[0] &&
       nodes[0].next == (if |nodes| == 1 then null else nodes[1]) &&
       nodes[0] !in nodes[1..] &&
       Chain(nodes[1..], items[1..], repr))
  }

  /** The same chain, stated link by link. */
  ghost predicate Links<E>(nodes: seq<Node<E>>, items: seq<E>, repr: set<object>)
    reads repr
  {
    (forall i :: 0 <= i < |nodes| ==> nodes[i] in repr) &&
    |nodes| == |items| &&
    (forall i :: 0 <= i < |nodes| ==> nodes[i].item == items[i]) &&
    (forall i :: 0 <= i < |nodes| - 1 ==> nodes[i].next == nodes[i + 1]) &&
    (|nodes| > 0 ==> nodes[|nodes| - 1].next == null) &&
    (forall i, j :: 0 <= i < j < |nodes| ==> nodes[i] != nodes[j])
  }

  lemma {:induction false} ChainToLinks<E>(nodes: seq<Node<E>>, items: seq<E>, repr: set<object>)
    requires Chain(nodes, items, repr)
    ensures Links(nodes, items, repr)
    decreases |nodes|
  {
    if nodes != [] {
      var tail := nodes[1..];
      ChainToLinks(tail, items[1..], repr);
      assert forall i :: 0 <= i < |tail| ==> tail[i] == nodes[i + 1];
      assert forall i :: 0 <= i < |tail| ==> items[1..][i] == items[i + 1];
      forall i, j | 0 <= i < j < |nodes|
        ensures nodes[i] != nodes[j]
      {
        if i == 0 {
          assert nodes[j] == tail[j - 1];
        } else {
          assert nodes[i] == tail[i - 1] && nodes[j] == tail[j - 1];
        }
      }
    }
  }

  lemma {:induction false} LinksToChain<E>(nodes: seq<Node<E>>, items: seq<E>, repr: set<object>)
    requires Links(nodes, items, repr)
    ensures Chain(nodes, items, repr)
    decreases |nodes|
  {
    if nodes != [] {
      var tail := nodes[1..];
      assert forall i :: 0 <= i < |tail| ==> tail[i] == nodes[i + 1];
      assert forall i :: 0 <= i < |tail| ==> items[1..][i] == items[i + 1];
      LinksToChain(tail, items[1..], repr);
      forall k | 0 <= k < |tail|
        ensures tail[k] != nodes[0]
      {
        assert tail[k] == nodes[k + 1];
      }
    }
  }

  class Queue<E> {
    /** beginning of the queue */
    var first: Node?<E>
    /** end of the queue */
    var last: Node?<E>
    /** number of items held */
    var count: int

    ghost var Contents: seq<E>
    ghost var Nodes: seq<Node<E>>
    ghost var Repr: set<object>

    ghost predicate Valid()
      reads this, Repr
      ensures Valid() ==> this in Repr
    {
      this in Repr &&
      Chain(Nodes, Contents, Repr - {this}) &&
      count == |Contents| &&
      (Nodes == [] ==> first == null && last == null) &&
      (Nodes != [] ==> first == Nodes[0] && last == Nodes[|Nodes| - 1] && last in Repr)
    }

    constructor ()
      ensures Valid() && fresh(Repr)
      ensures Contents == [] && count == 0
    {
      first, last, count := null, null, 0;
      Contents, Nodes, Repr := [], [], {this};
    }

    /** True exactly when the queue holds no items. */
    predicate IsEmpty()
      reads this, Repr
      requires Valid()
      ensures IsEmpty() <==> Contents == []
    {
      first == null
    }

    /** The item least recently added, without removing it. */
    function Peek(): (r: Option<E>)
      reads this, Repr
      requires Valid()
      ensures Contents == [] ==> r == None
      ensures Contents != [] ==> r == Some(Contents[0])
    {
      if first == null then None else Some(first.item)
    }

    /** Adds `item` at the end of the queue. */
    method Enqueue(item: E)
      requires Valid()
      modifies Repr
      ensures Valid() && fresh(Repr - old(Repr))
      ensures Contents == old(Contents) + [item]
      ensures count == old(count) + 1
    {
      ChainToLinks(Nodes, Contents, Repr - {this});
      ghost var nodes, items := Nodes, Contents;
      var oldLast := last;
      last := new Node(item, null);
      if first == null {
        first := last;
      } else {
        oldLast.next := last;
      }
      count := count + 1;
      Nodes, Contents, Repr := Nodes + [last], Contents + [item], Repr + {last};
      assert Links(Nodes, Contents, Repr - {this}) by {
        forall i | 0 <= i < |Nodes| - 1
          ensures Nodes[i].next == Nodes[i + 1]
        {
          if i + 1 < |nodes| {
            assert nodes[i] != oldLast;
          }
        }
      }
      LinksToChain(Nodes, Contents, Repr - {this});
    }

    /** Removes and returns the item least recently added; None, with
        nothing changed, when the queue is empty. */
    method Dequeue() returns (r: Option<E>)
      requires Valid()
      modifies this
      ensures Valid() && Repr == old(Repr)
      ensures old(Contents) == [] ==> r == None && unchanged(this)
      ensures old(Contents) != [] ==>
                r == Some(old(Contents)[0]) && Contents == old(Contents)[1..] &&
                count == old(count) - 1
      ensures Contents == [] ==> last == null
    {
      if first != null {
        var item := first.item;
        first := first.next;
        count := count - 1;
        Nodes, Contents := Nodes[1..], Contents[1..];
        // an empty queue keeps no reference to the removed cell
        if first == null {
          last := null;
        }
        return Some(item);
      }
      return None;
    }

    /** An iterator over the items in FIFO order. */
    method MakeIterator() returns (it: QueueIterator<E>)
      requires Valid()
      ensures fresh(it) && it.Valid() && it.Remaining == Contents
      ensures it.Repr <= Repr
    {
      it := new QueueIterator(first, Nodes, Contents, Repr - {this});
    }

    /** The items the iterator yields, in order: the whole contents, front first. */
    method Elements() returns (items: seq<E>)
      requires Valid()
      ensures items == Contents
    {
      var it := MakeIterator();
      items := [];
      var x := it.Next();
      while x.Some?
        invariant it.Valid() && fresh(it)
        invariant x.Some? ==> items + [x.value] + it.Remaining == Contents
        invariant x.None? ==> items == Contents
        decreases |it.Remaining|, x.Some?
      {
        items := items + [x.value];
        x := it.Next();
      }
    }
  }

  /** Walks the chain from a node, as the source's QueueIterator does. */
  class QueueIterator<E> {
    var current: Node?<E>

    ghost var Remaining: seq<E>
    ghost var Nodes: seq<Node<E>>
    ghost var Repr: set<object>

    ghost predicate Valid()
      reads this, Repr
    {
      this !in Repr && Chain(Nodes, Remaining, Repr) &&
      current == (if Nodes == [] then null else Nodes[0])
    }

    constructor (current: Node?<E>, ghost nodes: seq<Node<E>>, ghost items: seq<E>, ghost repr: set<object>)
      requires Chain(nodes, items, repr)
      requires current == (if nodes == [] then null else nodes[0])
      ensures Valid() && Remaining == items && Repr == repr
    {
      this.current := current;
      Remaining, Nodes, Repr := items, nodes, repr;
    }

    /** The next item in FIFO order, or None once all have been yielded. */
    method Next() returns (r: Option<E>)
      requires Valid()
      modifies this
      ensures Valid() && Repr == old(Repr)
      ensures old(Remaining) == [] ==> r == None && Remaining == []
      ensures old(Remaining) != [] ==>
                r == Some(old(Remaining)[0]) && Remaining == old(Remaining)[1..]
    {
      if current != null {
        var item := current.item;
        current := current.next;
        Nodes, Remaining := Nodes[1..], Remaining[1..];
        return Some(item);
      }
      return None;
    }
  }
}
