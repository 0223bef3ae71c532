/**
  The linked stack-and-queue of steque.c: a singly linked list with a pointer to its last
  node, so that both ends accept an item in constant time.
 */
module Steques {
  import opened Wrappers

  class Node<T> {
    var item: T
    var next: Node?<T>

    constructor (item: T, next: Node?<T>)
      ensures this.item == item && this.next == next
    {
      this.item, this.next := item, next;
    }
  }

  class Steque<T> {
    var front: Node?<T>
    var back: Node?<T>
    var N: int

    ghost var spine: seq<Node<T>>  // the nodes, from front to back

    ghost predicate Valid()
      reads this, spine
    {
      && N == |spine|
      && (forall i, j :: 0 <= i < j < |spine| ==> spine[i] != spine[j])
      && front == (if spine == [] then null else spine[0])
      && back == (if spine == [] then null else spine[|spine| - 1])
      && (forall i {:trigger spine[i].next} :: 0 <= i < |spine| ==>
            spine[i].next == if i + 1 < |spine| then spine[i + 1] else null)
    }

    ghost function Contents(): (items: seq<T>)
      reads this, spine
    {
      seq(|spine|, i requires 0 <= i < |spine| reads this, spine => spine[i].item)
    }

    constructor Init()
      ensures Valid() && Contents() == [] && spine == []
    {
      front, back, N := null, null, 0;
      spine := [];
    }

    method Enqueue(item: T)
      requires Valid()
      modifies this, spine
      ensures Valid() && Contents() == old(Contents()) + [item]
      ensures forall n :: n in spine ==> n in old(spine) || fresh(n)
    {
      var node := new Node(item, null);
      if back == null {
        front := node;
      } else {
        back.next := node;
      }
      back := node;
      N := N + 1;
      spine := spine + [node];
    }

    method Push(item: T)
      requires Valid()
      modifies this
      ensures Valid() && Contents() == [item] + old(Contents())
      ensures forall n :: n in spine ==> n in old(spine) || fresh(n)
    {
      var node := new Node(item, front);
      if back == null {
        back := node;
      }
      front := node;
      N := N + 1;
      spine := [node] + spine;
    }

    method Size() returns (n: int)
      requires Valid()
      ensures n == |Contents()|
    {
      n := N;
    }

    method IsEmpty() returns (empty: bool)
      requires Valid()
      ensures empty <==> Contents() == []
    {
      empty := N == 0;
      assert empty ==> |Contents()| == 0;
    }

    /** `None` is the underflow on which the program prints an error and exits. */
    method Pop() returns (item: Option<T>)
      requires Valid()
      modifies this
      ensures Valid()
      ensures item.None? <==> old(Contents()) == []
      ensures item.None? ==> Contents() == []
      ensures item.Some? ==> [item.value] + Contents() == old(Contents())
      ensures forall n :: n in spine ==> n in old(spine)
    {
      if front == null {
        assert |Contents()| == 0;
        return None;
      }
      assert |Contents()| > 0;
      item := Some(front.item);
      front := front.next;
      if front == null {
        back := null;
      }
      N := N - 1;
      spine := spine[1..];
    }

    /** The front item goes to the back: one node is relinked, none is allocated. */
    method Cycle()
      requires Valid()
      modifies this, spine
      ensures Valid()
      ensures Contents() == if old(Contents()) == [] then [] else old(Contents())[1..] + old(Contents())[..1]
      ensures spine == if old(spine) == [] then [] else old(spine)[1..] + old(spine)[..1]
    {
      if back == null {
        assert |Contents()| == 0;
        return;
      }
      assert |Contents()| > 0;
      back.next := front;
      back := front;
      front := front.next;
      back.next := null;
      spine := spine[1..] + spine[..1];
    }

    method Front() returns (item: Option<T>)
      requires Valid()
      ensures item == if Contents() == [] then None else Some(Contents()[0])
    {
      if front == null {
        assert |Contents()| == 0;
        return None;
      }
      assert |Contents()| > 0;
      item := Some(front.item);
    }

    method Destroy()
      requires Valid()
      modifies this
      ensures Valid() && Contents() == []
    {
      var empty := IsEmpty();
      while !empty
        invariant Valid() && (empty <==> Contents() == [])
        decreases |Contents()|
      {
        var item := Pop();
        empty := IsEmpty();
      }
    }
  }
}
