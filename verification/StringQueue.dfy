/**
  The string queue of queue.c over the checking allocator. An element owns two blocks, its own
  and that of its copied string; `tail` is meaningful only while the queue is nonempty.
 */
module StringQueues {
  import opened Harnesses

  const ELEMENT_SIZE := 16
  const QUEUE_SIZE := 24

  class Element {
    const block: Block
    const valueBlock: Block
    const value: string
    var next: Element?

    constructor (block: Block, valueBlock: Block, value: string, next: Element?)
      ensures this.block == block && this.valueBlock == valueBlock && this.value == value && this.next == next
    {
      this.block, this.valueBlock, this.value, this.next := block, valueBlock, value, next;
    }
  }

  function Values(spine: seq<Element>): (values: seq<string>) {
    seq(|spine|, i requires 0 <= i < |spine| => spine[i].value)
  }

  function Reversed<T>(s: seq<T>): (r: seq<T>) {
    seq(|s|, i requires 0 <= i < |s| => s[|s| - 1 - i])
  }

  /** The blocks that the elements occupy, in the order in which they are freed. */
  ghost function Cells(spine: seq<Element>): seq<Block> {
    if spine == [] then [] else [spine[0].valueBlock, spine[0].block] + Cells(spine[1..])
  }

  lemma {:induction false} CellsConcat(a: seq<Element>, b: seq<Element>)
    ensures Cells(a + b) == Cells(a) + Cells(b)
  {
    if a == [] {
      assert a + b == b;
    } else {
      assert (a + b)[1..] == a[1..] + b;
      CellsConcat(a[1..], b);
    }
  }

  lemma {:induction false} CellsCount(spine: seq<Element>)
    ensures |Cells(spine)| == 2 * |spine|
  {
    if spine != [] {
      CellsCount(spine[1..]);
    }
  }

  lemma CellsBag(a: seq<Element>, b: seq<Element>)
    ensures Bag(Cells(a + b)) == Bag(Cells(a)) + Bag(Cells(b))
  {
    hide Bag, Cells;
    CellsConcat(a, b);
    BagConcat(Cells(a), Cells(b));
  }

  lemma ReversedCons(x: Element, s: seq<Element>)
    ensures Reversed([x] + s) == Reversed(s) + [x]
  {}

  lemma {:induction false} CellsReversed(spine: seq<Element>)
    ensures Bag(Cells(Reversed(spine))) == Bag(Cells(spine))
  {
    hide Bag, Cells, Reversed;
    if spine == [] {
      assert Reversed(spine) == [] by {
        ReversedNone();
      }
    } else {
      var x, rest := spine[0], spine[1..];
      assert spine == [x] + rest;
      CellsReversed(rest);
      ReversedCons(x, rest);
      CellsBag(Reversed(rest), [x]);
      CellsBag([x], rest);
    }
  }

  lemma ReversedNone()
    ensures Reversed<Element>([]) == []
  {}

  ghost predicate InOrder(head: Element?, spine: seq<Element>)
    reads spine
  {
    && head == (if spine == [] then null else spine[0])
    && forall i {:trigger spine[i].next} :: 0 <= i < |spine| ==>
      spine[i].next == if i + 1 < |spine| then spine[i + 1] else null
  }

  /** A list that ends in null visits no element twice. */
  lemma {:induction false} ElementsDiffer(head: Element?, spine: seq<Element>, i: nat, j: nat)
    requires InOrder(head, spine) && i < j < |spine|
    ensures spine[i] != spine[j]
    decreases |spine| - j
  {
    if j + 1 < |spine| {
      ElementsDiffer(head, spine, i + 1, j + 1);
    }
    assert spine[i].next != spine[j].next;
  }

  class Queue {
    const block: Block
    var head: Element?
    var tail: Element?
    var size: int

    ghost var spine: seq<Element>
    ghost var Repr: set<Element>  // every element linked so far

    constructor (block: Block)
      ensures this.block == block && Valid() && spine == [] && Repr == {}
    {
      this.block := block;
      head, tail, size := null, null, 0;
      spine, Repr := [], {};
    }

    ghost predicate Valid()
      reads this, Repr
    {
      && (forall i :: 0 <= i < |spine| ==> spine[i] in Repr)
      && size == |spine|
      && (spine != [] ==> tail == spine[|spine| - 1])
      && InOrder(head, spine)
    }

    method LinkHead(newh: Element)
      requires Valid() && newh !in Repr
      modifies this, newh
      ensures Valid() && spine == [newh] + old(spine) && Repr == old(Repr) + {newh}
    {
      if head == null {
        tail := newh;
      }
      newh.next := head;
      head := newh;
      size := size + 1;
      spine, Repr := [newh] + spine, Repr + {newh};
    }

    method LinkTail(newh: Element)
      requires Valid() && newh !in Repr
      modifies this, newh, Repr
      ensures Valid() && spine == old(spine) + [newh] && Repr == old(Repr) + {newh}
    {
      forall i | 0 <= i < |spine| - 1 ensures spine[i] != spine[|spine| - 1] {
        ElementsDiffer(head, spine, i, |spine| - 1);
      }
      if size == 0 {
        head := newh;
      } else {
        tail.next := newh;
      }
      newh.next := null;
      tail := newh;
      size := size + 1;
      spine, Repr := spine + [newh], Repr + {newh};
    }

    /** Leaves `tail` alone, so it goes stale when the last element is unlinked. */
    method UnlinkHead() returns (tmp: Element)
      requires Valid() && head != null
      modifies this
      ensures Valid() && [tmp] + spine == old(spine) && Repr == old(Repr)
    {
      tmp := head;
      head := head.next;
      size := size - 1;
      spine := spine[1..];
    }

    /** All blocks of the queue, in the order in which q_free gives them back. */
    ghost function Owned(): seq<Block>
      reads this
    {
      Cells(spine) + [block]
    }
  }

  method New(h: Harness) returns (q: Queue?)
    requires h.Valid()
    modifies h, h.Repr
    ensures h.Valid() && (old(h.Clean()) ==> h.Clean())
    ensures unchanged(h`cautious, h`noAllocate, h`failProbability)
    ensures fresh(h.Repr - old(h.Repr))
    ensures q == null ==> h.live == old(h.live) && (h.noAllocate || !h.Reliable())
    ensures q != null ==> fresh(q) && q.Valid() && q.spine == [] && q.Repr == {}
                          && h.live == [q.block] + old(h.live) && q.block.payloadSize == 24
  {
    var b := h.Malloc(QUEUE_SIZE);
    if b == null {
      return null;
    }
    q := new Queue(b);
  }

  /** The two allocations that both inserts start with; on failure nothing stays allocated. */
  method NewElement(h: Harness, s: string) returns (e: Element?)
    requires h.Valid()
    modifies h, h.Repr
    ensures h.Valid() && (old(h.Clean()) ==> h.Clean())
    ensures unchanged(h`cautious, h`noAllocate, h`failProbability)
    ensures fresh(h.Repr - old(h.Repr))
    ensures e == null ==> h.live == old(h.live) && (h.noAllocate || !h.Reliable())
    ensures e != null ==> fresh(e) && e.value == s && e.next == null
                          && h.live == [e.valueBlock, e.block] + old(h.live)
                          && e.block.payloadSize == 16 && e.valueBlock.payloadSize == |s| + 1
  {
    var b := h.Malloc(ELEMENT_SIZE);
    if b == null {
      return null;
    }
    var v := h.Malloc(|s| + 1);
    if v == null {
      h.Free(b);
      return null;
    }
    e := new Element(b, v, s, null);
  }

  ghost function Spine(q: Queue?): seq<Element>
    reads q
  {
    if q == null then [] else q.spine
  }

  ghost function Elements(q: Queue?): set<Element>
    reads q
  {
    if q == null then {} else q.Repr
  }

  method InsertHead(h: Harness, q: Queue?, s: string) returns (ok: bool)
    requires h.Valid() && (q != null ==> q.Valid())
    modifies h, h.Repr, q
    ensures h.Valid() && (old(h.Clean()) ==> h.Clean())
    ensures unchanged(h`cautious, h`noAllocate, h`failProbability) && fresh(h.Repr - old(h.Repr))
    ensures q == null ==> !ok
    ensures q != null && !ok ==> h.noAllocate || !h.Reliable()
    ensures q != null ==> q.Valid() && fresh(q.Repr - old(q.Repr))
    ensures !ok ==> h.live == old(h.live) && Spine(q) == old(Spine(q))
    ensures ok ==>
              && |q.spine| > 0 && q.spine == [q.spine[0]] + old(q.spine)
              && fresh(q.spine[0]) && q.spine[0].value == s
              && h.live == [q.spine[0].valueBlock, q.spine[0].block] + old(h.live)
  {
    if q == null {
      return false;
    }
    var newh := NewElement(h, s);
    if newh == null {
      return false;
    }
    q.LinkHead(newh);
    return true;
  }

  method InsertTail(h: Harness, q: Queue?, s: string) returns (ok: bool)
    requires h.Valid() && (q != null ==> q.Valid())
    modifies h, h.Repr, q, Elements(q)
    ensures h.Valid() && (old(h.Clean()) ==> h.Clean())
    ensures unchanged(h`cautious, h`noAllocate, h`failProbability) && fresh(h.Repr - old(h.Repr))
    ensures q == null ==> !ok
    ensures q != null && !ok ==> h.noAllocate || !h.Reliable()
    ensures q != null ==> q.Valid() && fresh(q.Repr - old(q.Repr))
    ensures !ok ==> h.live == old(h.live) && Spine(q) == old(Spine(q))
    ensures ok ==>
              var n := old(|Spine(q)|);
              && |q.spine| == n + 1 && q.spine == old(Spine(q)) + [q.spine[n]]
              && fresh(q.spine[n]) && q.spine[n].value == s
              && h.live == [q.spine[n].valueBlock, q.spine[n].block] + old(h.live)
  {
    if q == null {
      return false;
    }
    var newh := NewElement(h, s);
    if newh == null {
      return false;
    }
    q.LinkTail(newh);
    return true;
  }

  /** What `strncpy(sp, s, n - 1); sp[n - 1] = '\0'` leaves in the first `n` places. */
  function Clipped(s: string, n: nat): (r: seq<char>)
    requires n > 0
  {
    seq(n, i requires 0 <= i < n => if i < |s| && i < n - 1 then s[i] else '\0')
  }

  /** As many characters as fit in front of a terminator, and terminators behind them. */
  lemma ClippedText(s: string, n: nat)
    requires n > 0
    ensures |Clipped(s, n)| == n
    ensures var k := if |s| < n - 1 then |s| else n - 1;
            Clipped(s, n)[..k] == s[..k] && forall i :: k <= i < n ==> Clipped(s, n)[i] == '\0'
  {}

  method CopyClipped(sp: array<char>, s: string, n: nat)
    requires 0 < n <= sp.Length
    modifies sp
    ensures sp[..n] == Clipped(s, n)
    ensures sp[n..] == old(sp[n..])
  {
    var i := 0;
    while i < n - 1
      invariant 0 <= i <= n - 1
      invariant forall k :: 0 <= k < i ==> sp[k] == Clipped(s, n)[k]
      invariant sp[n..] == old(sp[n..])
    {
      sp[i] := if i < |s| then s[i] else '\0';
      i := i + 1;
    }
    sp[n - 1] := '\0';
  }

  /** Gives back both blocks of an element. */
  method FreeElement(h: Harness, e: Element)
    requires h.Valid() && !h.noAllocate
    requires CanFree(h.live, [e.valueBlock, e.block])
    modifies h, h.Repr
    ensures h.Valid() && (old(h.Clean()) ==> h.Clean())
    ensures unchanged(h`cautious, h`noAllocate, h`failProbability) && h.Repr == old(h.Repr)
    ensures h.live == Without(Without(old(h.live), e.valueBlock), e.block)
  {
    assert [e.valueBlock, e.block][1..] == [e.block];
    h.Free(e.valueBlock);
    h.Free(e.block);
  }

  /** Copies out the first value and unlinks its element. */
  method TakeFirst(q: Queue, sp: array?<char>, bufsize: nat) returns (tmp: Element)
    requires q.Valid() && q.head != null
    requires sp != null ==> 0 < bufsize <= sp.Length
    modifies q, sp
    ensures q.Valid() && [tmp] + q.spine == old(q.spine) && q.Repr == old(q.Repr)
    ensures sp != null ==> sp[..bufsize] == Clipped(tmp.value, bufsize) && sp[bufsize..] == old(sp[bufsize..])
  {
    if sp != null {
      CopyClipped(sp, q.head.value, bufsize);
    }
    tmp := q.UnlinkHead();
  }

  method RemoveHead(h: Harness, q: Queue?, sp: array?<char>, bufsize: nat) returns (ok: bool)
    requires h.Valid() && !h.noAllocate
    requires q != null ==> q.Valid() && CanFree(h.live, q.Owned())
    requires sp != null ==> 0 < bufsize <= sp.Length
    modifies h, h.Repr, q, sp
    ensures h.Valid() && (old(h.Clean()) ==> h.Clean())
    ensures unchanged(h`cautious, h`noAllocate, h`failProbability) && h.Repr == old(h.Repr)
    ensures ok <==> old(Spine(q)) != []
    ensures q != null ==> q.Valid() && q.Repr == old(q.Repr)
    ensures !ok ==> h.live == old(h.live) && Spine(q) == [] && (sp != null ==> sp[..] == old(sp[..]))
    ensures ok ==>
              var e := old(Spine(q))[0];
              && [e] + q.spine == old(Spine(q))
              && h.live == Without(Without(old(h.live), e.valueBlock), e.block)
              && (sp != null ==> sp[..bufsize] == Clipped(e.value, bufsize) && sp[bufsize..] == old(sp[bufsize..]))
  {
    hide CanFree, Cells, Without, Linked, Clipped;
    if q == null {
      return false;
    }
    if q.head == null {
      return false;
    }
    FreeTwo(h.live, q.spine, [q.block]);
    var tmp := TakeFirst(q, sp, bufsize);
    FreeElement(h, tmp);
    return true;
  }

  method Size(q: Queue?) returns (n: int)
    requires q != null ==> q.Valid()
    ensures n == |Spine(q)|
  {
    if q != null && q.head != null {
      return q.size;
    }
    return 0;
  }

  /** Reverses the links in place: the same elements, none allocated or freed. */
  method Reverse(q: Queue?)
    requires q != null ==> q.Valid()
    modifies q, Elements(q)
    ensures q != null ==> q.Valid() && q.Repr == old(q.Repr)
    ensures Spine(q) == Reversed(old(Spine(q)))
    ensures |Spine(q)| == |old(Spine(q))|
    ensures forall i :: 0 <= i < |Spine(q)| ==> Spine(q)[i] == old(Spine(q))[|old(Spine(q))| - 1 - i]
  {
    if q != null && q.size > 1 {
      ghost var s := q.spine;
      forall i, j | 0 <= i < j < |s| ensures s[i] != s[j] {
        ElementsDiffer(q.head, s, i, j);
      }
      var current := q.head;
      var previous: Element? := null;
      q.tail := current;
      ghost var i := 0;
      while current != null
        invariant 0 <= i <= |s| && q.spine == s && q.Repr == old(q.Repr)
        invariant current == (if i < |s| then s[i] else null)
        invariant previous == (if i > 0 then s[i - 1] else null)
        invariant q.tail == s[0] && q.size == |s|
        invariant forall j {:trigger s[j].next} :: 0 <= j < i ==> s[j].next == if j > 0 then s[j - 1] else null
        invariant forall j {:trigger s[j].next} :: i <= j < |s| ==> s[j].next == if j + 1 < |s| then s[j + 1] else null
        decreases |s| - i
      {
        var next := current.next;
        current.next := previous;
        previous := current;
        current := next;
        i := i + 1;
      }
      q.head := previous;
      q.spine := Reversed(s);
    } else {
      assert Spine(q) == Reversed(Spine(q));
    }
  }

  /** Frees the elements one by one and then the queue itself. */
  method Free(h: Harness, q: Queue?)
    requires h.Valid() && !h.noAllocate
    requires q != null ==> q.Valid() && CanFree(h.live, q.Owned())
    modifies h, h.Repr
    ensures h.Valid() && (old(h.Clean()) ==> h.Clean())
    ensures unchanged(h`cautious, h`noAllocate, h`failProbability) && h.Repr == old(h.Repr)
    ensures h.live == if q == null then old(h.live) else FreeAll(old(h.live), q.Owned())
  {
    hide CanFree, FreeAll, Cells, Without, Linked;
    if q != null {
      var current := q.head;
      assert q.spine[0..] == q.spine;
      ghost var i := 0;
      while current != null
        invariant 0 <= i <= |q.spine| && current == if i < |q.spine| then q.spine[i] else null
        invariant h.Valid() && (old(h.Clean()) ==> h.Clean())
        invariant h.cautious == old(h.cautious) && !h.noAllocate
        invariant h.failProbability == old(h.failProbability) && h.Repr == old(h.Repr)
        invariant CanFree(h.live, Cells(q.spine[i..]) + [q.block])
        invariant FreeAll(h.live, Cells(q.spine[i..]) + [q.block]) == FreeAll(old(h.live), q.Owned())
        decreases |q.spine| - i
      {
        var temp := current.next;
        FreeTwo(h.live, q.spine[i..], [q.block]);
        assert q.spine[i..][0] == q.spine[i] && q.spine[i..][1..] == q.spine[i + 1..];
        FreeElement(h, current);
        current := temp;
        i := i + 1;
      }
      FreeLast(h.live, q.spine[i..], q.block);
      h.Free(q.block);
    }
  }

  lemma FreeLast(live: seq<Block>, spine: seq<Element>, b: Block)
    requires spine == [] && CanFree(live, Cells(spine) + [b])
    ensures b in live && FreeAll(live, Cells(spine) + [b]) == Without(live, b)
  {
    assert Cells(spine) + [b] == [b] && [b][1..] == [];
  }

  /** Freeing the first element's cells leaves the rest freeable. */
  lemma FreeTwo(live: seq<Block>, spine: seq<Element>, more: seq<Block>)
    requires spine != [] && CanFree(live, Cells(spine) + more)
    ensures CanFree(live, [spine[0].valueBlock, spine[0].block])
    ensures var after := Without(Without(live, spine[0].valueBlock), spine[0].block);
            && CanFree(after, Cells(spine[1..]) + more)
            && FreeAll(live, Cells(spine) + more) == FreeAll(after, Cells(spine[1..]) + more)
  {
    var v, b := spine[0].valueBlock, spine[0].block;
    var cells := Cells(spine) + more;
    assert cells[0] == v && cells[1..][0] == b;
    assert cells[1..][1..] == Cells(spine[1..]) + more;
    assert [v, b][1..] == [b];
  }
}
