/**
  The checking allocator of harness.c. Live blocks form a doubly linked list with marks in front
  of and behind each payload; freeing unlinks in constant time, after a cautious search.
 */
module Harnesses {
  const MAGIC_HEADER := 0xdeadbeef
  const MAGIC_FOOTER := 0xbeefdead
  const MAGIC_FREE := 0xffffffff

  /** The three marks differ, so a block that was freed is not taken for a live one. */
  lemma MarksDiffer(b: Block)
    ensures MAGIC_HEADER == 0xdeadbeef && MAGIC_FOOTER == 0xbeefdead && MAGIC_FREE == 0xffffffff
    ensures b.header == MAGIC_FREE ==> b.header != MAGIC_HEADER
    ensures b.footer == MAGIC_FREE ==> b.footer != MAGIC_FOOTER
  {}

  class Block {
    var next: Block?
    var prev: Block?
    const payloadSize: nat
    var header: int
    var footer: int

    constructor (size: nat)
      ensures payloadSize == size && header == MAGIC_HEADER && footer == MAGIC_FOOTER
    {
      payloadSize, header, footer := size, MAGIC_HEADER, MAGIC_FOOTER;
      next, prev := null, null;
    }
  }

  ghost predicate Distinct(s: seq<Block>) {
    forall i, j :: 0 <= i < j < |s| ==> s[i] != s[j]
  }

  /** `next` and `prev` are mutual along `blocks`, which starts at `first` and ends in null. */
  ghost predicate Linked(first: Block?, blocks: seq<Block>)
    reads blocks
  {
    && first == (if blocks == [] then null else blocks[0])
    && (forall i {:trigger blocks[i].next} :: 0 <= i < |blocks| ==>
          blocks[i].next == if i + 1 < |blocks| then blocks[i + 1] else null)
    && (forall i {:trigger blocks[i].prev} :: 0 <= i < |blocks| ==>
          blocks[i].prev == if i > 0 then blocks[i - 1] else null)
  }

  /** Mutual links cannot close a cycle: all blocks on the list differ. */
  lemma LinkedIsAcyclic(first: Block?, blocks: seq<Block>)
    requires Linked(first, blocks)
    ensures Distinct(blocks)
  {
    forall i, j | 0 <= i < j < |blocks| ensures blocks[i] != blocks[j] {
      LinkedDiffer(first, blocks, i, j);
    }
  }

  lemma {:induction false} LinkedDiffer(first: Block?, blocks: seq<Block>, i: nat, j: nat)
    requires Linked(first, blocks) && i < j < |blocks|
    ensures blocks[i] != blocks[j]
  {
    if i == 0 {
      assert blocks[i].prev != blocks[j].prev;
    } else {
      LinkedDiffer(first, blocks, i - 1, j - 1);
      assert blocks[i].prev != blocks[j].prev;
    }
  }

  function Next(blocks: seq<Block>, i: nat): Block? {
    if i + 1 < |blocks| then blocks[i + 1] else null
  }

  function Prev(blocks: seq<Block>, i: nat): Block? {
    if 0 < i <= |blocks| then blocks[i - 1] else null
  }

  /** Links that pass over one block link the others. */
  lemma Unlinked(first: Block?, blocks: seq<Block>, k: nat)
    requires k < |blocks|
    requires first == if k > 0 then blocks[0] else Next(blocks, 0)
    requires forall i {:trigger blocks[i].next} :: 0 <= i < |blocks| && i != k ==>
               blocks[i].next == if i + 1 == k then Next(blocks, k) else Next(blocks, i)
    requires forall i {:trigger blocks[i].prev} :: 0 <= i < |blocks| && i != k ==>
               blocks[i].prev == if i == k + 1 then Prev(blocks, k) else Prev(blocks, i)
    ensures Linked(first, blocks[..k] + blocks[k + 1..])
  {
    var rest := blocks[..k] + blocks[k + 1..];
    assert forall i :: 0 <= i < |rest| ==> rest[i] == blocks[if i < k then i else i + 1];
  }

  class Harness {
    var failProbability: int  // percent
    var first: Block?
    var allocatedCount: int
    var cautious: bool
    var noAllocate: bool
    var errorOccurred: bool

    ghost var live: seq<Block>  // live blocks, the most recent first
    ghost var Repr: set<Block>  // every block handed out so far

    ghost predicate Valid()
      reads this, Repr
    {
      && (forall i :: 0 <= i < |live| ==> live[i] in Repr)
      && Linked(first, live)
      && allocatedCount == |live|
    }

    /** No live block has lost a mark, and no error has been flagged since the last check. */
    ghost predicate Clean()
      reads this, Repr
    {
      && !errorOccurred
      && forall b :: b in live && b in Repr ==> b.header == MAGIC_HEADER && b.footer == MAGIC_FOOTER
    }

    constructor (failProbability: int)
      ensures Valid() && live == [] && Repr == {} && cautious && !noAllocate && Clean()
      ensures this.failProbability == failProbability
    {
      this.failProbability := failProbability;
      first, allocatedCount := null, 0;
      cautious, noAllocate, errorOccurred := true, false, false;
      live, Repr := [], {};
    }

    /** No allocation fails; a probability over 0 lets any of them fail. */
    predicate Reliable()
      reads this`failProbability
    {
      failProbability <= 0
    }

    /** fail_allocation() decides at random. */
    method FailAllocation() returns (fail: bool)
      ensures failProbability <= 0 ==> !fail
      ensures failProbability > 100 ==> fail
    {
      var weight: real :| 0.0 <= weight <= 1.0;
      fail := weight < 0.01 * failProbability as real;
    }

    method Malloc(size: nat) returns (b: Block?)
      requires Valid()
      modifies this, Repr
      ensures Valid() && unchanged(`cautious, `noAllocate, `failProbability, `errorOccurred)
      ensures noAllocate ==> b == null
      ensures b == null ==> noAllocate || failProbability > 0
      ensures failProbability > 100 ==> b == null
      ensures fresh(Repr - old(Repr)) && old(Repr) <= Repr
      ensures b == null ==> live == old(live)
      ensures b != null ==> fresh(b) && live == [b] + old(live) && b.payloadSize == size
      ensures old(Clean()) ==> Clean()
    {
      if noAllocate {
        return null;
      }
      var fail := FailAllocation();
      if fail {
        return null;
      }
      b := new Block(size);
      Repr := Repr + {b};
      Prepend(b);
    }

    method Prepend(b: Block)
      requires Valid() && b !in live && b in Repr
      modifies this`first, this`allocatedCount, this`live, Repr, b
      ensures Valid() && live == [b] + old(live)
      ensures forall x :: x in Repr ==> x.header == old(x.header) && x.footer == old(x.footer)
    {
      LinkedIsAcyclic(first, live);
      b.next := first;
      b.prev := null;
      if first != null {
        first.prev := b;
      }
      first := b;
      allocatedCount := allocatedCount + 1;
      live := [b] + live;
    }

    /** The cautious search of find_header, which walks the list and tests each block. */
    method Search(b: Block) returns (found: bool)
      requires Valid()
      ensures found <==> b in live
    {
      var ab := first;
      found := false;
      ghost var i := 0;
      while ab != null && !found
        invariant 0 <= i <= |live|
        invariant ab == if i < |live| then live[i] else null
        invariant found ==> i > 0 && live[i - 1] == b
        invariant !found ==> b !in live[..i]
        decreases |live| - i
      {
        assert live[..i + 1] == live[..i] + [live[i]];
        found := ab == b;
        ab := ab.next;
        i := i + 1;
      }
      if !found {
        assert live[..i] == live;
      }
    }

    /** An error is flagged for a block that is not live, or that has lost its header mark. */
    method FindHeader(b: Block)
      requires Valid()
      modifies this`errorOccurred
      ensures errorOccurred <==> old(errorOccurred) || (cautious && b !in live) || b.header != MAGIC_HEADER
    {
      if cautious {
        var found := Search(b);
        if !found {
          errorOccurred := true;
        }
      }
      if b.header != MAGIC_HEADER {
        errorOccurred := true;
      }
    }

    /** Freeing NULL is an error, and so is a lost mark; in no-allocate mode nothing is freed at all. */
    method Free(b: Block?)
      requires Valid()
      requires b != null ==> b in live
      modifies this, Repr
      ensures Valid() && unchanged(`cautious, `noAllocate, `failProbability)
      ensures errorOccurred ==
              (old(errorOccurred)
               || (!noAllocate && (b == null || old(b.header != MAGIC_HEADER || b.footer != MAGIC_FOOTER))))
      ensures b == null || noAllocate ==> live == old(live)
      ensures b != null && !noAllocate ==>
                && live == Without(old(live), b)
                && b.header == MAGIC_FREE && b.footer == MAGIC_FREE
      ensures Repr == old(Repr)
      ensures old(Clean()) && b != null ==> Clean()
    {
      if noAllocate {
        return;
      }
      if b == null {
        errorOccurred := true;
        return;
      }
      CheckBlock(b);
      Release(b);
    }

    /** What is found out about a block, live or not, before it is freed. */
    method CheckBlock(b: Block)
      requires Valid()
      modifies this`errorOccurred
      ensures errorOccurred == (old(errorOccurred) || (cautious && b !in live)
                                || b.header != MAGIC_HEADER || b.footer != MAGIC_FOOTER)
    {
      FindHeader(b);
      if b.footer != MAGIC_FOOTER {
        errorOccurred := true;
      }
    }

    method AllocationCheck() returns (n: int)
      requires Valid()
      ensures n == |live|
    {
      n := allocatedCount;
    }

    /** Reports whether an error occurred since the last call, and forgets it. */
    method ErrorCheck() returns (e: bool)
      modifies this`errorOccurred
      ensures e == old(errorOccurred) && !errorOccurred
    {
      e := errorOccurred;
      errorOccurred := false;
    }

    /** Overwrites the marks of a live block and takes it off the list. */
    method Release(b: Block)
      requires Valid() && b in live
      modifies this`first, this`allocatedCount, this`live, Repr
      ensures Valid() && live == Without(old(live), b)
      ensures b.header == MAGIC_FREE && b.footer == MAGIC_FREE
      ensures forall i :: 0 <= i < |live| ==>
                var x := live[i]; x in old(live) && x.header == old(x.header) && x.footer == old(x.footer)
    {
      hide Without;
      ghost var k :| 0 <= k < |live| && live[k] == b;
      LinkedIsAcyclic(first, live);
      WithoutAt(live, k);
      b.header, b.footer := MAGIC_FREE, MAGIC_FREE;
      Unlink(b, k);
    }

    method Unlink(b: Block, ghost k: nat)
      requires Valid() && k < |live| && live[k] == b
      modifies this`first, this`allocatedCount, this`live, Repr
      ensures Valid() && live == old(live)[..k] + old(live)[k + 1..]
      ensures b !in live && forall i :: 0 <= i < |live| ==> live[i] in old(live)
      ensures forall x :: x in old(live) ==> x.header == old(x.header) && x.footer == old(x.footer)
    {
      LinkedIsAcyclic(first, live);
      var bn := b.next;
      var bp := b.prev;
      if bp != null {
        bp.next := bn;
      } else {
        first := bn;
      }
      if bn != null {
        bn.prev := bp;
      }
      allocatedCount := allocatedCount - 1;
      Unlinked(first, live, k);
      live := live[..k] + live[k + 1..];
    }
  }

  /** The blocks of `s` in the same order, less the first occurrence of `b`. */
  ghost function Without(s: seq<Block>, b: Block): seq<Block> {
    if s == [] then []
    else if s[0] == b then s[1..]
    else [s[0]] + Without(s[1..], b)
  }

  lemma {:induction false} WithoutAt(s: seq<Block>, k: nat)
    requires k < |s| && Distinct(s)
    ensures Without(s, s[k]) == s[..k] + s[k + 1..]
  {
    if k > 0 {
      WithoutAt(s[1..], k - 1);
      Shift(s, k);
    }
  }

  lemma Shift(s: seq<Block>, k: nat)
    requires 0 < k < |s|
    ensures [s[0]] + (s[1..][..k - 1] + s[1..][k..]) == s[..k] + s[k + 1..]
  {
    assert s[..k] == [s[0]] + s[1..][..k - 1];
    assert s[1..][k..] == s[k + 1..];
  }

  /** Every one of `cells` is live at the moment it is freed, if they are freed in this order. */
  ghost predicate CanFree(live: seq<Block>, cells: seq<Block>)
    decreases |cells|
  {
    cells == [] || (cells[0] in live && CanFree(Without(live, cells[0]), cells[1..]))
  }

  ghost function FreeAll(live: seq<Block>, cells: seq<Block>): seq<Block>
    decreases |cells|
  {
    if cells == [] then live else FreeAll(Without(live, cells[0]), cells[1..])
  }

  lemma {:induction false} FreeAllCount(live: seq<Block>, cells: seq<Block>)
    requires CanFree(live, cells)
    ensures |FreeAll(live, cells)| == |live| - |cells|
    decreases |cells|
  {
    if cells != [] {
      WithoutCount(live, cells[0]);
      FreeAllCount(Without(live, cells[0]), cells[1..]);
    }
  }

  lemma {:induction false} WithoutCount(s: seq<Block>, b: Block)
    requires b in s
    ensures |Without(s, b)| == |s| - 1
  {
    if s[0] != b {
      WithoutCount(s[1..], b);
    }
  }

  /** A multiset of blocks: the order of a list forgotten. */
  ghost function Bag(s: seq<Block>): multiset<Block> {
    if s == [] then multiset{} else multiset{s[0]} + Bag(s[1..])
  }

  lemma {:induction false} BagConcat(a: seq<Block>, b: seq<Block>)
    ensures Bag(a + b) == Bag(a) + Bag(b)
  {
    if a == [] {
      assert a + b == b;
    } else {
      assert (a + b)[1..] == a[1..] + b;
      BagConcat(a[1..], b);
    }
  }

  lemma {:induction false} BagMember(s: seq<Block>, b: Block)
    ensures b in Bag(s) <==> b in s
  {
    if s != [] {
      BagMember(s[1..], b);
      assert b in s <==> b == s[0] || b in s[1..];
    }
  }

  lemma {:induction false} BagWithout(s: seq<Block>, b: Block)
    requires b in s
    ensures Bag(Without(s, b)) == Bag(s) - multiset{b}
  {
    if s[0] == b {
      Dropped(Bag(s[1..]), b, b);
    } else {
      var rest := Without(s[1..], b);
      BagWithout(s[1..], b);
      BagConcat([s[0]], rest);
      BagMember(s[1..], b);
      Dropped(Bag(s[1..]), b, s[0]);
      assert Bag([s[0]]) == multiset{s[0]} + Bag([]);
    }
  }

  lemma Dropped(m: multiset<Block>, b: Block, x: Block)
    requires x == b || b in m
    ensures x == b ==> (multiset{x} + m) - multiset{b} == m
    ensures x != b ==> (multiset{x} + m) - multiset{b} == multiset{x} + (m - multiset{b})
  {}

  /** The order of freeing is immaterial: only the multiset of cells decides. */
  lemma {:induction false} CanFreeBag(live: seq<Block>, cells: seq<Block>)
    ensures CanFree(live, cells) <==> Bag(cells) <= Bag(live)
    decreases |cells|
  {
    if cells != [] {
      var c := cells[0];
      BagMember(live, c);
      if c in live {
        BagWithout(live, c);
        CanFreeBag(Without(live, c), cells[1..]);
        SubBag(Bag(cells[1..]), Bag(live), c);
      } else {
        assert c in Bag(cells);
      }
    }
  }

  lemma SubBag(a: multiset<Block>, m: multiset<Block>, c: Block)
    requires c in m
    ensures multiset{c} + a <= m <==> a <= m - multiset{c}
  {
    if a <= m - multiset{c} {
      assert m == multiset{c} + (m - multiset{c});
    }
    if multiset{c} + a <= m {
      assert forall x :: (multiset{c} + a)[x] <= m[x];
    }
  }
}
