/**
  The commands of qtest.c, which drive the string queue and keep a shadow count of its length.
  Timeouts and signals are not modelled: every operation runs to its end.
 */
module QTests {
  import opened CStrings
  import opened Wrappers
  import opened Harnesses
  import opened StringQueues

  const STRING_PAD := 1024

  function Truncated(s: string, n: nat): string {
    if |s| <= n then s else s[..n]
  }

  /** What a buffer of `n` characters gives back: a prefix of the string, at most `n - 1` characters long. */
  lemma CStringOfClipped(s: string, n: nat, rest: seq<char>)
    requires n > 0 && NulFree(s)
    ensures CString(Clipped(s, n) + rest) == Truncated(s, n - 1)
    ensures var t := CString(Clipped(s, n) + rest);
            t <= s && |t| == if |s| < n - 1 then |s| else n - 1
  {
    hide CString;
    var buf, t := Clipped(s, n) + rest, Truncated(s, n - 1);
    assert buf[..|t|] == t;
    assert buf == t + buf[|t|..];
    assert buf[|t|..][0] == '\0';
    CStringOf(t, buf[|t|..]);
    NoText(buf[|t|..]);
    assert t + "" == t;
  }

  lemma ClippedBuffer(buf: seq<char>, s: string, n: nat)
    requires 0 < n <= |buf| && buf[..n] == Clipped(s, n) && NulFree(s)
    ensures CString(buf) == Truncated(s, n - 1) && (CString(buf) == "" <==> buf[0] == '\0')
  {
    hide Clipped, Truncated, CString;
    assert buf == buf[..n] + buf[n..];
    CStringOfClipped(s, n, buf[n..]);
  }

  lemma Halves(buf: seq<char>, clip: seq<char>, tail: seq<char>)
    requires buf == clip + tail && tail != []
    ensures buf[..|clip|] == clip && buf[|clip|] == tail[0]
  {}

  lemma NoText(buf: seq<char>)
    requires buf != [] && buf[0] == '\0'
    ensures CString(buf) == ""
  {}

  function Copies(x: string, k: nat): (r: seq<string>) { seq(k, _ => x) }

  lemma CopiesNone(x: string, s: seq<string>)
    ensures Copies(x, 0) + s == s && s + Copies(x, 0) == s
  {}

  lemma CopiesNext(x: string, k: nat, s: seq<string>)
    ensures [x] + (Copies(x, k) + s) == Copies(x, k + 1) + s
    ensures (s + Copies(x, k)) + [x] == s + Copies(x, k + 1)
  {}

  datatype Command =
    | New
    | Free
    | InsertHead(s: string, reps: int)
    | InsertTail(s: string, reps: int)
    | RemoveHead(expected: Option<string>)
    | RemoveHeadQuiet
    | Reverse
    | Size(reps: int)
    | SetLength(length: nat)
    | SetMalloc(probability: int)
    | SetFail(limit: int)

  predicate WellFormed(c: Command) {
    match c
    case InsertHead(s, _) => NulFree(s)
    case InsertTail(s, _) => NulFree(s)
    case RemoveHead(Some(s)) => NulFree(s)
    case _ => true
  }

  function Repetitions(reps: int): nat { if reps > 0 then reps else 0 }

  function Removed(contents: Option<seq<string>>): Option<seq<string>> {
    if IsEmpty(contents) then contents else Some(contents.value[1..])
  }

  predicate IsEmpty(contents: Option<seq<string>>) { contents.None? || contents.value == [] }

  function Length(contents: Option<seq<string>>): nat { if contents.None? then 0 else |contents.value| }

  /**
    What a command may do to the queue seen as `None` (no queue) or a sequence of strings.
    Unless the allocator is reliable, `New` may find no memory and an insertion command may fall
    short of its repetitions.
   */
  ghost predicate Follows(before: Option<seq<string>>, c: Command, after: Option<seq<string>>, reliable: bool) {
    match c
    case New => (after == None && !reliable) || after == Some([])
    case Free => after == None
    case InsertHead(s, reps) =>
      if before.None? then after == None
      else exists k: nat :: k <= Repetitions(reps) && (reliable ==> k == Repetitions(reps))
                            && after == Some(Copies(s, k) + before.value)
    case InsertTail(s, reps) =>
      if before.None? then after == None
      else exists k: nat :: k <= Repetitions(reps) && (reliable ==> k == Repetitions(reps))
                            && after == Some(before.value + Copies(s, k))
    case Reverse => if before.None? then after == None else after == Some(Reversed(before.value))
    case RemoveHead(_) => after == Removed(before)
    case RemoveHeadQuiet => after == Removed(before)
    case _ => after == before
  }

  /** Blocks in use: one for the queue and two for each element. */
  function BlockCount(contents: Option<seq<string>>): nat {
    if contents.None? then 0 else 1 + 2 * |contents.value|
  }

  /** The parameters that the option command sets. */
  datatype Setup = Setup(failProbability: int, failLimit: int, stringLength: nat) {
    predicate Reliable() { failProbability <= 0 }
  }

  /** What can be observed between two commands. */
  datatype Snapshot =
    Snapshot(contents: Option<seq<string>>, count: int, blocks: int, failures: int, setup: Setup)

  predicate Consistent(s: Snapshot) {
    && s.count == Length(s.contents)
    && s.blocks == BlockCount(s.contents)
  }

  /** What a command sees of a removed string: as much as its buffer holds. */
  function Seen(s: string, setup: Setup): string { Truncated(s, setup.stringLength) }

  /** The result that a command reports when the failures amount to `failures` after it. */
  predicate Verdict(before: Snapshot, c: Command, failures: int) {
    match c
    case InsertHead(_, _) => failures == before.failures || failures < before.setup.failLimit
    case InsertTail(_, _) => failures == before.failures || failures < before.setup.failLimit
    case RemoveHead(expected) =>
      if IsEmpty(before.contents) then expected.None? && failures < before.setup.failLimit
      else
        var seen := Seen(before.contents.value[0], before.setup);
        seen != "" && (expected.Some? ==> seen == Seen(expected.value, before.setup))
    case RemoveHeadQuiet => !IsEmpty(before.contents) || failures < before.setup.failLimit
    case Size(reps) => reps > 0 || IsEmpty(before.contents)
    case _ => true
  }

  /** The failure count at which an insertion command stops. */
  function FirstAtLimit(failures: int, limit: int): int { if failures + 1 < limit then limit else failures + 1 }

  /** An insertion command that stops early has hit the failure limit. */
  predicate Accounts(before: Snapshot, reps: int, after: Snapshot, ok: bool) {
    var inserted, failed := Length(after.contents) - Length(before.contents), after.failures - before.failures;
    && failed >= 0 && inserted + failed <= Repetitions(reps) && (ok ==> inserted + failed == Repetitions(reps))
    && (!ok ==> after.failures == FirstAtLimit(before.failures, before.setup.failLimit))
  }

  /** The failures a command counts, the parameters it sets and the result it reports. */
  predicate Reports(before: Snapshot, c: Command, after: Snapshot, ok: bool) {
    && ok == Verdict(before, c, after.failures)
    && (match c
        case InsertHead(_, reps) => Accounts(before, reps, after, ok)
        case InsertTail(_, reps) => Accounts(before, reps, after, ok)
        case RemoveHead(_) => after.failures == before.failures + if IsEmpty(before.contents) then 1 else 0
        case RemoveHeadQuiet => after.failures == before.failures + if IsEmpty(before.contents) then 1 else 0
        case _ => after.failures == before.failures)
    && after.setup ==
       match c
       case SetLength(n) => before.setup.(stringLength := n)
       case SetMalloc(p) => before.setup.(failProbability := p)
       case SetFail(n) => before.setup.(failLimit := n)
       case _ => before.setup
  }

  lemma RemovalReports(before: Snapshot, expected: Option<string>, after: Snapshot, ok: bool)
    requires after.setup == before.setup
    requires after.failures == before.failures + if IsEmpty(before.contents) then 1 else 0
    requires
      if IsEmpty(before.contents) then ok == (expected.None? && after.failures < before.setup.failLimit)
      else
        var seen := Truncated(before.contents.value[0], before.setup.stringLength);
        ok == (seen != "" && (expected.Some? ==> seen == Truncated(expected.value, before.setup.stringLength)))
    ensures Reports(before, RemoveHead(expected), after, ok)
  {}

  ghost predicate IsStep(before: Snapshot, c: Command, after: Snapshot, ok: bool) {
    && Follows(before.contents, c, after.contents, before.setup.Reliable())
    && Reports(before, c, after, ok)
    && Consistent(after)
  }

  ghost predicate IsRun(trace: seq<Snapshot>, commands: seq<Command>, results: seq<bool>) {
    && |trace| == |commands| + 1 && |results| == |commands|
    && Consistent(trace[0])
    && forall i :: 0 <= i < |commands| ==> IsStep(trace[i], commands[i], trace[i + 1], results[i])
  }

  // ---- What single steps amount to -----------------------------------------------

  /** An insertion at the head: equal strings in front, as many as were counted, and the queue behind them. */
  lemma InsertHeadStep(before: Snapshot, s: string, reps: int, after: Snapshot, ok: bool)
    requires IsStep(before, InsertHead(s, reps), after, ok)
    ensures before.contents == None ==>
              after.contents == None && (ok ==> after.failures - before.failures == if reps < 0 then 0 else reps)
    ensures before.contents.Some? ==>
              && after.contents.Some?
              && var q, t := before.contents.value, after.contents.value;
                 var k := |t| - |q|;
                 && 0 <= k <= (if reps < 0 then 0 else reps)
                 && (forall i :: 0 <= i < k ==> t[i] == s) && t[k..] == q
                 && (before.setup.failProbability <= 0 ==> k == if reps < 0 then 0 else reps)
                 && (ok ==> k + after.failures - before.failures == if reps < 0 then 0 else reps)
  {
    if before.contents.Some? {
      var k: nat :| k <= Repetitions(reps) && (before.setup.Reliable() ==> k == Repetitions(reps))
                    && after.contents == Some(Copies(s, k) + before.contents.value);
      assert (Copies(s, k) + before.contents.value)[k..] == before.contents.value;
    }
  }

  /** An insertion at the tail is its mirror image. */
  lemma InsertTailStep(before: Snapshot, s: string, reps: int, after: Snapshot, ok: bool)
    requires IsStep(before, InsertTail(s, reps), after, ok)
    ensures before.contents == None ==>
              after.contents == None && (ok ==> after.failures - before.failures == if reps < 0 then 0 else reps)
    ensures before.contents.Some? ==>
              && after.contents.Some?
              && var q, t := before.contents.value, after.contents.value;
                 var k := |t| - |q|;
                 && 0 <= k <= (if reps < 0 then 0 else reps)
                 && (forall i :: |q| <= i < |t| ==> t[i] == s) && t[..|q|] == q
                 && (before.setup.failProbability <= 0 ==> k == if reps < 0 then 0 else reps)
                 && (ok ==> k + after.failures - before.failures == if reps < 0 then 0 else reps)
  {
    if before.contents.Some? {
      var k: nat :| k <= Repetitions(reps) && (before.setup.Reliable() ==> k == Repetitions(reps))
                    && after.contents == Some(before.contents.value + Copies(s, k));
      assert (before.contents.value + Copies(s, k))[..|before.contents.value|] == before.contents.value;
    }
  }

  /** An insertion command reports an error exactly when it counted a failure at or past the limit. */
  lemma InsertionVerdict(before: Snapshot, s: string, reps: int, after: Snapshot, ok: bool)
    requires IsStep(before, InsertHead(s, reps), after, ok) || IsStep(before, InsertTail(s, reps), after, ok)
    ensures ok <==> after.failures == before.failures || after.failures < before.setup.failLimit
    ensures after.failures >= before.failures && after.setup == before.setup
    ensures !ok ==>
              var f := before.failures + 1;
              after.failures == if f < before.setup.failLimit then before.setup.failLimit else f
  {}

  /** A removal drops the first string, and counts a failure exactly when there is none. */
  lemma RemovalStep(before: Snapshot, c: Command, after: Snapshot, ok: bool)
    requires IsStep(before, c, after, ok) && (c.RemoveHead? || c.RemoveHeadQuiet?)
    ensures before.contents == None || before.contents == Some([]) ==>
              after.contents == before.contents && after.failures == before.failures + 1
    ensures before.contents.Some? && before.contents.value != [] ==>
              after.contents == Some(before.contents.value[1..]) && after.failures == before.failures
    ensures after.setup == before.setup
  {}

  /** What a removal reports: the first string, cut to the length of the buffer, is compared and must not be empty. */
  lemma RemovalVerdict(before: Snapshot, c: Command, after: Snapshot, ok: bool)
    requires IsStep(before, c, after, ok)
    ensures c.RemoveHeadQuiet? ==>
              (ok <==> before.contents !in {None, Some([])} || before.failures + 1 < before.setup.failLimit)
    ensures c.RemoveHead? && before.contents in {None, Some([])} ==>
              (ok <==> c.expected == None && before.failures + 1 < before.setup.failLimit)
    ensures c.RemoveHead? && before.contents !in {None, Some([])} ==>
              var v, n := before.contents.value[0], before.setup.stringLength;
              ok <==> v != "" && n > 0 && (c.expected.Some? ==> AgreeUpTo(v, c.expected.value, n))
  {
    if c.RemoveHead? && c.expected.Some? && before.contents !in {None, Some([])} {
      TruncatedAgree(before.contents.value[0], c.expected.value, before.setup.stringLength);
    }
  }

  /** The strings are equal, or agree on their first `n` characters. */
  predicate AgreeUpTo(a: string, b: string, n: nat) {
    a == b || (|a| >= n && |b| >= n && a[..n] == b[..n])
  }

  lemma TruncatedAgree(a: string, b: string, n: nat)
    ensures Truncated(a, n) == Truncated(b, n) <==> AgreeUpTo(a, b, n)
  {
    assert |a| <= n ==> a[..|a|] == a;
    if |a| > n && |b| == n {
      assert b[..n] == b;
    }
    if |a| == n && |b| > n {
      assert a[..n] == a;
    }
    if |a| == n && |b| == n {
      assert a[..n] == a && b[..n] == b;
    }
  }

  /** The remaining commands: their effect, their result, and what they leave as it was. */
  lemma OtherSteps(before: Snapshot, c: Command, after: Snapshot, ok: bool)
    requires IsStep(before, c, after, ok)
    ensures c.New? ==>
              ok && (after.contents == Some([]) || (after.contents == None && before.setup.failProbability > 0))
    ensures c.Free? ==> ok && after.contents == None && after.blocks == 0 && after.count == 0
    ensures c.Reverse? && before.contents == None ==> after.contents == None
    ensures c.Reverse? && before.contents.Some? ==>
              && after.contents.Some?
              && var q, t := before.contents.value, after.contents.value;
                 ok && |t| == |q| && forall i :: 0 <= i < |q| ==> t[i] == q[|q| - 1 - i]
    ensures c.Size? ==>
              after.contents == before.contents && (ok <==> c.reps > 0 || before.contents in {None, Some([])})
    ensures c.SetLength? ==> ok && after.contents == before.contents && after.setup.stringLength == c.length
                             && after.setup.failLimit == before.setup.failLimit
                             && after.setup.failProbability == before.setup.failProbability
    ensures c.SetMalloc? ==> ok && after.contents == before.contents && after.setup.failProbability == c.probability
                             && after.setup.failLimit == before.setup.failLimit
                             && after.setup.stringLength == before.setup.stringLength
    ensures c.SetFail? ==> ok && after.contents == before.contents && after.setup.failLimit == c.limit
                           && after.setup.failProbability == before.setup.failProbability
                           && after.setup.stringLength == before.setup.stringLength
    ensures after.blocks == (if after.contents == None then 0 else 1 + 2 * |after.contents.value|)
    ensures after.count == if after.contents == None then 0 else |after.contents.value|
  {}

  lemma ExtendRun(trace: seq<Snapshot>, commands: seq<Command>, results: seq<bool>,
                  c: Command, next: Snapshot, ok: bool)
    requires IsRun(trace, commands, results) && IsStep(trace[|commands|], c, next, ok)
    ensures IsRun(trace + [next], commands + [c], results + [ok])
  {
    hide IsStep;
  }

  /** What a command does to the queue when no allocation fails. */
  function Ideal(contents: Option<seq<string>>, c: Command): Option<seq<string>> {
    match c
    case New => Some([])
    case Free => None
    case InsertHead(s, reps) =>
      if contents.None? then None else Some(Copies(s, Repetitions(reps)) + contents.value)
    case InsertTail(s, reps) =>
      if contents.None? then None else Some(contents.value + Copies(s, Repetitions(reps)))
    case RemoveHead(_) => Removed(contents)
    case RemoveHeadQuiet => Removed(contents)
    case Reverse => if contents.None? then None else Some(Reversed(contents.value))
    case _ => contents
  }

  function IdealRun(contents: Option<seq<string>>, commands: seq<Command>): Option<seq<string>> {
    if commands == [] then contents
    else Ideal(IdealRun(contents, commands[..|commands| - 1]), commands[|commands| - 1])
  }

  /** A reliable run, in which no option lets allocations fail, is one in which each command has its whole effect. */
  lemma {:induction false} ReliableRun(trace: seq<Snapshot>, commands: seq<Command>, results: seq<bool>)
    requires IsRun(trace, commands, results) && trace[0].setup.failProbability <= 0
    requires forall i :: 0 <= i < |commands| && commands[i].SetMalloc? ==> commands[i].probability <= 0
    ensures trace[|commands|].contents == IdealRun(trace[0].contents, commands)
    ensures trace[|commands|].setup.failProbability <= 0
  {
    var last := |commands| - 1;
    if last >= 0 {
      assert IsRun(trace[..last + 1], commands[..last], results[..last]);
      ReliableRun(trace[..last + 1], commands[..last], results[..last]);
      assert IsStep(trace[last], commands[last], trace[last + 1], results[last]);
    }
  }

  /** `free`, `new` and `reverse` never report a leak or an error in any run, and `size` no mismatch once it counts. */
  lemma NeverReported(trace: seq<Snapshot>, commands: seq<Command>, results: seq<bool>, i: nat)
    requires IsRun(trace, commands, results) && i < |commands|
    ensures commands[i].Free? || commands[i].New? || commands[i].Reverse? ==> results[i]
    ensures commands[i].Size? ==> (results[i] <==> commands[i].reps > 0 || trace[i].count == 0)
  {
    assert IsStep(trace[i], commands[i], trace[i + 1], results[i]);
    assert Consistent(trace[i]) by {
      if i > 0 {
        assert IsStep(trace[i - 1], commands[i - 1], trace[i], results[i - 1]);
      }
    }
  }

  lemma OnlyQueueBlock(b: Block)
    ensures CanFree([b] + [], Cells([]) + [b]) && Values([]) == []
  {
    assert Cells([]) + [b] == [b] && [b][1..] == [];
  }

  lemma HeadCells(spine: seq<Element>, last: seq<Block>, e: Element)
    ensures Cells([e] + spine) + last == [e.valueBlock, e.block] + (Cells(spine) + last)
  {
    assert ([e] + spine)[1..] == spine;
  }

  lemma CanFreeMore(live: seq<Block>, cells: seq<Block>, more: seq<Block>)
    requires CanFree(live, cells)
    ensures CanFree(more + live, more + cells)
  {
    hide CanFree, Bag;
    CanFreeBag(live, cells);
    BagConcat(more, live);
    BagConcat(more, cells);
    CanFreeBag(more + live, more + cells);
  }

  lemma CanFreeHead(live: seq<Block>, spine: seq<Element>, last: seq<Block>, e: Element)
    requires CanFree(live, Cells(spine) + last)
    ensures CanFree([e.valueBlock, e.block] + live, Cells([e] + spine) + last)
  {
    hide CanFree, Bag, Cells;
    CanFreeMore(live, Cells(spine) + last, [e.valueBlock, e.block]);
    HeadCells(spine, last, e);
  }

  lemma FreeTwoCount(live: seq<Block>, e: Element)
    requires CanFree(live, [e.valueBlock, e.block])
    ensures |Without(Without(live, e.valueBlock), e.block)| == |live| - 2
  {
    assert [e.valueBlock, e.block][1..] == [e.block];
    WithoutCount(live, e.valueBlock);
    WithoutCount(Without(live, e.valueBlock), e.block);
  }

  lemma CanFreeTail(live: seq<Block>, spine: seq<Element>, last: seq<Block>, e: Element)
    requires CanFree(live, Cells(spine) + last)
    ensures CanFree([e.valueBlock, e.block] + live, Cells(spine + [e]) + last)
  {
    hide CanFree, Bag, Cells;
    CanFreeHead(live, spine, last, e);
    var more := [e.valueBlock, e.block];
    CellsBag([e], spine);
    CellsBag(spine, [e]);
    BagConcat(Cells([e] + spine), last);
    BagConcat(Cells(spine + [e]), last);
    CanFreeBag(more + live, Cells([e] + spine) + last);
    CanFreeBag(more + live, Cells(spine + [e]) + last);
  }

  lemma CanFreeReversed(live: seq<Block>, spine: seq<Element>, last: seq<Block>)
    requires CanFree(live, Cells(spine) + last)
    ensures CanFree(live, Cells(Reversed(spine)) + last)
  {
    hide CanFree, Bag, Cells, Reversed;
    CanFreeBag(live, Cells(spine) + last);
    BagConcat(Cells(spine), last);
    CellsReversed(spine);
    BagConcat(Cells(Reversed(spine)), last);
    CanFreeBag(live, Cells(Reversed(spine)) + last);
  }

  lemma ReversedFacts(spine: seq<Element>)
    ensures Values(Reversed(spine)) == Reversed(Values(spine)) && |Reversed(spine)| == |spine|
    ensures (forall i :: 0 <= i < |spine| ==> NulFree(spine[i].value)) ==>
              forall i :: 0 <= i < |Reversed(spine)| ==> NulFree(Reversed(spine)[i].value)
  {
    hide NulFree;
  }

  class QTest {
    const h: Harness
    var q: Queue?
    var qcnt: int
    var failCount: int
    var failLimit: int
    var stringLength: nat
    var bigQueueSize: int

    /** The shadow count is the length, and the allocator holds exactly the queue's blocks. */
    ghost predicate Valid()
      reads this, h, h.Repr, q, Elements(q)
    {
      Conserved() && qcnt == |Spine(q)|
    }

    ghost predicate Conserved()
      reads this, h, h.Repr, q, Elements(q)
    {
      && h.Valid() && h.Clean() && h.cautious && !h.noAllocate
      && (q == null ==> h.live == [])
      && (q != null ==> q.Valid() && CanFree(h.live, q.Owned()) && |h.live| == 1 + 2 * |q.spine|)
      && forall i :: 0 <= i < |Spine(q)| ==> NulFree(Spine(q)[i].value)
    }

    ghost function Contents(): Option<seq<string>>
      reads this, q
    {
      if q == null then None else Some(Values(q.spine))
    }

    ghost function Settings(): Setup
      reads this, h
    {
      Setup(h.failProbability, failLimit, stringLength)
    }

    /** What can be observed now. */
    ghost function Observe(): Snapshot
      reads this, h, q
    {
      Snapshot(Contents(), qcnt, h.allocatedCount, failCount, Settings())
    }

    constructor (failProbability: int)
      ensures Valid() && q == null && fresh(h) && fresh(h.Repr)
      ensures Settings() == Setup(failProbability, 30, 1024) && failCount == 0
    {
      h := new Harness(failProbability);
      q, qcnt, failCount, failLimit, stringLength, bigQueueSize := null, 0, 0, 30, 1024, 30;
    }

    /** Big queues are freed without the cautious search. */
    method ReleaseQueue()
      requires Valid()
      modifies h, h.Repr
      ensures h.Valid() && h.Clean() && h.cautious && !h.noAllocate && h.live == [] && h.Repr == old(h.Repr)
      ensures unchanged(h`failProbability)
    {
      if q != null {
        FreeAllCount(h.live, q.Owned());
        CellsCount(q.spine);
      }
      if qcnt > bigQueueSize {
        h.cautious := false;
      }
      StringQueues.Free(h, q);
      h.cautious := true;
    }

    /** Never reports a leak or an allocation error. */
    method DoFree() returns (ok: bool)
      requires Valid()
      modifies this`q, this`qcnt, h, h.Repr
      ensures Valid() && ok && q == null && h.Repr == old(h.Repr)
      ensures unchanged(h`failProbability)
      ensures Reports(old(Observe()), Free, Observe(), ok)
    {
      ok := true;
      ReleaseQueue();
      q, qcnt := null, 0;
      var bcnt := h.AllocationCheck();
      if bcnt > 0 {
        ok := false;
      }
      var e := h.ErrorCheck();
      ok := ok && !e;
    }

    /** q_new on an allocator without live blocks, and the reset of the shadow count. */
    method StartQueue()
      requires Valid() && q == null
      modifies this`q, this`qcnt, h, h.Repr
      ensures Valid() && fresh(h.Repr - old(h.Repr))
      ensures unchanged(h`failProbability)
      ensures q != null ==> fresh(q) && q.Repr == {} && Contents() == Some([])
      ensures q == null ==> !h.Reliable()
    {
      hide CanFree, Cells, Linked, InOrder, NulFree;
      q := StringQueues.New(h);
      if q != null {
        OnlyQueueBlock(q.block);
      }
      qcnt := 0;
    }

    method DoNew() returns (ok: bool)
      requires Valid()
      modifies this`q, this`qcnt, h, h.Repr
      ensures Valid() && ok && fresh(h.Repr - old(h.Repr))
      ensures unchanged(h`failProbability)
      ensures q != null ==> fresh(q) && q.Repr == {}
      ensures Follows(old(Contents()), New, Contents(), h.Reliable())
      ensures Reports(old(Observe()), New, Observe(), ok)
    {
      hide CanFree, Cells, Linked, InOrder, NulFree;
      ok := true;
      if q != null {
        ok := DoFree();
      }
      StartQueue();
      var e := h.ErrorCheck();
      ok := ok && !e;
    }

    /** Books the outcome of one insertion. */
    method CountInsertion(rval: bool) returns (ok: bool)
      requires !h.errorOccurred
      modifies this`qcnt, this`failCount, h`errorOccurred
      ensures qcnt == old(qcnt) + (if rval then 1 else 0)
      ensures failCount == old(failCount) + (if rval then 0 else 1)
      ensures ok == (rval || failCount < failLimit) && !h.errorOccurred
    {
      ok := true;
      if rval {
        qcnt := qcnt + 1;
      } else {
        failCount := failCount + 1;
        ok := failCount < failLimit;
      }
      var e := h.ErrorCheck();
      ok := ok && !e;
    }

    method TryInsertHead(s: string) returns (rval: bool)
      requires Conserved() && NulFree(s)
      modifies h, h.Repr, q
      ensures Conserved() && fresh(h.Repr - old(h.Repr)) && (q != null ==> fresh(q.Repr - old(q.Repr)))
      ensures unchanged(h`failProbability)
      ensures rval ==> old(Contents()).Some?
      ensures q != null && !rval ==> !h.Reliable()
      ensures Contents() == if rval then Some([s] + old(Contents()).value) else old(Contents())
    {
      hide CanFree, Cells, InOrder, Linked, Queue.Valid, Harness.Valid, Harness.Clean;
      ghost var spine := Spine(q);
      ghost var live := h.live;
      rval := StringQueues.InsertHead(h, q, s);
      if rval {
        CanFreeHead(live, spine, [q.block], q.spine[0]);
        assert Values(q.spine) == [s] + Values(spine);
      }
    }

    method TryInsertTail(s: string) returns (rval: bool)
      requires Conserved() && NulFree(s)
      modifies h, h.Repr, q, Elements(q)
      ensures Conserved() && fresh(h.Repr - old(h.Repr)) && (q != null ==> fresh(q.Repr - old(q.Repr)))
      ensures unchanged(h`failProbability)
      ensures rval ==> old(Contents()).Some?
      ensures q != null && !rval ==> !h.Reliable()
      ensures Contents() == if rval then Some(old(Contents()).value + [s]) else old(Contents())
    {
      hide CanFree, Cells, InOrder, Linked, Queue.Valid, Harness.Valid, Harness.Clean;
      ghost var spine := Spine(q);
      ghost var live := h.live;
      rval := StringQueues.InsertTail(h, q, s);
      if rval {
        CanFreeTail(live, spine, [q.block], q.spine[|spine|]);
        assert Values(q.spine) == Values(spine) + [s];
      }
    }

    method InsertHeadOnce(s: string) returns (ok: bool, rval: bool)
      requires Valid() && NulFree(s)
      modifies this`qcnt, this`failCount, h, h.Repr, q
      ensures Valid() && fresh(h.Repr - old(h.Repr)) && (q != null ==> fresh(q.Repr - old(q.Repr)))
      ensures unchanged(h`failProbability)
      ensures rval ==> old(Contents()).Some?
      ensures q != null && !rval ==> !h.Reliable()
      ensures Contents() == if rval then Some([s] + old(Contents()).value) else old(Contents())
      ensures qcnt == old(qcnt) + (if rval then 1 else 0)
      ensures failCount == old(failCount) + (if rval then 0 else 1)
      ensures ok == (rval || failCount < failLimit)
    {
      ghost var before := Contents();
      rval := TryInsertHead(s);
      assert |Spine(q)| == if rval then |before.value| + 1 else old(|Spine(q)|) by {
        assert q != null ==> |Contents().value| == |q.spine|;
      }
      ok := CountInsertion(rval);
    }

    /** The repetition loop of the command; `k` counts the insertions that succeed. */
    method RepeatInsertHead(s: string, reps: int) returns (ok: bool, ghost k: nat)
      requires Valid() && NulFree(s)
      modifies this`qcnt, this`failCount, h, h.Repr, q
      ensures Valid() && fresh(h.Repr - old(h.Repr)) && (q != null ==> fresh(q.Repr - old(q.Repr)))
      ensures unchanged(h`failProbability)
      ensures q != null ==> Contents() == Some(Copies(s, k) + old(Contents()).value)
      ensures k <= (if reps > 0 then reps else 0)
      ensures q != null && h.failProbability <= 0 ==> k == if reps > 0 then reps else 0
      ensures failCount >= old(failCount)
      ensures ok <==> failCount == old(failCount) || failCount < failLimit
      ensures !ok ==> failCount == if old(failCount) + 1 < failLimit then failLimit else old(failCount) + 1
      ensures k + failCount - old(failCount) <= (if reps > 0 then reps else 0) && (q == null ==> k == 0)
      ensures ok ==> k + failCount - old(failCount) == if reps > 0 then reps else 0
    {
      hide Valid, Conserved, Copies, NulFree, Values;
      ok := true;
      ghost var start := Contents();
      k := 0;
      CopiesNone(s, if start.Some? then start.value else []);
      var r := 0;
      while ok && r < reps
        invariant 0 <= r <= Repetitions(reps)
        invariant q != null && h.Reliable() ==> k == r
        invariant Valid() && h.failProbability == old(h.failProbability) && fresh(h.Repr - old(h.Repr))
        invariant q != null ==> fresh(q.Repr - old(q.Repr))
        invariant k <= r && failCount == old(failCount) + r - k
        invariant q != null ==> Contents() == Some(Copies(s, k) + start.value)
        invariant ok <==> failCount == old(failCount) || failCount < failLimit
        invariant !ok ==> failCount == if old(failCount) + 1 < failLimit then failLimit else old(failCount) + 1
        invariant q == null ==> k == 0
        decreases reps - r
      {
        var rval;
        ok, rval := InsertHeadOnce(s);
        if rval {
          k := k + 1;
          CopiesNext(s, k - 1, start.value);
        }
        r := r + 1;
      }
    }

    /** Stops early only with an error, once the failure limit is hit. */
    method DoInsertHead(s: string, reps: int) returns (ok: bool)
      requires Valid() && NulFree(s)
      modifies this`qcnt, this`failCount, h, h.Repr, q
      ensures Valid() && fresh(h.Repr - old(h.Repr)) && (q != null ==> fresh(q.Repr - old(q.Repr)))
      ensures unchanged(h`failProbability)
      ensures Follows(old(Contents()), InsertHead(s, reps), Contents(), h.Reliable())
      ensures Reports(old(Observe()), InsertHead(s, reps), Observe(), ok)
    {
      ghost var k;
      ok, k := RepeatInsertHead(s, reps);
    }

    method InsertTailOnce(s: string) returns (ok: bool, rval: bool)
      requires Valid() && NulFree(s)
      modifies this`qcnt, this`failCount, h, h.Repr, q, Elements(q)
      ensures Valid() && fresh(h.Repr - old(h.Repr)) && (q != null ==> fresh(q.Repr - old(q.Repr)))
      ensures unchanged(h`failProbability)
      ensures rval ==> old(Contents()).Some?
      ensures q != null && !rval ==> !h.Reliable()
      ensures Contents() == if rval then Some(old(Contents()).value + [s]) else old(Contents())
      ensures qcnt == old(qcnt) + (if rval then 1 else 0)
      ensures failCount == old(failCount) + (if rval then 0 else 1)
      ensures ok == (rval || failCount < failLimit)
    {
      ghost var before := Contents();
      rval := TryInsertTail(s);
      assert |Spine(q)| == if rval then |before.value| + 1 else old(|Spine(q)|) by {
        assert q != null ==> |Contents().value| == |q.spine|;
      }
      ok := CountInsertion(rval);
    }

    /** The repetition loop of the command; `k` counts the insertions that succeed. */
    method RepeatInsertTail(s: string, reps: int) returns (ok: bool, ghost k: nat)
      requires Valid() && NulFree(s)
      modifies this`qcnt, this`failCount, h, h.Repr, q, Elements(q)
      ensures Valid() && fresh(h.Repr - old(h.Repr)) && (q != null ==> fresh(q.Repr - old(q.Repr)))
      ensures unchanged(h`failProbability)
      ensures q != null ==> Contents() == Some(old(Contents()).value + Copies(s, k))
      ensures k <= (if reps > 0 then reps else 0)
      ensures q != null && h.failProbability <= 0 ==> k == if reps > 0 then reps else 0
      ensures failCount >= old(failCount)
      ensures ok <==> failCount == old(failCount) || failCount < failLimit
      ensures !ok ==> failCount == if old(failCount) + 1 < failLimit then failLimit else old(failCount) + 1
      ensures k + failCount - old(failCount) <= (if reps > 0 then reps else 0) && (q == null ==> k == 0)
      ensures ok ==> k + failCount - old(failCount) == if reps > 0 then reps else 0
    {
      hide Valid, Conserved, Copies, NulFree, Values;
      ok := true;
      ghost var start := Contents();
      k := 0;
      CopiesNone(s, if start.Some? then start.value else []);
      var r := 0;
      while ok && r < reps
        invariant 0 <= r <= Repetitions(reps)
        invariant q != null && h.Reliable() ==> k == r
        invariant Valid() && h.failProbability == old(h.failProbability) && fresh(h.Repr - old(h.Repr))
        invariant q != null ==> fresh(q.Repr - old(q.Repr))
        invariant k <= r && failCount == old(failCount) + r - k
        invariant q != null ==> Contents() == Some(start.value + Copies(s, k))
        invariant ok <==> failCount == old(failCount) || failCount < failLimit
        invariant !ok ==> failCount == if old(failCount) + 1 < failLimit then failLimit else old(failCount) + 1
        invariant q == null ==> k == 0
        decreases reps - r
      {
        var rval;
        ok, rval := InsertTailOnce(s);
        if rval {
          k := k + 1;
          CopiesNext(s, k - 1, start.value);
        }
        r := r + 1;
      }
    }

    /** Stops early only with an error, once the failure limit is hit. */
    method DoInsertTail(s: string, reps: int) returns (ok: bool)
      requires Valid() && NulFree(s)
      modifies this`qcnt, this`failCount, h, h.Repr, q, Elements(q)
      ensures Valid() && fresh(h.Repr - old(h.Repr)) && (q != null ==> fresh(q.Repr - old(q.Repr)))
      ensures unchanged(h`failProbability)
      ensures Follows(old(Contents()), InsertTail(s, reps), Contents(), h.Reliable())
      ensures Reports(old(Observe()), InsertTail(s, reps), Observe(), ok)
    {
      ghost var k;
      ok, k := RepeatInsertTail(s, reps);
    }

    method TryRemoveHead(sp: array?<char>, bufsize: nat) returns (rval: bool)
      requires Conserved()
      requires sp != null ==> 0 < bufsize <= sp.Length
      modifies h, h.Repr, q, sp
      ensures Conserved() && h.Repr == old(h.Repr) && (q != null ==> q.Repr == old(q.Repr))
      ensures unchanged(h`failProbability)
      ensures Follows(old(Contents()), RemoveHeadQuiet, Contents(), h.Reliable())
      ensures rval == (old(Contents()).Some? && old(Contents()).value != [])
      ensures rval ==> |Spine(q)| == old(|Spine(q)|) - 1 && NulFree(old(Contents()).value[0])
      ensures rval && sp != null ==> sp[..] == Clipped(old(Contents()).value[0], bufsize) + old(sp[bufsize..])
      ensures !rval ==> Spine(q) == [] && (sp != null ==> sp[..] == old(sp[..]))
    {
      hide CanFree, InOrder, Linked, Harness.Valid, Harness.Clean, Cells, Without;
      ghost var spine := Spine(q);
      ghost var live := h.live;
      if q != null && spine != [] {
        FreeTwo(live, spine, [q.block]);
        FreeTwoCount(live, spine[0]);
      }
      rval := StringQueues.RemoveHead(h, q, sp, bufsize);
      if rval {
        assert spine[1..] == q.spine;
        assert Values(q.spine) == Values(spine)[1..];
      } else if q != null {
        assert Values(q.spine) == [];
      }
      if rval && sp != null {
        assert sp[..] == sp[..bufsize] + sp[bufsize..];
      }
    }

    /** A removal with its bookkeeping; `failed` reports a failure at or past the limit. */
    method CountedRemoval(sp: array?<char>, bufsize: nat) returns (rval: bool, failed: bool)
      requires Valid()
      requires sp != null ==> 0 < bufsize <= sp.Length
      modifies this`qcnt, this`failCount, h, h.Repr, q, sp
      ensures Valid() && h.Repr == old(h.Repr) && (q != null ==> q.Repr == old(q.Repr))
      ensures unchanged(h`failProbability)
      ensures Follows(old(Contents()), RemoveHeadQuiet, Contents(), h.Reliable())
      ensures rval == (old(Contents()).Some? && old(Contents()).value != [])
      ensures rval ==> NulFree(old(Contents()).value[0])
      ensures rval && sp != null ==> sp[..] == Clipped(old(Contents()).value[0], bufsize) + old(sp[bufsize..])
      ensures !rval && sp != null ==> sp[..] == old(sp[..])
      ensures failCount == old(failCount) + (if rval then 0 else 1)
      ensures failed == (!rval && failCount >= failLimit)
    {
      hide CanFree, Cells, InOrder, Linked, Follows, Clipped;
      rval := TryRemoveHead(sp, bufsize);
      if rval {
        qcnt := qcnt - 1;
      } else {
        failCount := failCount + 1;
      }
      failed := !rval && failCount >= failLimit;
      var e := h.ErrorCheck();
      failed := failed || e;
    }

    method DoRemoveHeadQuiet() returns (ok: bool)
      requires Valid()
      modifies this`qcnt, this`failCount, h, h.Repr, q
      ensures Valid() && h.Repr == old(h.Repr) && (q != null ==> q.Repr == old(q.Repr))
      ensures unchanged(h`failProbability)
      ensures Follows(old(Contents()), RemoveHeadQuiet, Contents(), h.Reliable())
      ensures ok <==> old(Contents()) !in {None, Some([])} || failCount < failLimit
      ensures Reports(old(Observe()), RemoveHeadQuiet, Observe(), ok)
    {
      var rval, failed := CountedRemoval(null, 0);
      ok := !failed;
    }

    /**
      With an expected value, the command accepts exactly a queue whose first string agrees with it
      up to the buffer length and is not empty; without one, it tolerates a bounded number of failures.
     */
    method DoRemoveHead(expected: Option<string>) returns (ok: bool)
      requires Valid() && (expected.Some? ==> NulFree(expected.value))
      modifies this`qcnt, this`failCount, h, h.Repr, q
      ensures Valid() && h.Repr == old(h.Repr) && (q != null ==> q.Repr == old(q.Repr))
      ensures unchanged(h`failProbability)
      ensures Follows(old(Contents()), RemoveHead(expected), Contents(), h.Reliable())
      ensures Reports(old(Observe()), RemoveHead(expected), Observe(), ok)
    {
      hide CanFree, Cells, Linked, InOrder, CString, Clipped, Truncated, Reports;
      ghost var before := Observe();
      var removes, rval, failed := RemoveInto();
      if rval {
        ok := Accepts(removes, expected, old(Contents()).value[0]);
      } else {
        ok := expected.None? && !failed;
      }
      RemovalReports(before, expected, Observe(), ok);
    }

    /** Removes the head into a padded buffer that is longer than the longest copy. */
    method RemoveInto() returns (removes: array<char>, rval: bool, failed: bool)
      requires Valid()
      modifies this`qcnt, this`failCount, h, h.Repr, q
      ensures Valid() && h.Repr == old(h.Repr) && (q != null ==> q.Repr == old(q.Repr))
      ensures unchanged(h`failProbability)
      ensures Follows(old(Contents()), RemoveHeadQuiet, Contents(), h.Reliable())
      ensures rval == (old(Contents()).Some? && old(Contents()).value != [])
      ensures failCount == old(failCount) + (if rval then 0 else 1)
      ensures failed == (!rval && failCount >= failLimit)
      ensures removes.Length > stringLength + 1 && removes[stringLength + 1] == 'X'
      ensures rval ==> var v := old(Contents()).value[0];
                       NulFree(v) && removes[..stringLength + 1] == Clipped(v, stringLength + 1)
    {
      hide Harness.Valid, Harness.Clean, Queue.Valid, CanFree, Cells, Linked, InOrder, Follows, NulFree, Clipped;
      removes := PaddedBuffer(stringLength + STRING_PAD + 1);
      ghost var tail := removes[stringLength + 1..];
      rval, failed := CountedRemoval(removes, stringLength + 1);
      if rval {
        ghost var clip := Clipped(old(Contents()).value[0], stringLength + 1);
        ClippedText(old(Contents()).value[0], stringLength + 1);
        Halves(removes[..], clip, tail);
      }
    }

    /** Judges the buffer that a successful removal has filled. */
    method Accepts(removes: array<char>, expected: Option<string>, ghost v: string) returns (ok: bool)
      requires removes.Length > stringLength + 1 && removes[stringLength + 1] == 'X'
      requires NulFree(v) && (expected.Some? ==> NulFree(expected.value))
      requires removes[..stringLength + 1] == Clipped(v, stringLength + 1)
      ensures var seen := Truncated(v, stringLength);
              ok <==> seen != "" && (expected.Some? ==> seen == Truncated(expected.value, stringLength))
    {
      hide Clipped, Truncated, NulFree, CString;
      ClippedBuffer(removes[..], v, stringLength + 1);
      ok := removes[0] != '\0' && removes[stringLength + 1] == 'X';
      if ok && expected.Some? {
        var checks := new char[stringLength + 1];
        CopyClipped(checks, expected.value, stringLength + 1);
        ClippedBuffer(checks[..], expected.value, stringLength + 1);
        ok := CString(removes[..]) == CString(checks[..]);
      }
    }

    /** An empty string, then padding that shows an overflow. */
    static method PaddedBuffer(n: nat) returns (a: array<char>)
      requires n >= 2
      ensures fresh(a) && a.Length == n && a[0] == '\0' && a[n - 1] == '\0'
      ensures forall i :: 0 < i < n - 1 ==> a[i] == 'X'
    {
      a := new char[n];
      a[0] := '\0';
      for i := 1 to a.Length - 1
        invariant a[0] == '\0' && forall k :: 0 < k < i ==> a[k] == 'X'
      {
        a[i] := 'X';
      }
      a[a.Length - 1] := '\0';
    }

    /** Runs in no-allocate mode and gives the same blocks a new order. */
    method DoReverse() returns (ok: bool)
      requires Valid()
      modifies h, q, Elements(q)
      ensures Valid() && ok && h.live == old(h.live) && h.Repr == old(h.Repr) && (q != null ==> q.Repr == old(q.Repr))
      ensures unchanged(h`failProbability)
      ensures Follows(old(Contents()), Reverse, Contents(), h.Reliable())
      ensures Spine(q) == Reversed(old(Spine(q)))
      ensures Reports(old(Observe()), Reverse, Observe(), ok)
    {
      hide CanFree, Cells, InOrder, Linked, NulFree, Reversed, Values;
      ghost var spine := Spine(q);
      ReversedFacts(spine);
      h.noAllocate := true;
      StringQueues.Reverse(q);
      h.noAllocate := false;
      if q != null {
        CanFreeReversed(h.live, spine, [q.block]);
      }
      var e := h.ErrorCheck();
      ok := !e;
    }

    /**
      Compares the computed size with the shadow count. With `reps <= 0` the size is never computed
      and 0 is compared instead, so the command reports a mismatch exactly on a nonempty queue.
     */
    method DoSize(reps: int) returns (ok: bool)
      requires Valid()
      modifies h`errorOccurred
      ensures Valid() && Contents() == old(Contents())
      ensures ok <==> reps > 0 || qcnt == 0
      ensures Reports(old(Observe()), Size(reps), Observe(), ok)
    {
      ok := true;
      var cnt := 0;
      var r := 0;
      while ok && r < reps
        invariant ok && Valid() && 0 <= r <= Repetitions(reps)
        invariant cnt == if r > 0 then qcnt else 0
        decreases reps - r
      {
        cnt := StringQueues.Size(q);
        var e := h.ErrorCheck();
        ok := ok && !e;
        r := r + 1;
      }
      if qcnt != cnt {
        ok := false;
      }
    }

    method DoSetLength(length: nat)
      requires Valid()
      modifies this`stringLength
      ensures Valid() && Contents() == old(Contents())
      ensures Reports(old(Observe()), SetLength(length), Observe(), true)
    {
      stringLength := length;
    }

    method DoSetFail(limit: int)
      requires Valid()
      modifies this`failLimit
      ensures Valid() && Contents() == old(Contents())
      ensures Reports(old(Observe()), SetFail(limit), Observe(), true)
    {
      failLimit := limit;
    }

    method DoSetMalloc(probability: int)
      requires Valid()
      modifies h`failProbability
      ensures Valid() && Contents() == old(Contents())
      ensures Reports(old(Observe()), SetMalloc(probability), Observe(), true)
    {
      h.failProbability := probability;
    }

    method Execute(c: Command) returns (ok: bool)
      requires Valid() && WellFormed(c)
      modifies this, h, h.Repr, q, Elements(q)
      ensures Valid() && Reports(old(Observe()), c, Observe(), ok)
      ensures Follows(old(Contents()), c, Contents(), old(h.Reliable()))
      ensures fresh(h.Repr - old(h.Repr)) && (q == null || q == old(q) || fresh(q))
      ensures q != null ==> fresh(q.Repr - old(Elements(q)))
    {
      hide Valid, Conserved, Reports;
      match c
      case New => ok := DoNew();
      case Free => ok := DoFree();
      case InsertHead(s, reps) => ok := DoInsertHead(s, reps);
      case InsertTail(s, reps) => ok := DoInsertTail(s, reps);
      case RemoveHead(expected) => ok := DoRemoveHead(expected);
      case RemoveHeadQuiet => ok := DoRemoveHeadQuiet();
      case Reverse => ok := DoReverse();
      case Size(reps) => ok := DoSize(reps);
      case SetLength(length) => DoSetLength(length); ok := true;
      case SetMalloc(probability) => DoSetMalloc(probability); ok := true;
      case SetFail(limit) => DoSetFail(limit); ok := true;
    }

    /** The blocks in use and the shadow count agree with the strings in the queue. */
    lemma Conservation()
      requires Valid()
      ensures Consistent(Observe())
      ensures h.allocatedCount == (if q == null then 0 else 1 + 2 * |q.spine|)
      ensures qcnt == if q == null then 0 else |q.spine|
    {
      assert q != null ==> |Contents().value| == |q.spine|;
    }

    /** Executes one more command of a run. */
    method Step(c: Command, ghost trace: seq<Snapshot>, ghost done: seq<Command>, ghost results: seq<bool>)
      returns (ok: bool, ghost longer: seq<Snapshot>)
      requires Valid() && WellFormed(c)
      requires IsRun(trace, done, results) && trace[|done|] == Observe()
      modifies this, h, h.Repr, q, Elements(q)
      ensures Valid() && fresh(h.Repr - old(h.Repr))
      ensures q == null || q == old(q) || fresh(q)
      ensures q != null ==> fresh(q.Repr - old(Elements(q)))
      ensures IsRun(longer, done + [c], results + [ok]) && longer == trace + [Observe()]
    {
      hide Valid, Conserved, Follows, Consistent, IsRun, Reports;
      ok := Execute(c);
      Conservation();
      ExtendRun(trace, done, results, c, Observe(), ok);
      longer := trace + [Observe()];
    }

    /**
      Block conservation over whole runs: whatever mallocs fail, each state and each reported result
      follow from their command, with the shadow count and the allocator's count in step after each one.
     */
    method Run(commands: seq<Command>) returns (results: seq<bool>, ghost trace: seq<Snapshot>)
      requires Valid() && forall i :: 0 <= i < |commands| ==> WellFormed(commands[i])
      modifies this, h, h.Repr, q, Elements(q)
      ensures Valid() && IsRun(trace, commands, results)
      ensures trace[0] == old(Observe()) && trace[|commands|] == Observe()
    {
      hide Valid, Conserved, IsStep, Consistent;
      Conservation();
      trace, results := [Observe()], [];
      var i := 0;
      while i < |commands|
        invariant 0 <= i <= |commands| && Valid()
        invariant fresh(h.Repr - old(h.Repr)) && (q == null || q == old(q) || fresh(q))
        invariant q != null ==> fresh(q.Repr - old(Elements(q)))
        invariant IsRun(trace, commands[..i], results) && trace[0] == old(Observe()) && trace[i] == Observe()
      {
        assert commands[..i + 1] == commands[..i] + [commands[i]];
        var ok;
        ok, trace := Step(commands[i], trace, commands[..i], results);
        results := results + [ok];
        i := i + 1;
      }
      assert commands[..i] == commands;
    }
  }
}
