/**
  The allocation counters of report.c. Sizes are unbounded integers; an allocation that fails ends
  the program, so the methods describe the calls that return.
 */
module Memories {

  /** `m` is the largest entry of `s` from position `from` on. */
  ghost predicate IsPeak(m: int, s: seq<int>, from: nat) {
    && (forall i :: from <= i < |s| ==> s[i] <= m)
    && (exists i :: from <= i < |s| && s[i] == m)
  }

  lemma PeakNext(m: int, s: seq<int>, from: nat, x: int)
    requires from < |s| && IsPeak(m, s, from)
    ensures IsPeak(if m < x then x else m, s + [x], from)
  {
    var i :| from <= i < |s| && s[i] == m;
    assert (s + [x])[i] == m && (s + [x])[|s|] == x;
  }

  class Memory {
    var allocateCnt: int
    var allocateBytes: int
    var freeCnt: int
    var freeBytes: int
    var peakBytes: int
    var lastPeakBytes: int
    var currentBytes: int

    ghost var history: seq<int>  // the successive values of currentBytes
    ghost var mark: nat          // where the resettable peak was last reset

    /** The books balance, and both peaks are running maxima of the current total. */
    ghost predicate Valid()
      reads this
    {
      && currentBytes == allocateBytes - freeBytes
      && mark < |history| && history[|history| - 1] == currentBytes
      && IsPeak(peakBytes, history, 0)
      && IsPeak(lastPeakBytes, history, mark)
    }

    constructor ()
      ensures Valid() && currentBytes == 0
    {
      allocateCnt, allocateBytes, freeCnt, freeBytes := 0, 0, 0, 0;
      peakBytes, lastPeakBytes, currentBytes := 0, 0, 0;
      history, mark := [0], 0;
      assert [0][0] == 0;
    }

    /** One allocation of `bytes` was counted, and nothing else. */
    twostate predicate Charged(bytes: nat)
      reads this
    {
      && allocateCnt == old(allocateCnt) + 1 && allocateBytes == old(allocateBytes) + bytes
      && freeCnt == old(freeCnt) && freeBytes == old(freeBytes)
      && peakBytes == (if old(peakBytes) < currentBytes then currentBytes else old(peakBytes))
      && lastPeakBytes == (if old(lastPeakBytes) < currentBytes then currentBytes else old(lastPeakBytes))
      && history == old(history) + [currentBytes] && mark == old(mark)
    }

    /** One release of `bytes` was counted, and nothing else. */
    twostate predicate Credited(bytes: nat)
      reads this
    {
      && allocateCnt == old(allocateCnt) && allocateBytes == old(allocateBytes)
      && freeCnt == old(freeCnt) + 1 && freeBytes == old(freeBytes) + bytes
      && history == old(history) + [currentBytes] && mark == old(mark)
      && peakBytes == old(peakBytes) && lastPeakBytes == old(lastPeakBytes)
    }

    method CountAllocation(bytes: nat)
      requires Valid()
      modifies this
      ensures Valid() && currentBytes == old(currentBytes) + bytes
      ensures allocateCnt == old(allocateCnt) + 1 && allocateBytes == old(allocateBytes) + bytes
      ensures freeCnt == old(freeCnt) && freeBytes == old(freeBytes)
      ensures Charged(bytes)
    {
      allocateCnt := allocateCnt + 1;
      allocateBytes := allocateBytes + bytes;
      currentBytes := currentBytes + bytes;
      PeakNext(peakBytes, history, 0, currentBytes);
      PeakNext(lastPeakBytes, history, mark, currentBytes);
      peakBytes := if peakBytes < currentBytes then currentBytes else peakBytes;
      lastPeakBytes := if lastPeakBytes < currentBytes then currentBytes else lastPeakBytes;
      history := history + [currentBytes];
    }

    method MallocOrFail(bytes: nat)
      requires Valid()
      modifies this
      ensures Valid() && currentBytes == old(currentBytes) + bytes
      ensures allocateCnt == old(allocateCnt) + 1 && allocateBytes == old(allocateBytes) + bytes
      ensures freeCnt == old(freeCnt) && freeBytes == old(freeBytes)
      ensures Charged(bytes)
      ensures peakBytes == if old(peakBytes) < currentBytes then currentBytes else old(peakBytes)
      ensures lastPeakBytes == if old(lastPeakBytes) < currentBytes then currentBytes else old(lastPeakBytes)
    {
      CountAllocation(bytes);
    }

    method CallocOrFail(cnt: nat, bytes: nat)
      requires Valid()
      modifies this
      ensures Valid() && currentBytes == old(currentBytes) + cnt * bytes
      ensures Charged(cnt * bytes)
    {
      assert cnt * bytes >= 0;
      CountAllocation(cnt * bytes);
    }

    method StrsaveOrFail(s: string) returns (copy: string)
      requires Valid()
      modifies this
      ensures Valid() && copy == s && currentBytes == old(currentBytes) + |s| + 1
      ensures Charged(|s| + 1)
    {
      CountAllocation(|s| + 1);
      copy := s;
    }

    /** Trusts the caller's size, which therefore has to be the size that was allocated. */
    method FreeBlock(bytes: nat)
      requires Valid()
      modifies this
      ensures Valid() && currentBytes == old(currentBytes) - bytes
      ensures freeCnt == old(freeCnt) + 1 && freeBytes == old(freeBytes) + bytes
      ensures allocateCnt == old(allocateCnt) && allocateBytes == old(allocateBytes)
      ensures Credited(bytes)
    {
      freeCnt := freeCnt + 1;
      freeBytes := freeBytes + bytes;
      currentBytes := currentBytes - bytes;
      PeakNext(peakBytes, history, 0, currentBytes);
      PeakNext(lastPeakBytes, history, mark, currentBytes);
      history := history + [currentBytes];
    }

    method FreeArray(cnt: nat, bytes: nat)
      requires Valid()
      modifies this
      ensures Valid() && currentBytes == old(currentBytes) - cnt * bytes
      ensures Credited(cnt * bytes)
    {
      assert cnt * bytes >= 0;
      FreeBlock(cnt * bytes);
    }

    method FreeString(s: string)
      requires Valid()
      modifies this
      ensures Valid() && currentBytes == old(currentBytes) - (|s| + 1)
      ensures Credited(|s| + 1)
    {
      FreeBlock(|s| + 1);
    }

    method ResetPeakBytes()
      requires Valid()
      modifies this
      ensures Valid() && currentBytes == old(currentBytes) && lastPeakBytes == currentBytes
      ensures peakBytes == old(peakBytes) && history == old(history)
      ensures allocateCnt == old(allocateCnt) && allocateBytes == old(allocateBytes)
      ensures freeCnt == old(freeCnt) && freeBytes == old(freeBytes)
    {
      lastPeakBytes := currentBytes;
      mark := |history| - 1;
    }
  }
}
