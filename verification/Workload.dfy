/**
  The sequential workload of workload.c: a fixed array of paths handed out round robin.
  A `char *` into that array is modelled by the array slot it comes from, so that two equal
  paths in different slots stay different requests.
 */
module Workloads {
  import opened Division

  /** The slots that `k` successive requests receive from `n` paths. */
  function Served(n: nat, k: nat): (slots: seq<nat>)
    requires n > 0
  {
    seq(k, i requires 0 <= i < k => i % n)
  }

  lemma ServedAt(n: nat, k: nat, i: nat)
    requires n > 0 && i < k
    ensures |Served(n, k)| == k && Served(n, k)[i] == i % n
  {}

  function Occurrences(j: nat, slots: seq<nat>): nat {
    if slots == [] then 0
    else Occurrences(j, slots[..|slots| - 1]) + if slots[|slots| - 1] == j then 1 else 0
  }

  lemma ServedLast(n: nat, k: nat, slot: nat)
    requires n > 0 && Served(n, k + 1) == Served(n, k) + [slot]
    ensures slot == k % n
  {
    assert Served(n, k + 1)[k] == (Served(n, k) + [slot])[k];
  }

  lemma DivModNext(k: nat, n: nat)
    requires n > 0
    ensures k % n + 1 < n ==> (k + 1) / n == k / n && (k + 1) % n == k % n + 1
    ensures k % n + 1 == n ==> (k + 1) / n == k / n + 1 && (k + 1) % n == 0
  {
    var q, r := k / n, k % n;
    assert k == n * q + r;
    if r + 1 < n {
      DivModUnique(k + 1, n, q, r + 1);
    } else {
      assert n * (q + 1) == n * q + n;
      DivModUnique(k + 1, n, q + 1, 0);
    }
  }

  lemma {:induction false} OccurrencesCount(j: nat, slots: seq<nat>)
    ensures Occurrences(j, slots) == multiset(slots)[j]
  {
    if slots != [] {
      var last := |slots| - 1;
      OccurrencesCount(j, slots[..last]);
      assert slots == slots[..last] + [slots[last]];
      assert multiset(slots) == multiset(slots[..last]) + multiset{slots[last]};
    }
  }

  /** Fair load: slot `j` of `n` is served floor(k / n) times, once more when `j < k mod n`. */
  lemma {:induction false} FairLoad(n: nat, k: nat, j: nat)
    requires j < n
    ensures Occurrences(j, Served(n, k)) == k / n + if j < k % n then 1 else 0
  {
    if k > 0 {
      FairLoad(n, k - 1, j);
      assert Served(n, k)[..k - 1] == Served(n, k - 1);
      DivModNext(k - 1, n);
    }
  }

  class Workload {
    const paths: seq<string>
    var counter: nat

    constructor (paths: seq<string>)
      ensures this.paths == paths && counter == 0
    {
      this.paths := paths;
      counter := 0;
    }

    /** The remainder by the number of paths makes an empty workload file an error of the caller. */
    method GetPath() returns (slot: nat)
      requires paths != []
      modifies this
      ensures counter == old(counter) + 1
      ensures slot < |paths| && Served(|paths|, counter) == Served(|paths|, old(counter)) + [slot]
    {
      slot := counter % |paths|;
      counter := counter + 1;
    }
  }
}
