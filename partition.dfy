/**
 The range arithmetic of pzip: the input of `size` characters is split into
 `nThreads` equal ranges of `Range(size, nThreads)` characters, and thread `k`
 scans the half-open interval [Start(range, k), End(range, k)).
 Both operands of the division are non-negative, so C's truncating division
 and Dafny's division agree.
 */
module Partition {

  /** The characters per thread: the integer quotient of the size by the thread count. */
  function Range(size: nat, nThreads: nat): (range: nat)
    requires nThreads >= 1
    ensures nThreads * range <= size < nThreads * range + nThreads
  {
    size / nThreads
  }

  /** First index scanned by thread `k`: `range * k`; thread 0 starts at the beginning of the input. */
  function Start(range: nat, k: nat): (start: nat)
    ensures k == 0 ==> start == 0
  {
    range * k
  }

  /** One past the last index scanned by thread `k`: where thread `k + 1` starts. */
  function End(range: nat, k: nat): (end: nat)
    ensures end == Start(range, k + 1)
  {
    assert range * k + range == range * (k + 1);
    Start(range, k) + range
  }

  /** Length of the prefix of the input that the threads together scan: it ends where the last thread ends. */
  function Processed(range: nat, nThreads: nat): (processed: nat)
    ensures nThreads == 0 ==> processed == 0
    ensures nThreads > 0 ==> processed == End(range, nThreads - 1)
  {
    nThreads * range
  }

  /** Every thread's range has `range` characters and lies inside the processed prefix, hence inside the input. */
  lemma RangeInside(size: nat, nThreads: nat, k: nat)
    requires nThreads >= 1 && k < nThreads
    ensures var range := Range(size, nThreads);
      && End(range, k) - Start(range, k) == range
      && End(range, k) <= Processed(range, nThreads) <= size
  {
    var range := Range(size, nThreads);
    assert k + 1 <= nThreads;
    calc {
      End(range, k);
    ==
      range * k + range;
    ==
      range * (k + 1);
    <=  { MulMonotone(range, k + 1, nThreads); }
      range * nThreads;
    }
  }

  /** Ranges of distinct threads share no index. */
  lemma Disjoint(range: nat, k1: nat, k2: nat, i: int)
    requires k1 != k2
    requires Start(range, k1) <= i < End(range, k1)
    ensures !(Start(range, k2) <= i < End(range, k2))
  {
    if k1 < k2 {
      MulMonotone(range, k1 + 1, k2);
    } else {
      MulMonotone(range, k2 + 1, k1);
    }
  }

  /** The thread whose range holds index `i` of the processed prefix. */
  function Owner(range: nat, nThreads: nat, i: nat): (k: nat)
    requires i < Processed(range, nThreads)
    ensures k < nThreads
    ensures Start(range, k) <= i < End(range, k)
  {
    assert range > 0;
    var k := i / range;
    assert range * k <= i < range * k + range;
    assert k < nThreads by {
      if k >= nThreads {
        MulMonotone(range, nThreads, k);
      }
    }
    k
  }

  /** The index `i` belongs to exactly one thread's range when it lies in the processed prefix, and to none otherwise. */
  lemma Coverage(range: nat, nThreads: nat, i: nat, k: nat)
    requires k < nThreads
    ensures Start(range, k) <= i < End(range, k) <==> i < Processed(range, nThreads) && k == Owner(range, nThreads, i)
  {
    if Start(range, k) <= i < End(range, k) {
      MulMonotone(range, k + 1, nThreads);
      assert i < Processed(range, nThreads);
      var o := Owner(range, nThreads, i);
      if o != k {
        Disjoint(range, o, k, i);
      }
    }
  }

  /** The last `size % nThreads` characters are read by no thread. */
  lemma TailNeverRead(size: nat, nThreads: nat, i: nat, k: nat)
    requires nThreads >= 1 && k < nThreads
    requires Processed(Range(size, nThreads), nThreads) <= i < size
    ensures size - Processed(Range(size, nThreads), nThreads) == size % nThreads < nThreads
    ensures !(Start(Range(size, nThreads), k) <= i < End(Range(size, nThreads), k))
  {
    RangeInside(size, nThreads, k);
  }

  /** The ranges of threads 0 .. nThreads - 1 of `s`, in thread order. */
  function Slices<T>(s: seq<T>, range: nat, nThreads: nat): (parts: seq<seq<T>>)
    requires Processed(range, nThreads) <= |s|
    ensures |parts| == nThreads
    ensures forall k :: 0 <= k < nThreads ==> |parts[k]| == range
    decreases nThreads
  {
    if nThreads == 0 then []
    else
      var k := nThreads - 1;
      assert Processed(range, k) + range == Processed(range, nThreads);
      Slices(s, range, k) + [s[Start(range, k)..End(range, k)]]
  }

  /** Part `k` is thread `k`'s range. */
  lemma {:induction false} SlicesAt<T>(s: seq<T>, range: nat, nThreads: nat, k: nat)
    requires Processed(range, nThreads) <= |s| && k < nThreads
    ensures End(range, k) <= |s|
    ensures Slices(s, range, nThreads)[k] == s[Start(range, k)..End(range, k)]
    decreases nThreads
  {
    MulMonotone(range, k + 1, nThreads);
    if k < nThreads - 1 {
      MulMonotone(range, nThreads - 1, nThreads);
      SlicesAt(s, range, nThreads - 1, k);
    }
  }

  function Flatten<T>(parts: seq<seq<T>>): seq<T>
  {
    if parts == [] then [] else Flatten(parts[..|parts| - 1]) + parts[|parts| - 1]
  }

  /** Laid end to end in thread order, the ranges give back exactly the processed prefix. */
  lemma {:induction false} SlicesCoverPrefix<T>(s: seq<T>, range: nat, nThreads: nat)
    requires Processed(range, nThreads) <= |s|
    ensures Flatten(Slices(s, range, nThreads)) == s[..Processed(range, nThreads)]
    decreases nThreads
  {
    if nThreads > 0 {
      var k := nThreads - 1;
      var parts := Slices(s, range, nThreads);
      assert parts[..k] == Slices(s, range, k);
      assert Processed(range, k) == Start(range, k);
      SlicesCoverPrefix(s, range, k);
      assert s[..Start(range, k)] + s[Start(range, k)..End(range, k)] == s[..End(range, k)];
    }
  }

  lemma MulMonotone(a: nat, b: nat, c: nat)
    requires b <= c
    ensures a * b <= a * c
  {
  }
}
