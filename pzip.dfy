/**
 The per-thread work of pzip. Each thread object records its index, the common
 range length and the shared input; `HandleZip` zeroes the thread's 26 letter
 buckets, scans its range counting every letter and pushing each newly seen
 letter on the thread's linked list, and finally allocates an output buffer
 with one entry per distinct letter.
 */
module Pzip {
  import opened Partition
  import opened ScanSpec
  import opened LinkedLists

  /** An entry of the (never filled) per-thread output buffer: a character and its count. */
  datatype ZippedChar = ZippedChar(character: char, occurence: int)

  class ThreadObj {
    var tIndex: nat
    var range: nat
    var inputCharsSize: nat
    var uniqueCharCount: int
    var inputChars: array<char>
    var frequencies: array<int>
    var localZippedChars: array?<ZippedChar>
    var uniqueChars: LinkedList

    /** The layout invariant: 26 buckets and a well-formed list. */
    ghost predicate Valid()
      reads this, uniqueChars, uniqueChars.Nodes
    {
      frequencies.Length == AlphabetSize && uniqueChars.Valid()
    }

    /** The thread's range lies inside the input buffer. */
    predicate InRange()
      reads this
    {
      End(range, tIndex) <= inputChars.Length
    }

    /** The characters of the thread's range. */
    ghost function Slice(): (s: seq<char>)
      reads this, inputChars
      requires InRange()
      ensures |s| == range
    {
      inputChars[Start(range, tIndex)..End(range, tIndex)]
    }

    /** The set-up pzip does for thread `tIndex` before starting it: an empty list, no local count yet. */
    constructor (tIndex: nat, range: nat, inputCharsSize: nat, inputChars: array<char>)
      ensures Valid()
      ensures this.tIndex == tIndex && this.range == range
      ensures this.inputCharsSize == inputCharsSize && this.inputChars == inputChars
      ensures uniqueCharCount == 0 && localZippedChars == null
      ensures fresh(frequencies) && fresh(uniqueChars)
      ensures uniqueChars.Contents == [] && uniqueChars.Nodes == []
    {
      this.tIndex := tIndex;
      this.range := range;
      this.inputCharsSize := inputCharsSize;
      this.inputChars := inputChars;
      uniqueCharCount := 0;
      frequencies := new int[AlphabetSize];
      localZippedChars := null;
      uniqueChars := new LinkedList();
    }

    /**
     Scans this thread's range. Afterwards bucket `b` counts letter `b` in the
     range whatever it held before, the list has gained the range's distinct
     letters newest first, and the output buffer has one entry per distinct
     letter. The count is kept in a local, so the field `uniqueCharCount`
     keeps its value.
     */
    method HandleZip()
      requires Valid() && InRange()
      requires AllLetters(Slice())
      modifies this`localZippedChars, frequencies, uniqueChars
      ensures Valid()
      ensures frequencies[..] == Histogram(Slice())
      ensures uniqueChars.Contents == NewestFirst(Slice()) + old(uniqueChars.Contents)
      ensures localZippedChars != null && fresh(localZippedChars)
      ensures localZippedChars.Length == |NewestFirst(Slice())| == NonzeroBuckets(frequencies[..])
      ensures uniqueCharCount == old(uniqueCharCount)
    {
      for i := 0 to AlphabetSize
        modifies frequencies
        invariant forall b :: 0 <= b < i ==> frequencies[b] == 0
      {
        frequencies[i] := 0;
      }
      HistogramEmpty();
      assert frequencies[..] == Histogram([]);

      var uniqueCharCount := Scan();

      NewestFirstLength(Slice());
      localZippedChars := new ZippedChar[uniqueCharCount];
    }

    /**
     The state of a scan that has seen `seen`: the buckets are its histogram,
     the list is its distinct letters newest first in front of the list `list0`
     it started from, and `count` is their number.
     */
    ghost predicate Counted(seen: seq<char>, list0: seq<char>, count: int)
      reads this, frequencies, uniqueChars, uniqueChars.Nodes
    {
      && Valid()
      && frequencies[..] == Histogram(seen)
      && uniqueChars.Contents == NewestFirst(seen) + list0
      && count == |NewestFirst(seen)|
    }

    /**
     The body of the scan loop for one letter: a letter whose bucket is still
     zero is counted and pushed on the list, then its bucket is incremented.
     */
    method CountChar(currentChar: char, uniqueCharCount: int, ghost seen: seq<char>, ghost list0: seq<char>)
      returns (count: int)
      requires IsLetter(currentChar)
      requires Counted(seen, list0, uniqueCharCount)
      modifies frequencies, uniqueChars
      ensures Counted(seen + [currentChar], list0, count)
    {
      count := uniqueCharCount;
      HistogramSnoc(seen, currentChar);
      ScanStep(seen, currentChar);
      if frequencies[Bucket(currentChar)] == 0 {
        count := count + 1;
        AddNode(uniqueChars, currentChar);
        assert [currentChar] + (NewestFirst(seen) + list0) == ([currentChar] + NewestFirst(seen)) + list0;
      }
      frequencies[Bucket(currentChar)] := frequencies[Bucket(currentChar)] + 1;
    }

    /**
     The scan loop over input[start..end) from zeroed buckets, counting the
     distinct letters in a local.
     */
    method Scan() returns (uniqueCharCount: nat)
      requires Valid() && InRange()
      requires AllLetters(Slice())
      requires frequencies[..] == Histogram([])
      modifies frequencies, uniqueChars
      ensures Valid()
      ensures frequencies[..] == Histogram(Slice())
      ensures uniqueChars.Contents == NewestFirst(Slice()) + old(uniqueChars.Contents)
      ensures uniqueCharCount == |NewestFirst(Slice())|
    {
      var count := 0;
      var start := Start(range, tIndex);
      var end := End(range, tIndex);
      ghost var s := Slice();
      ghost var list0 := uniqueChars.Contents;

      for i := start to end
        invariant Counted(s[..i - start], list0, count)
      {
        var currentChar := inputChars[i];
        assert IsLetter(currentChar) && s[..i + 1 - start] == s[..i - start] + [currentChar] by {
          assert currentChar == s[i - start];
        }
        count := CountChar(currentChar, count, s[..i - start], list0);
      }
      assert s[..end - start] == s;
      uniqueCharCount := count;
    }
  }

  /** Thread `k` of a pzip call has been set up for its range of `input` and has run `HandleZip`. */
  ghost predicate Scanned(t: ThreadObj, input: array<char>, size: nat, range: nat, k: nat)
    reads t, t.uniqueChars, t.uniqueChars.Nodes, t.inputChars, t.frequencies
  {
    && t.Valid() && t.InRange()
    && t.tIndex == k && t.range == range
    && t.inputCharsSize == size && t.inputChars == input
    && t.uniqueCharCount == 0
    && t.frequencies[..] == Histogram(t.Slice())
    && t.uniqueChars.Contents == NewestFirst(t.Slice())
    && t.localZippedChars != null && t.localZippedChars.Length == |NewestFirst(t.Slice())|
  }

  /** A scanned thread's buckets are the histogram of its part of the input. */
  lemma ScannedSlice(t: ThreadObj, input: array<char>, size: nat, range: nat, nThreads: nat, k: nat)
    requires Scanned(t, input, size, range, k)
    requires k < nThreads && Processed(range, nThreads) <= input.Length
    ensures t.frequencies[..] == Histogram(Slices(input[..], range, nThreads)[k])
  {
    SlicesAt(input[..], range, nThreads, k);
  }

  /** Bucket `b` added up over the histograms of `parts`. */
  function BucketTotal(parts: seq<seq<char>>, b: nat): int
    requires b < AlphabetSize
  {
    if parts == [] then 0 else BucketTotal(parts[..|parts| - 1], b) + Histogram(parts[|parts| - 1])[b]
  }

  /** Added up over the parts, bucket `b` counts letter `b` in the parts laid end to end. */
  lemma {:induction false} BucketTotalCounts(parts: seq<seq<char>>, b: nat)
    requires b < AlphabetSize
    ensures BucketTotal(parts, b) == multiset(Flatten(parts))[Letter(b)]
  {
    if parts != [] {
      var prefix, last := parts[..|parts| - 1], parts[|parts| - 1];
      BucketTotalCounts(prefix, b);
      HistogramCounts(last, b);
      assert multiset(Flatten(parts)) == multiset(Flatten(prefix)) + multiset(last);
    }
  }

  /**
   The threads' buckets `b` add up to the number of occurrences of letter `b`
   in the processed prefix of the input: no character there is counted twice
   or missed, and the unprocessed tail counts for nothing.
   */
  lemma ThreadsCountPrefix(s: seq<char>, range: nat, nThreads: nat, b: nat)
    requires Processed(range, nThreads) <= |s| && b < AlphabetSize
    ensures BucketTotal(Slices(s, range, nThreads), b) == multiset(s[..Processed(range, nThreads)])[Letter(b)]
  {
    BucketTotalCounts(Slices(s, range, nThreads), b);
    SlicesCoverPrefix(s, range, nThreads);
  }

  /** Bucket `b` added up over the thread objects `ts`: what a merge of the threads' counts would hold. */
  function ThreadSum(ts: seq<ThreadObj>, b: nat): int
    requires b < AlphabetSize
    requires forall k :: 0 <= k < |ts| ==> ts[k].frequencies.Length == AlphabetSize
    reads set t | t in ts, set t | t in ts :: t.frequencies
  {
    if ts == [] then 0 else ThreadSum(ts[..|ts| - 1], b) + ts[|ts| - 1].frequencies[b]
  }

  /** Threads whose buckets are the histograms of `parts` add up, bucket by bucket, to the parts' bucket totals. */
  lemma {:induction false} ThreadSumIsBucketTotal(ts: seq<ThreadObj>, parts: seq<seq<char>>, b: nat)
    requires b < AlphabetSize && |ts| == |parts|
    requires forall k :: 0 <= k < |ts| ==> ts[k].frequencies.Length == AlphabetSize
    requires forall k :: 0 <= k < |ts| ==> ts[k].frequencies[..] == Histogram(parts[k])
    ensures ThreadSum(ts, b) == BucketTotal(parts, b)
  {
    if ts != [] {
      var n := |ts| - 1;
      ThreadSumIsBucketTotal(ts[..n], parts[..n], b);
      assert ts[n].frequencies[b] == ts[n].frequencies[..][b];
    }
  }

  /**
   For threads 0 .. nThreads - 1 scanned over `input`: thread `k`'s buckets are
   the histogram of part `k`, and bucket `b` summed over the threads counts
   letter `b` in the processed prefix.
   */
  lemma ScannedThreadsCount(ts: seq<ThreadObj>, input: array<char>, size: nat, range: nat, nThreads: nat)
    requires |ts| == nThreads && Processed(range, nThreads) <= input.Length
    requires forall k :: 0 <= k < nThreads ==> ts[k].frequencies.Length == AlphabetSize
    requires forall k :: 0 <= k < nThreads ==> Scanned(ts[k], input, size, range, k)
    ensures forall k :: 0 <= k < nThreads ==> ts[k].frequencies[..] == Histogram(Slices(input[..], range, nThreads)[k])
    ensures forall b :: 0 <= b < AlphabetSize ==> ThreadSum(ts, b) == multiset(input[..Processed(range, nThreads)])[Letter(b)]
  {
    forall k | 0 <= k < nThreads
      ensures ts[k].frequencies[..] == Histogram(Slices(input[..], range, nThreads)[k])
    {
      ScannedSlice(ts[k], input, size, range, nThreads, k);
    }
    forall b | 0 <= b < AlphabetSize
      ensures ThreadSum(ts, b) == multiset(input[..Processed(range, nThreads)])[Letter(b)]
    {
      ThreadSumIsBucketTotal(ts, Slices(input[..], range, nThreads), b);
      ThreadsCountPrefix(input[..], range, nThreads, b);
    }
  }

  /** No two of the threads `ts` share a bucket array or a list. */
  ghost predicate Separate(ts: seq<ThreadObj>)
    reads set t | t in ts
  {
    forall j, k :: 0 <= j < k < |ts| ==>
      ts[j].frequencies != ts[k].frequencies && ts[j].uniqueChars != ts[k].uniqueChars
  }

  /** A thread sharing nothing with the threads `ts` keeps them separate when appended. */
  lemma SeparateSnoc(ts: seq<ThreadObj>, t: ThreadObj)
    requires Separate(ts)
    requires forall k :: 0 <= k < |ts| ==> ts[k].frequencies != t.frequencies && ts[k].uniqueChars != t.uniqueChars
    ensures Separate(ts + [t])
  {
  }

  /**
   One iteration of pzip's thread loop: thread `k`'s object is set up for its
   range and its `HandleZip` run. Only fresh objects change, so the new
   thread shares no bucket array and no list with the threads `others`
   created before it.
   */
  method RunThread(k: nat, range: nat, size: nat, inputChars: array<char>, ghost processed: nat, ghost others: seq<ThreadObj>)
    returns (t: ThreadObj)
    requires End(range, k) <= processed <= inputChars.Length
    requires AllLetters(inputChars[..processed])
    ensures fresh(t) && fresh(t.frequencies) && fresh(t.uniqueChars)
    ensures Scanned(t, inputChars, size, range, k)
    ensures forall j :: 0 <= j < |others| ==> others[j].frequencies != t.frequencies && others[j].uniqueChars != t.uniqueChars
  {
    t := new ThreadObj(k, range, size, inputChars);
    assert t.Slice() == inputChars[..processed][Start(range, k)..End(range, k)];
    t.HandleZip();
  }

  /**
   The thread set-up and scans of pzip, run one thread after another: thread
   `k` is given range `Range(size, nThreads)` and index `k`, and scans
   input[Start(range, k)..End(range, k)]. The per-thread objects are returned
   instead of printed. The input is only read.
   */
  method Pzip(nThreads: nat, inputChars: array<char>, inputCharsSize: nat) returns (threadData: seq<ThreadObj>)
    requires nThreads >= 1
    requires inputCharsSize <= inputChars.Length
    requires AllLetters(inputChars[..Processed(Range(inputCharsSize, nThreads), nThreads)])
    ensures |threadData| == nThreads
    ensures forall k :: 0 <= k < nThreads ==>
      Scanned(threadData[k], inputChars, inputCharsSize, Range(inputCharsSize, nThreads), k)
    ensures forall k :: 0 <= k < nThreads ==>
      threadData[k].frequencies[..] == Histogram(Slices(inputChars[..], Range(inputCharsSize, nThreads), nThreads)[k])
    ensures forall k :: 0 <= k < nThreads ==>
      fresh(threadData[k]) && fresh(threadData[k].frequencies) && threadData[k].frequencies.Length == AlphabetSize
    ensures Separate(threadData)
    ensures forall b :: 0 <= b < AlphabetSize ==>
      ThreadSum(threadData, b) == multiset(inputChars[..Processed(Range(inputCharsSize, nThreads), nThreads)])[Letter(b)]
  {
    var range := inputCharsSize / nThreads;
    assert range == Range(inputCharsSize, nThreads);
    threadData := [];
    for i := 0 to nThreads
      invariant |threadData| == i
      invariant forall k :: 0 <= k < i ==>
        && Scanned(threadData[k], inputChars, inputCharsSize, range, k)
        && fresh(threadData[k]) && fresh(threadData[k].frequencies) && threadData[k].frequencies.Length == AlphabetSize
      invariant Separate(threadData)
    {
      RangeInside(inputCharsSize, nThreads, i);
      var t := RunThread(i, range, inputCharsSize, inputChars, Processed(range, nThreads), threadData);
      SeparateSnoc(threadData, t);
      threadData := threadData + [t];
    }
    RangeInside(inputCharsSize, nThreads, 0);
    ScannedThreadsCount(threadData, inputChars, inputCharsSize, range, nThreads);
  }
}
