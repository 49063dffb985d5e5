/**
 What one thread's scan of its range computes, stated as functions of the
 characters of the range: the 26-bucket letter histogram and the list of
 distinct letters with the most recently first-seen letter at the head.
 */
module ScanSpec {

  const AlphabetSize: nat := 26

  predicate IsLetter(c: char)
  {
    'a' <= c <= 'z'
  }

  predicate AllLetters(s: seq<char>)
  {
    forall i :: 0 <= i < |s| ==> IsLetter(s[i])
  }

  /** The letter of bucket `b`. */
  function Letter(b: nat): (c: char)
    requires b < AlphabetSize
    ensures IsLetter(c)
  {
    ('a' as int + b) as char
  }

  /** The bucket `c - 'a'` of a letter; letters and buckets correspond one to one. */
  function Bucket(c: char): (b: nat)
    requires IsLetter(c)
    ensures b < AlphabetSize
    ensures Letter(b) == c
    ensures forall b' :: 0 <= b' < AlphabetSize && Letter(b') == c ==> b' == b
  {
    c as int - 'a' as int
  }

  /** The buckets after counting the letters of `s` one by one into zeroed buckets; other characters are skipped. */
  function Histogram(s: seq<char>): (h: seq<int>)
    ensures |h| == AlphabetSize
  {
    if s == [] then seq(AlphabetSize, b => 0)
    else
      var h, c := Histogram(s[..|s| - 1]), s[|s| - 1];
      if IsLetter(c) then h[Bucket(c) := h[Bucket(c)] + 1] else h
  }

  /** The distinct characters of `s`, each pushed on the front when it is first seen. */
  function NewestFirst(s: seq<char>): seq<char>
  {
    if s == [] then []
    else
      var prefix, c := s[..|s| - 1], s[|s| - 1];
      if c in prefix then NewestFirst(prefix) else [c] + NewestFirst(prefix)
  }

  function Sum(h: seq<int>): int
  {
    if h == [] then 0 else Sum(h[..|h| - 1]) + h[|h| - 1]
  }

  /** The number of nonzero entries of `h`. */
  function NonzeroBuckets(h: seq<int>): (n: nat)
    ensures n <= |h|
  {
    if h == [] then 0 else NonzeroBuckets(h[..|h| - 1]) + (if h[|h| - 1] != 0 then 1 else 0)
  }

  /** Seeing one more letter increments its bucket and leaves the others alone. */
  lemma HistogramSnoc(s: seq<char>, c: char)
    requires IsLetter(c)
    ensures Histogram(s + [c]) == Histogram(s)[Bucket(c) := Histogram(s)[Bucket(c)] + 1]
  {
    assert (s + [c])[..|s|] == s;
  }

  /** Bucket `b` holds the number of occurrences of letter `b` in `s`. */
  lemma {:induction false} HistogramCounts(s: seq<char>, b: nat)
    requires b < AlphabetSize
    ensures Histogram(s)[b] == multiset(s)[Letter(b)]
  {
    if s != [] {
      var prefix, c := s[..|s| - 1], s[|s| - 1];
      assert s == prefix + [c];
      assert multiset(s) == multiset(prefix) + multiset{c};
      HistogramCounts(prefix, b);
      if IsLetter(c) && Bucket(c) != b {
        assert Letter(b) != c;
      }
    }
  }

  /** A bucket is zero exactly when its letter does not occur. */
  lemma HistogramZero(s: seq<char>, c: char)
    requires IsLetter(c)
    ensures Histogram(s)[Bucket(c)] == 0 <==> c !in s
  {
    HistogramCounts(s, Bucket(c));
    assert c in s <==> c in multiset(s);
  }

  /** The histogram of nothing is all zeros. */
  lemma HistogramEmpty()
    ensures forall b :: 0 <= b < AlphabetSize ==> Histogram([])[b] == 0
  {
  }

  /** No bucket is ever negative. */
  lemma HistogramNonNegative(s: seq<char>)
    ensures forall b :: 0 <= b < AlphabetSize ==> Histogram(s)[b] >= 0
  {
    forall b | 0 <= b < AlphabetSize
      ensures Histogram(s)[b] >= 0
    {
      HistogramCounts(s, b);
    }
  }

  /** Appending one character to a list of distinct characters pushes it on the front if it is new. */
  lemma NewestFirstSnoc(s: seq<char>, c: char)
    ensures NewestFirst(s + [c]) == if c in s then NewestFirst(s) else [c] + NewestFirst(s)
  {
    assert (s + [c])[..|s|] == s;
  }

  /** The list holds exactly the characters of `s`. */
  lemma {:induction false} NewestFirstElements(s: seq<char>)
    ensures forall c :: c in NewestFirst(s) <==> c in s
  {
    if s != [] {
      var prefix := s[..|s| - 1];
      assert s == prefix + [s[|s| - 1]];
      NewestFirstElements(prefix);
    }
  }

  /** The list holds each character at most once. */
  lemma {:induction false} NewestFirstDistinct(s: seq<char>)
    ensures forall i, j :: 0 <= i < j < |NewestFirst(s)| ==> NewestFirst(s)[i] != NewestFirst(s)[j]
  {
    if s != [] {
      var prefix := s[..|s| - 1];
      NewestFirstDistinct(prefix);
      NewestFirstElements(prefix);
    }
  }

  /** Newest first: if `x` is listed before `y`, every occurrence of `x` in `s` is preceded by an occurrence of `y`. */
  lemma NewestFirstOrder(s: seq<char>)
    ensures var l := NewestFirst(s);
      forall i, j, k :: 0 <= i < j < |l| && 0 <= k < |s| && s[k] == l[i] ==> l[j] in s[..k]
  {
    forall i, j, k | 0 <= i < j < |NewestFirst(s)| && 0 <= k < |s| && s[k] == NewestFirst(s)[i]
      ensures NewestFirst(s)[j] in s[..k]
    {
      NewestFirstOrderAt(s, i, j, k);
    }
  }

  lemma {:induction false} NewestFirstOrderAt(s: seq<char>, i: nat, j: nat, k: nat)
    requires i < j < |NewestFirst(s)| && k < |s| && s[k] == NewestFirst(s)[i]
    ensures NewestFirst(s)[j] in s[..k]
  {
    var prefix, x := s[..|s| - 1], s[|s| - 1];
    var l, l0 := NewestFirst(s), NewestFirst(prefix);
    NewestFirstElements(prefix);
    var d := if x in prefix then 0 else 1;
    assert l == if x in prefix then l0 else [x] + l0;
    assert l[j] == l0[j - d];
    if k < |prefix| {
      assert s[..k] == prefix[..k] && s[k] == prefix[k];
      if x !in prefix && i == 0 {
        assert false;
      } else {
        NewestFirstOrderAt(prefix, i - d, j - d, k);
      }
    } else {
      assert s[..k] == prefix;
      assert l0[j - d] in l0;
    }
  }

  /** One step of the scan: seeing letter `c` after `seen` pushes it on the list exactly when its bucket was still zero. */
  lemma ScanStep(seen: seq<char>, c: char)
    requires IsLetter(c)
    ensures NewestFirst(seen + [c])
      == if Histogram(seen)[Bucket(c)] == 0 then [c] + NewestFirst(seen) else NewestFirst(seen)
  {
    HistogramZero(seen, c);
    NewestFirstSnoc(seen, c);
  }

  /** Every bucket's count and the number of distinct letters are found by induction; this is their link. */
  lemma {:induction false} NewestFirstLength(s: seq<char>)
    requires AllLetters(s)
    ensures |NewestFirst(s)| == NonzeroBuckets(Histogram(s))
    ensures |NewestFirst(s)| <= |s|
    ensures |NewestFirst(s)| <= AlphabetSize
  {
    if s == [] {
      HistogramEmpty();
      ZeroSum(Histogram([]));
    } else {
      var prefix, c := s[..|s| - 1], s[|s| - 1];
      assert s == prefix + [c];
      NewestFirstLength(prefix);
      HistogramSnoc(prefix, c);
      HistogramZero(prefix, c);
      HistogramNonNegative(prefix);
      NonzeroAfterIncrement(Histogram(prefix), Bucket(c));
    }
  }

  /** The buckets of a string of letters add up to its length. */
  lemma {:induction false} HistogramSum(s: seq<char>)
    requires AllLetters(s)
    ensures Sum(Histogram(s)) == |s|
  {
    if s == [] {
      HistogramEmpty();
      ZeroSum(Histogram([]));
    } else {
      var prefix, c := s[..|s| - 1], s[|s| - 1];
      assert s == prefix + [c];
      HistogramSum(prefix);
      HistogramSnoc(prefix, c);
      SumAfterIncrement(Histogram(prefix), Bucket(c));
    }
  }

  /** Every bucket of the histogram of a string of letters lies between 0 and its length. */
  lemma HistogramBounds(s: seq<char>, b: nat)
    requires AllLetters(s) && b < AlphabetSize
    ensures 0 <= Histogram(s)[b] <= |s|
  {
    HistogramSum(s);
    HistogramNonNegative(s);
    EntryAtMostSum(Histogram(s), b);
  }

  lemma {:induction false} ZeroSum(h: seq<int>)
    requires forall b :: 0 <= b < |h| ==> h[b] == 0
    ensures Sum(h) == 0
    ensures NonzeroBuckets(h) == 0
  {
    if h != [] {
      ZeroSum(h[..|h| - 1]);
    }
  }

  lemma {:induction false} SumAfterIncrement(h: seq<int>, b: nat)
    requires b < |h|
    ensures Sum(h[b := h[b] + 1]) == Sum(h) + 1
  {
    var h' := h[b := h[b] + 1];
    var n := |h| - 1;
    if b < n {
      assert h'[..n] == h[..n][b := h[b] + 1];
      SumAfterIncrement(h[..n], b);
    } else {
      assert h'[..n] == h[..n];
    }
  }

  lemma {:induction false} NonzeroAfterIncrement(h: seq<int>, b: nat)
    requires b < |h| && h[b] >= 0
    ensures NonzeroBuckets(h[b := h[b] + 1]) == NonzeroBuckets(h) + (if h[b] == 0 then 1 else 0)
  {
    var h' := h[b := h[b] + 1];
    var n := |h| - 1;
    if b < n {
      assert h'[..n] == h[..n][b := h[b] + 1];
      NonzeroAfterIncrement(h[..n], b);
    } else {
      assert h'[..n] == h[..n];
    }
  }

  lemma {:induction false} EntryAtMostSum(h: seq<int>, b: nat)
    requires b < |h|
    requires forall i :: 0 <= i < |h| ==> h[i] >= 0
    ensures h[b] <= Sum(h)
  {
    var n := |h| - 1;
    if b < n {
      EntryAtMostSum(h[..n], b);
    } else {
      SumNonNegative(h[..n]);
    }
  }

  lemma {:induction false} SumNonNegative(h: seq<int>)
    requires forall i :: 0 <= i < |h| ==> h[i] >= 0
    ensures Sum(h) >= 0
  {
    if h != [] {
      SumNonNegative(h[..|h| - 1]);
    }
  }
}
