/**
 * The running median of `append_measurement`: the window of the last
 * `medianfiltwin` compensated values and `np.median` of it.
 */
module MedianFilter {

  /** `medianfiltwin`: how many recent values the median looks at. */
  const MedianFiltWin := 10

  predicate Sorted(s: seq<real>) {
    forall i, j :: 0 <= i < j < |s| ==> s[i] <= s[j]
  }

  /** A value no greater than the head of a sorted sequence can go in front of it. */
  lemma SortedCons(x: real, s: seq<real>)
    requires Sorted(s) && (s != [] ==> x <= s[0])
    ensures Sorted([x] + s)
  {
    var r := [x] + s;
    forall i, j | 0 <= i < j < |r| ensures r[i] <= r[j] {
      if i > 0 {
        assert r[i] == s[i - 1] && r[j] == s[j - 1];
      } else {
        assert r[j] == s[j - 1] && s[0] <= s[j - 1];
      }
    }
  }

  /** x put into its place in a sorted sequence. */
  function Insert(x: real, s: seq<real>): (r: seq<real>)
    requires Sorted(s)
    ensures |r| == |s| + 1 && r[0] == (if s == [] || x <= s[0] then x else s[0])
    ensures Sorted(r) && multiset(r) == multiset(s) + multiset{x}
  {
    if s == [] then [x]
    else if x <= s[0] then
      SortedCons(x, s);
      [x] + s
    else
      assert s == [s[0]] + s[1..];
      var rest := Insert(x, s[1..]);
      assert |s| > 1 ==> s[0] <= s[1];
      SortedCons(s[0], rest);
      [s[0]] + rest
  }

  /** The window's values in ascending order, as `np.median` sorts them. */
  function Sort(s: seq<real>): (r: seq<real>)
    ensures |r| == |s| && Sorted(r) && multiset(r) == multiset(s)
  {
    if s == [] then []
    else
      assert s == [s[0]] + s[1..];
      Insert(s[0], Sort(s[1..]))
  }

  /**
   * `np.median`: the middle value of the sorted window, or the mean of the two
   * middle values when the window has even length.
   */
  function Median(s: seq<real>): real
    requires |s| > 0
  {
    Middle(Sort(s))
  }

  /** The middle value of a sorted sequence, or the mean of its two middle values. */
  function Middle(t: seq<real>): real
    requires |t| > 0
  {
    var n := |t|;
    if n % 2 == 1 then t[n / 2] else (t[n / 2 - 1] + t[n / 2]) / 2.0
  }

  function Min(s: seq<real>): (m: real)
    requires |s| > 0
    ensures m in s && forall i :: 0 <= i < |s| ==> m <= s[i]
  {
    if |s| == 1 then s[0]
    else
      var rest := Min(s[1..]);
      assert forall i :: 1 <= i < |s| ==> s[i] == s[1..][i - 1];
      if s[0] <= rest then s[0] else rest
  }

  function Max(s: seq<real>): (m: real)
    requires |s| > 0
    ensures m in s && forall i :: 0 <= i < |s| ==> s[i] <= m
  {
    if |s| == 1 then s[0]
    else
      var rest := Max(s[1..]);
      assert forall i :: 1 <= i < |s| ==> s[i] == s[1..][i - 1];
      if s[0] >= rest then s[0] else rest
  }

  /** Every value of the sorted window is one of the window's values, so it lies between their extremes. */
  lemma SortWithin(s: seq<real>)
    requires |s| > 0
    ensures forall i :: 0 <= i < |Sort(s)| ==> Min(s) <= Sort(s)[i] <= Max(s)
  {
    var t := Sort(s);
    forall i | 0 <= i < |t| ensures Min(s) <= t[i] <= Max(s) {
      assert t[i] in multiset(t);
      var k :| 0 <= k < |s| && s[k] == t[i];
    }
  }

  /** The middle of a sequence whose values all lie in [lo, hi] lies in [lo, hi]. */
  lemma MiddleWithin(t: seq<real>, lo: real, hi: real)
    requires |t| > 0 && forall i :: 0 <= i < |t| ==> lo <= t[i] <= hi
    ensures lo <= Middle(t) <= hi
  {
    var n := |t|;
    assert lo <= t[n / 2] <= hi;
    if n % 2 == 0 {
      assert lo <= t[n / 2 - 1] <= hi;
    }
  }

  /** The median lies between the smallest and the largest value of the window. */
  lemma MedianBounds(s: seq<real>)
    requires |s| > 0
    ensures Min(s) <= Median(s) <= Max(s)
  {
    SortWithin(s);
    MiddleWithin(Sort(s), Min(s), Max(s));
  }

  /** The middle of a sorted sequence lies between its two middle values. */
  lemma MiddleBetween(t: seq<real>)
    requires |t| > 0 && Sorted(t)
    ensures var n := |t|;
            var lo := if n % 2 == 1 then n / 2 else n / 2 - 1;
            t[lo] <= Middle(t) <= t[n / 2]
  {
  }

  /** The median of a single value is that value. */
  lemma MedianSingle(x: real)
    ensures Median([x]) == x
  {
    assert Sort([x]) == [x] by {
      assert [x][1..] == [];
    }
  }

  /** Dropping the head of a sorted sequence leaves it sorted. */
  lemma SortedTail(s: seq<real>)
    requires Sorted(s) && s != []
    ensures Sorted(s[1..])
  {
    var tail := s[1..];
    forall i, j | 0 <= i < j < |tail| ensures tail[i] <= tail[j] {
      assert tail[i] == s[i + 1] && tail[j] == s[j + 1];
    }
  }

  /** The head of a sorted sequence is at most every value in it. */
  lemma SortedHeadLeast(s: seq<real>, x: real)
    requires Sorted(s) && x in s
    ensures s[0] <= x
  {
    var k :| 0 <= k < |s| && s[k] == x;
  }

  /** Sorting determines its result: two sorted arrangements of the same values are equal. */
  lemma {:induction false} SortedUnique(a: seq<real>, b: seq<real>)
    requires Sorted(a) && Sorted(b) && multiset(a) == multiset(b)
    ensures a == b
    decreases |a|
  {
    assert |a| == |multiset(a)| == |multiset(b)| == |b|;
    if a != [] {
      assert a[0] in b by {
        assert a[0] in multiset(a);
      }
      assert b[0] in a by {
        assert b[0] in multiset(b);
      }
      SortedHeadLeast(b, a[0]);
      SortedHeadLeast(a, b[0]);
      assert a == [a[0]] + a[1..] && b == [b[0]] + b[1..];
      assert multiset(a) == multiset{a[0]} + multiset(a[1..]);
      assert multiset(b) == multiset{b[0]} + multiset(b[1..]);
      assert a[0] == b[0];
      assert multiset(a[1..]) == multiset(a) - multiset{a[0]};
      assert multiset(b[1..]) == multiset(b) - multiset{a[0]};
      SortedTail(a);
      SortedTail(b);
      SortedUnique(a[1..], b[1..]);
    }
  }

  /** The median depends only on which values the window holds, not on their order. */
  lemma MedianOrderFree(s: seq<real>, t: seq<real>)
    requires |s| > 0 && multiset(s) == multiset(t)
    ensures |t| > 0 && Median(s) == Median(t)
  {
    assert |s| == |multiset(s)| == |multiset(t)| == |t|;
    SortedUnique(Sort(s), Sort(t));
  }

  /** How many values of s are at most m. */
  function CountAtMost(s: seq<real>, m: real): (n: nat)
    ensures n <= |s|
  {
    if s == [] then 0 else (if s[0] <= m then 1 else 0) + CountAtMost(s[1..], m)
  }

  /** How many values of s are at least m. */
  function CountAtLeast(s: seq<real>, m: real): (n: nat)
    ensures n <= |s|
  {
    if s == [] then 0 else (if s[0] >= m then 1 else 0) + CountAtLeast(s[1..], m)
  }

  lemma {:induction false} CountInsert(x: real, s: seq<real>, m: real)
    requires Sorted(s)
    ensures CountAtMost(Insert(x, s), m) == CountAtMost(s, m) + (if x <= m then 1 else 0)
    ensures CountAtLeast(Insert(x, s), m) == CountAtLeast(s, m) + (if x >= m then 1 else 0)
  {
    var r := Insert(x, s);
    if s == [] {
      assert r == [x] && r[1..] == [];
    } else if x <= s[0] {
      assert r == [x] + s && r[1..] == s;
    } else {
      var tail := s[1..];
      SortedTail(s);
      assert r == [s[0]] + Insert(x, tail);
      assert r[0] == s[0] && r[1..] == Insert(x, tail);
      CountInsert(x, tail, m);
    }
  }

  /** Sorting does not change how many values lie on either side of m. */
  lemma {:induction false} CountSort(s: seq<real>, m: real)
    ensures CountAtMost(Sort(s), m) == CountAtMost(s, m)
    ensures CountAtLeast(Sort(s), m) == CountAtLeast(s, m)
  {
    if s != [] {
      CountSort(s[1..], m);
      CountInsert(s[0], Sort(s[1..]), m);
    }
  }

  lemma {:induction false} CountPrefix(t: seq<real>, m: real, j: nat)
    requires j <= |t| && forall i :: 0 <= i < j ==> t[i] <= m
    ensures CountAtMost(t, m) >= j
  {
    if j > 0 {
      CountPrefix(t[1..], m, j - 1);
    }
  }

  lemma {:induction false} CountSuffix(t: seq<real>, m: real, j: nat)
    requires j <= |t| && forall i :: j <= i < |t| ==> t[i] >= m
    ensures CountAtLeast(t, m) >= |t| - j
  {
    if t != [] {
      CountSuffix(t[1..], m, if j > 0 then j - 1 else 0);
    }
  }

  /** In a sorted sequence, everything up to a value at most m is at most m. */
  lemma CountPrefixSorted(t: seq<real>, m: real, k: nat)
    requires Sorted(t) && k < |t| && t[k] <= m
    ensures CountAtMost(t, m) >= k + 1
  {
    forall i | 0 <= i < k + 1 ensures t[i] <= m {
      assert t[i] <= t[k];
    }
    CountPrefix(t, m, k + 1);
  }

  /** In a sorted sequence, everything from a value at least m onwards is at least m. */
  lemma CountSuffixSorted(t: seq<real>, m: real, k: nat)
    requires Sorted(t) && k < |t| && t[k] >= m
    ensures CountAtLeast(t, m) >= |t| - k
  {
    forall i | k <= i < |t| ensures t[i] >= m {
      assert t[k] <= t[i];
    }
    CountSuffix(t, m, k);
  }

  /**
   * What makes it a median: at least half of the window (rounded up) lies at
   * or below it, and at least half lies at or above it.
   */
  lemma MedianSplitsWindow(s: seq<real>)
    requires |s| > 0
    ensures CountAtMost(s, Median(s)) >= (|s| + 1) / 2
    ensures CountAtLeast(s, Median(s)) >= (|s| + 1) / 2
  {
    CountSort(s, Median(s));
    MiddleSplits(Sort(s));
  }

  lemma MiddleSplits(t: seq<real>)
    requires |t| > 0 && Sorted(t)
    ensures CountAtMost(t, Middle(t)) >= (|t| + 1) / 2
    ensures CountAtLeast(t, Middle(t)) >= (|t| + 1) / 2
  {
    var n := |t|;
    var lo := if n % 2 == 1 then n / 2 else n / 2 - 1;
    MiddleBetween(t);
    CountPrefixSorted(t, Middle(t), lo);
    CountSuffixSorted(t, Middle(t), n / 2);
  }

  // ---------------------------------------------------------------------------
  // The window

  /** The last `medianfiltwin` values of a history, or all of them while there are fewer. */
  function Window(history: seq<real>): (w: seq<real>)
    ensures |w| <= MedianFiltWin
  {
    if |history| <= MedianFiltWin then history else history[|history| - MedianFiltWin..]
  }

  /**
   * The source's update rule keeps the window: appending below capacity, and
   * dropping the oldest value before appending at capacity, gives the window of
   * the longer history.
   */
  lemma WindowPush(history: seq<real>, x: real)
    ensures var w := Window(history);
            Window(history + [x]) == if |w| < MedianFiltWin then w + [x] else w[1..] + [x]
  {
    var h := history + [x];
    if |history| > MedianFiltWin {
      assert h[|h| - MedianFiltWin..] == history[|history| - MedianFiltWin..][1..] + [x];
    } else if |history| == MedianFiltWin {
      assert h[|h| - MedianFiltWin..] == history[1..] + [x];
    }
  }
}
