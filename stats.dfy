/** The aggregates `get_triangle_colour` applies to the channel values of one
    triangle's pixels: numpy's median (its default `agg_func`) and mean. */
module Stats {
  import Grids

  predicate Sorted(s: seq<int>)
  {
    forall i, j :: 0 <= i < j < |s| ==> s[i] <= s[j]
  }

  /** A value no larger than any element of a sorted sequence can go in front. */
  lemma SortedCons(a: int, s: seq<int>)
    requires Sorted(s) && forall k :: 0 <= k < |s| ==> a <= s[k]
    ensures Sorted([a] + s)
  {
    forall i, j | 0 <= i < j < |[a] + s|
      ensures ([a] + s)[i] <= ([a] + s)[j]
    {
      assert ([a] + s)[j] == s[j - 1];
      if i > 0 {
        assert ([a] + s)[i] == s[i - 1];
      }
    }
  }

  /** `x` inserted into the sorted `s` at its place. */
  function Insert(x: int, s: seq<int>): (r: seq<int>)
    requires Sorted(s)
    ensures Sorted(r)
    ensures multiset(r) == multiset(s) + multiset{x}
    ensures r[0] == if s == [] || x <= s[0] then x else s[0]
  {
    if s == [] || x <= s[0] then
      SortedCons(x, s);
      [x] + s
    else
      var rest := Insert(x, s[1..]);
      KeepHead(x, s, rest);
      [s[0]] + rest
  }

  /** Inserting past the head of `s` keeps the head in front. */
  lemma KeepHead(x: int, s: seq<int>, rest: seq<int>)
    requires Sorted(s) && s != [] && s[0] < x
    requires Sorted(rest) && multiset(rest) == multiset(s[1..]) + multiset{x}
    requires rest[0] == if s[1..] == [] || x <= s[1] then x else s[1]
    ensures Sorted([s[0]] + rest)
    ensures multiset([s[0]] + rest) == multiset(s) + multiset{x}
  {
    assert s == [s[0]] + s[1..];
    assert forall k :: 0 <= k < |rest| ==> s[0] <= rest[k] by {
      assert s[0] <= rest[0];
    }
    SortedCons(s[0], rest);
    assert multiset([s[0]] + rest) == multiset{s[0]} + multiset(s[1..]) + multiset{x};
  }

  /** `s` in ascending order: a sorted permutation of it. */
  function Sort(s: seq<int>): (r: seq<int>)
    ensures Sorted(r)
    ensures multiset(r) == multiset(s)
  {
    if s == [] then []
    else
      assert s == [s[0]] + s[1..];
      Insert(s[0], Sort(s[1..]))
  }

  /** Median of a non-empty bucket: the middle value of the sorted bucket, or the
      mean of the two middle values when the count is even. It lies between two
      values of the bucket. */
  function Median(b: seq<int>): (m: real)
    requires |b| > 0
    ensures exists lo, hi :: lo in b && hi in b && lo as real <= m <= hi as real
  {
    var s := Sort(b);
    var n := |s|;
    assert |multiset(s)| == |multiset(b)|;
    assert s[n / 2] in multiset(b);
    assert s[n / 2] in b;
    if n % 2 == 1 then s[n / 2] as real
    else
      assert s[n / 2 - 1] in multiset(b);
      assert s[n / 2 - 1] in b;
      (s[n / 2 - 1] + s[n / 2]) as real / 2.0
  }

  function Sum(b: seq<int>): int
  {
    if b == [] then 0 else b[0] + Sum(b[1..])
  }

  /** Arithmetic mean of a non-empty bucket: it lies between two values of the bucket. */
  function Mean(b: seq<int>): (m: real)
    requires |b| > 0
    ensures exists lo, hi :: lo in b && hi in b && lo as real <= m <= hi as real
  {
    AverageBetween(b);
    Sum(b) as real / |b| as real
  }

  /** Sum divided by size lies between the least and the greatest value. */
  lemma AverageBetween(b: seq<int>)
    requires |b| > 0
    ensures exists lo, hi :: lo in b && hi in b && lo as real <= Sum(b) as real / |b| as real <= hi as real
  {
    var lo, hi := Least(b), Greatest(b);
    AverageWithin(b, lo, hi);
    assert lo in b && hi in b;
  }

  /** The least value of a non-empty bucket. */
  function Least(b: seq<int>): (v: int)
    requires |b| > 0
    ensures v in b && forall k :: 0 <= k < |b| ==> v <= b[k]
  {
    if |b| == 1 then b[0]
    else
      var m := Least(b[1..]);
      if b[0] <= m then b[0] else m
  }

  /** The greatest value of a non-empty bucket. */
  function Greatest(b: seq<int>): (v: int)
    requires |b| > 0
    ensures v in b && forall k :: 0 <= k < |b| ==> b[k] <= v
  {
    if |b| == 1 then b[0]
    else
      var m := Greatest(b[1..]);
      if b[0] >= m then b[0] else m
  }

  /** Every value of `b` lies in [lo, hi]. */
  predicate Within(b: seq<int>, lo: int, hi: int)
  {
    forall k :: 0 <= k < |b| ==> lo <= b[k] <= hi
  }

  lemma {:induction false} SumWithin(b: seq<int>, lo: int, hi: int)
    requires Within(b, lo, hi)
    ensures |b| * lo <= Sum(b) <= |b| * hi
  {
    if b != [] {
      SumWithin(b[1..], lo, hi);
      Grids.MulSucc(|b[1..]|, lo);
      Grids.MulSucc(|b[1..]|, hi);
    }
  }

  lemma CastProduct(a: int, b: int)
    ensures (a * b) as real == a as real * b as real
  {
  }

  /** The median of a bucket whose values lie in [lo, hi] lies in [lo, hi]. */
  lemma MedianWithin(b: seq<int>, lo: int, hi: int)
    requires |b| > 0 && Within(b, lo, hi)
    ensures lo as real <= Median(b) <= hi as real
  {
    var m := Median(b);
    var l, h :| l in b && h in b && l as real <= m <= h as real;
  }

  /** The mean of a bucket whose values lie in [lo, hi] lies in [lo, hi]. */
  lemma MeanWithin(b: seq<int>, lo: int, hi: int)
    requires |b| > 0 && Within(b, lo, hi)
    ensures lo as real <= Mean(b) <= hi as real
  {
    AverageWithin(b, lo, hi);
  }

  /** Sum divided by size of values in [lo, hi] lies in [lo, hi]. */
  lemma AverageWithin(b: seq<int>, lo: int, hi: int)
    requires |b| > 0 && Within(b, lo, hi)
    ensures lo as real <= Sum(b) as real / |b| as real <= hi as real
  {
    var n, total := |b|, Sum(b);
    SumWithin(b, lo, hi);
    RealBounds(n, total, lo, hi);
  }

  /** `n * lo <= total <= n * hi` carries over from integers to reals. */
  lemma RealBounds(n: int, total: int, lo: int, hi: int)
    requires n > 0 && n * lo <= total <= n * hi
    ensures lo as real <= total as real / n as real <= hi as real
  {
    CastProduct(n, lo);
    CastProduct(n, hi);
    QuotientBounds(total as real, n as real, lo as real, hi as real);
  }

  lemma QuotientBounds(total: real, n: real, lo: real, hi: real)
    requires n > 0.0 && n * lo <= total <= n * hi
    ensures lo <= total / n <= hi
  {
    assert total / n - lo == (total - n * lo) / n;
    assert hi - total / n == (n * hi - total) / n;
  }

  /** A bucket whose values all equal `c` has median `c`. */
  lemma MedianOfConstant(b: seq<int>, c: int)
    requires |b| > 0 && Within(b, c, c)
    ensures Median(b) == c as real
  {
    MedianWithin(b, c, c);
  }

  /** A bucket whose values all equal `c` has mean `c`. */
  lemma MeanOfConstant(b: seq<int>, c: int)
    requires |b| > 0 && Within(b, c, c)
    ensures Mean(b) == c as real
  {
    MeanWithin(b, c, c);
  }

  // ---------------------------------------------------------------------------
  // Order does not matter

  /** Two sorted sequences with the same elements are equal. */
  lemma {:induction false} SortedUnique(a: seq<int>, b: seq<int>)
    requires Sorted(a) && Sorted(b) && multiset(a) == multiset(b)
    ensures a == b
    decreases |a|
  {
    assert |a| == |multiset(a)| == |multiset(b)| == |b|;
    if a != [] {
      SortedHeads(a, b);
      assert a == [a[0]] + a[1..] && b == [b[0]] + b[1..];
      DropHead(a);
      DropHead(b);
      SortedUnique(a[1..], b[1..]);
    }
  }

  /** Two non-empty sorted sequences with the same elements start alike. */
  lemma SortedHeads(a: seq<int>, b: seq<int>)
    requires Sorted(a) && Sorted(b) && multiset(a) == multiset(b) && a != [] && b != []
    ensures a[0] == b[0]
  {
    assert a[0] in multiset(b) && b[0] in multiset(a);
    var i :| 0 <= i < |b| && b[i] == a[0];
    var j :| 0 <= j < |a| && a[j] == b[0];
    assert b[0] <= b[i] && a[0] <= a[j];
  }

  /** The median depends only on how often each value occurs in the bucket. */
  lemma MedianOfPermutation(a: seq<int>, b: seq<int>)
    requires |a| > 0 && multiset(a) == multiset(b)
    ensures |b| > 0 && Median(a) == Median(b)
  {
    assert |a| == |multiset(a)| == |multiset(b)| == |b|;
    SortedUnique(Sort(a), Sort(b));
  }

  /** The sum of a concatenation is the sum of its parts. */
  lemma {:induction false} SumConcat(a: seq<int>, b: seq<int>)
    ensures Sum(a + b) == Sum(a) + Sum(b)
  {
    if a == [] {
      assert a + b == b;
    } else {
      assert (a + b)[1..] == a[1..] + b;
      SumConcat(a[1..], b);
    }
  }

  /** The sum depends only on how often each value occurs. */
  lemma {:induction false} SumOfPermutation(a: seq<int>, b: seq<int>)
    requires multiset(a) == multiset(b)
    ensures Sum(a) == Sum(b)
    decreases |a|
  {
    assert |a| == |multiset(a)| == |multiset(b)| == |b|;
    if a != [] {
      assert a[0] in multiset(b);
      var i :| 0 <= i < |b| && b[i] == a[0];
      RemoveAtElements(b, i);
      RemoveAtSum(b, i);
      DropHead(a);
      SumOfPermutation(a[1..], b[..i] + b[i + 1..]);
    }
  }

  /** Dropping the head removes one occurrence of it. */
  lemma DropHead(a: seq<int>)
    requires a != []
    ensures multiset(a[1..]) == multiset(a) - multiset{a[0]}
  {
    assert a == [a[0]] + a[1..];
  }

  /** Removing position i takes one occurrence of b[i] off the elements. */
  lemma RemoveAtElements(b: seq<int>, i: nat)
    requires i < |b|
    ensures multiset(b[..i] + b[i + 1..]) == multiset(b) - multiset{b[i]}
  {
    assert b == b[..i] + [b[i]] + b[i + 1..];
  }

  /** Removing position i takes b[i] off the sum. */
  lemma RemoveAtSum(b: seq<int>, i: nat)
    requires i < |b|
    ensures Sum(b) == b[i] + Sum(b[..i] + b[i + 1..])
  {
    var before, at, after := b[..i], [b[i]], b[i + 1..];
    assert b == before + at + after;
    assert Sum(at) == b[i] by {
      assert at[1..] == [];
    }
    SumConcat(before + at, after);
    SumConcat(before, at);
    SumConcat(before, after);
  }


  /** The mean depends only on how often each value occurs in the bucket. */
  lemma MeanOfPermutation(a: seq<int>, b: seq<int>)
    requires |a| > 0 && multiset(a) == multiset(b)
    ensures |b| > 0 && Mean(a) == Mean(b)
  {
    assert |a| == |multiset(a)| == |multiset(b)| == |b|;
    SumOfPermutation(a, b);
  }
}
