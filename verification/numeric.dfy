/** The arithmetic helpers of the merger: `int(sum / len)` averages, which
    truncate toward zero, and `_median`. Floating point is replaced by exact
    integer and real arithmetic. */
module Numeric {
  import opened Wrappers
  import opened Ordering

  /** Python's `int(a / b)` for `b > 0`: the quotient truncated toward zero
      (not Dafny's `/`, which rounds toward negative infinity). */
  function TruncDiv(a: int, b: int): (q: int)
    requires b > 0
    ensures 0 <= a ==> 0 <= q * b <= a < (q + 1) * b
    ensures a < 0 ==> (q - 1) * b < a <= q * b <= 0
  {
    if a >= 0 then
      DivBounds(a, b);
      a / b
    else
      DivBounds(-a, b);
      -((-a) / b)
  }

  lemma DivBounds(a: nat, b: int)
    requires b > 0
    ensures 0 <= (a / b) * b <= a < (a / b + 1) * b
  {
    assert a == (a / b) * b + a % b;
  }

  function Sum(xs: seq<int>): int {
    if |xs| == 0 then 0 else Sum(xs[..|xs| - 1]) + xs[|xs| - 1]
  }

  lemma {:induction false} SumBounds(xs: seq<int>, lo: int, hi: int)
    requires forall i :: 0 <= i < |xs| ==> lo <= xs[i] <= hi
    ensures |xs| * lo <= Sum(xs) <= |xs| * hi
  {
    if |xs| > 0 {
      SumBounds(xs[..|xs| - 1], lo, hi);
    }
  }

  /** Python's `int(sum(xs) / len(xs))`. */
  function TruncMean(xs: seq<int>): int
    requires |xs| > 0
  {
    TruncDiv(Sum(xs), |xs|)
  }

  /** A truncated mean lies between any lower and upper bound of the values. */
  lemma TruncMeanWithin(xs: seq<int>, lo: int, hi: int)
    requires |xs| > 0
    requires forall i :: 0 <= i < |xs| ==> lo <= xs[i] <= hi
    ensures lo <= TruncMean(xs) <= hi
  {
    var n := |xs|;
    var q := TruncMean(xs);
    SumBounds(xs, lo, hi);
    if Sum(xs) >= 0 {
      assert q * n <= n * hi;
      ProductLe(q, hi, n);
      assert n * lo < (q + 1) * n;
      ProductLt(lo, q + 1, n);
    } else {
      assert n * lo <= q * n;
      ProductLe(lo, q, n);
      assert (q - 1) * n < n * hi;
      ProductLt(q - 1, hi, n);
    }
  }

  lemma ProductLe(a: int, b: int, n: int)
    requires n > 0 && a * n <= b * n
    ensures a <= b
  {
  }

  lemma ProductLt(a: int, b: int, n: int)
    requires n > 0 && a * n < b * n
    ensures a < b
  {
  }

  /** The values present in `arr` (Python's `[a for a in arr if a is not None]`). */
  function Present(arr: seq<Option<int>>): (r: seq<int>)
    ensures |r| <= |arr|
    ensures forall v :: v in r <==> Some(v) in arr
  {
    if |arr| == 0 then []
    else
      var rest := Present(arr[1..]);
      assert arr == [arr[0]] + arr[1..];
      match arr[0]
      case None => rest
      case Some(v) => [v] + rest
  }

  /** Dropping the missing values keeps every present value as often as it
      occurs: only the `None`s are removed. */
  lemma {:induction false} PresentCounts(arr: seq<Option<int>>)
    ensures forall v :: multiset(Present(arr))[v] == multiset(arr)[Some(v)]
    ensures |Present(arr)| == |arr| - multiset(arr)[None]
  {
    if |arr| > 0 {
      var tail := arr[1..];
      PresentCounts(tail);
      assert arr == [arr[0]] + tail;
      assert multiset(arr) == multiset{arr[0]} + multiset(tail);
      match arr[0]
      case None =>
        assert Present(arr) == Present(tail);
      case Some(x) =>
        assert Present(arr) == [x] + Present(tail);
        assert multiset(Present(arr)) == multiset{x} + multiset(Present(tail));
    }
  }

  /** A list of values with none missing. */
  function AllPresent(xs: seq<int>): (arr: seq<Option<int>>)
    ensures |arr| == |xs| && forall i :: 0 <= i < |xs| ==> arr[i] == Some(xs[i])
  {
    seq(|xs|, i requires 0 <= i < |xs| => Some(xs[i]))
  }

  /** With none missing, the present values are the list itself. */
  lemma {:induction false} PresentAll(xs: seq<int>)
    ensures Present(AllPresent(xs)) == xs
  {
    if |xs| > 0 {
      var arr := AllPresent(xs);
      assert arr[1..] == AllPresent(xs[1..]);
      PresentAll(xs[1..]);
      assert xs == [xs[0]] + xs[1..];
    }
  }

  function Singleton(x: int): seq<int> {
    [x]
  }

  /** The present values of `arr` in ascending order. */
  function SortedPresent(arr: seq<Option<int>>): (s: seq<int>)
    ensures |s| == |Present(arr)|
    ensures forall i, j :: 0 <= i < j < |s| ==> s[i] <= s[j]
    ensures forall i :: 0 <= i < |s| ==> Some(s[i]) in arr
    ensures multiset(s) == multiset(Present(arr))
  {
    var s := SortBy(Present(arr), Singleton);
    SortedSingletons(s);
    assert forall i :: 0 <= i < |s| ==> s[i] in multiset(Present(arr));
    s
  }

  lemma SortedSingletons(s: seq<int>)
    requires SortedBy(s, Singleton)
    ensures forall i, j :: 0 <= i < j < |s| ==> s[i] <= s[j]
  {
    forall i, j | 0 <= i < j < |s| ensures s[i] <= s[j] {
      LexLeSingle(s[i], s[j]);
    }
  }

  /** Python's `_median`: the middle value of the sorted present values, the
      mean of the two middle values when their number is even, and `None`
      when there are none. */
  function Median(arr: seq<Option<int>>): (m: Option<real>)
    ensures m.None? <==> Present(arr) == []
  {
    var s := SortedPresent(arr);
    var n := |s|;
    if n == 0 then None
    else if n % 2 == 1 then Some(s[n / 2] as real)
    else Some((s[n / 2 - 1] + s[n / 2]) as real / 2.0)
  }

  /** The number of elements of `xs` that satisfy `p`. */
  function Count(xs: seq<int>, p: int -> bool): (c: nat)
    ensures c <= |xs|
  {
    if |xs| == 0 then 0 else Count(xs[..|xs| - 1], p) + (if p(xs[|xs| - 1]) then 1 else 0)
  }

  lemma {:induction false} CountAppend(a: seq<int>, b: seq<int>, p: int -> bool)
    ensures Count(a + b, p) == Count(a, p) + Count(b, p)
  {
    if |b| > 0 {
      var b' := b[..|b| - 1];
      assert (a + b)[..|a + b| - 1] == a + b';
      CountAppend(a, b', p);
    } else {
      assert a + b == a;
    }
  }

  /** Counting does not depend on the order of the elements. */
  lemma {:induction false} CountPermutation(a: seq<int>, b: seq<int>, p: int -> bool)
    requires multiset(a) == multiset(b)
    ensures Count(a, p) == Count(b, p)
    decreases |a|
  {
    if |a| > 0 {
      var x := a[|a| - 1];
      var a' := a[..|a| - 1];
      assert x in multiset(b);
      var k :| 0 <= k < |b| && b[k] == x;
      MultisetRemove(b, k);
      LastSplit(a);
      assert multiset(a') == multiset(a) - multiset{x};
      CountPermutation(a', b[..k] + b[k + 1..], p);
      CountAppend(a', [x], p);
      CountRemove(b, k, p);
    } else {
      assert b == [];
    }
  }

  lemma MultisetRemove(b: seq<int>, k: nat)
    requires k < |b|
    ensures multiset(b[..k] + b[k + 1..]) == multiset(b) - multiset{b[k]}
  {
    SplitAt(b, k);
  }

  lemma CountRemove(b: seq<int>, k: nat, p: int -> bool)
    requires k < |b|
    ensures Count(b, p) == Count(b[..k] + b[k + 1..], p) + Count([b[k]], p)
  {
    SplitAt(b, k);
    CountAppend(b[..k] + [b[k]], b[k + 1..], p);
    CountAppend(b[..k], [b[k]], p);
    CountAppend(b[..k], b[k + 1..], p);
  }

  /** In a sequence that none of its elements from index `h` on satisfies,
      at most `h` elements satisfy `p`. */
  lemma CountBelow(s: seq<int>, h: nat, p: int -> bool)
    requires h <= |s|
    requires forall i :: h <= i < |s| ==> !p(s[i])
    ensures Count(s, p) <= h
  {
    assert s == s[..h] + s[h..];
    CountAppend(s[..h], s[h..], p);
    CountNone(s[h..], p);
  }

  lemma {:induction false} CountNone(s: seq<int>, p: int -> bool)
    requires forall i :: 0 <= i < |s| ==> !p(s[i])
    ensures Count(s, p) == 0
  {
    if |s| > 0 {
      CountNone(s[..|s| - 1], p);
    }
  }

  function Below(m: real): int -> bool {
    v => v as real < m
  }

  function Above(m: real): int -> bool {
    v => v as real > m
  }

  /** The median splits the present values in halves: at most half of them
      lie strictly below it and at most half strictly above it. */
  lemma MedianHalves(arr: seq<Option<int>>)
    requires Median(arr).Some?
    ensures 2 * Count(Present(arr), Below(Median(arr).value)) <= |Present(arr)|
    ensures 2 * Count(Present(arr), Above(Median(arr).value)) <= |Present(arr)|
  {
    MedianIsMiddle(arr);
    PermutedHalves(Present(arr), SortedPresent(arr), Median(arr).value);
  }

  lemma PermutedHalves(a: seq<int>, s: seq<int>, m: real)
    requires multiset(a) == multiset(s) && |s| > 0
    requires forall i, j :: 0 <= i < j < |s| ==> s[i] <= s[j]
    requires var h := |s| / 2;
             if |s| % 2 == 1 then m == s[h] as real else m == (s[h - 1] + s[h]) as real / 2.0
    ensures 2 * Count(a, Below(m)) <= |a|
    ensures 2 * Count(a, Above(m)) <= |a|
  {
    SortedHalves(s, m);
    CountPermutation(a, s, Below(m));
    CountPermutation(a, s, Above(m));
    assert |a| == |multiset(a)| == |s|;
  }

  lemma MedianIsMiddle(arr: seq<Option<int>>)
    requires Median(arr).Some?
    ensures var s := SortedPresent(arr);
            var h := |s| / 2;
            |s| > 0 && if |s| % 2 == 1 then Median(arr).value == s[h] as real
                      else Median(arr).value == (s[h - 1] + s[h]) as real / 2.0
  {
  }

  lemma SortedHalves(s: seq<int>, m: real)
    requires |s| > 0
    requires forall i, j :: 0 <= i < j < |s| ==> s[i] <= s[j]
    requires var h := |s| / 2;
             if |s| % 2 == 1 then m == s[h] as real else m == (s[h - 1] + s[h]) as real / 2.0
    ensures 2 * Count(s, Below(m)) <= |s|
    ensures 2 * Count(s, Above(m)) <= |s|
  {
    var n := |s|;
    var h := n / 2;
    if n % 2 == 1 {
      assert s[h] as real == m;
      SplitCounts(s, m, h, h + 1);
    } else {
      assert s[h - 1] as real <= m <= s[h] as real;
      SplitCounts(s, m, h, h);
    }
  }

  /** If every element from `h` on is at least `m` and every element before `k`
      at most `m`, at most `h` elements are below `m` and at most `|s| - k` above. */
  lemma SplitCounts(s: seq<int>, m: real, h: nat, k: nat)
    requires h <= |s| && k <= |s|
    requires forall i, j :: 0 <= i < j < |s| ==> s[i] <= s[j]
    requires h < |s| ==> m <= s[h] as real
    requires 0 < k ==> s[k - 1] as real <= m
    ensures Count(s, Below(m)) <= h
    ensures Count(s, Above(m)) <= |s| - k
  {
    CountBelowFrom(s, m, h);
    CountAboveUpTo(s, m, k);
  }

  lemma CountBelowFrom(s: seq<int>, m: real, h: nat)
    requires h <= |s|
    requires forall i, j :: 0 <= i < j < |s| ==> s[i] <= s[j]
    requires h < |s| ==> m <= s[h] as real
    ensures Count(s, Below(m)) <= h
  {
    forall i | h <= i < |s| ensures !Below(m)(s[i]) {
      assert i == h || s[h] <= s[i];
    }
    CountBelow(s, h, Below(m));
  }

  lemma CountAboveUpTo(s: seq<int>, m: real, k: nat)
    requires k <= |s|
    requires forall i, j :: 0 <= i < j < |s| ==> s[i] <= s[j]
    requires 0 < k ==> s[k - 1] as real <= m
    ensures Count(s, Above(m)) <= |s| - k
  {
    var pre := s[..k];
    forall i | 0 <= i < k ensures !Above(m)(pre[i]) {
      assert pre[i] == s[i];
      assert i == k - 1 || s[i] <= s[k - 1];
    }
    CountNone(pre, Above(m));
    assert s == pre + s[k..];
    CountAppend(pre, s[k..], Above(m));
  }

  /** The median lies between any lower and upper bound of the present values,
      and with an odd number of values it is one of them. */
  lemma MedianWithin(arr: seq<Option<int>>, lo: int, hi: int)
    requires forall i :: 0 <= i < |arr| && arr[i].Some? ==> lo <= arr[i].value <= hi
    ensures Median(arr).Some? ==> lo as real <= Median(arr).value <= hi as real
    ensures Median(arr).Some? && |Present(arr)| % 2 == 1 ==> exists v :: Some(v) in arr && Median(arr).value == v as real
  {
    var s := SortedPresent(arr);
    var n := |s|;
    if n > 0 {
      assert Some(s[0]) in arr && Some(s[n - 1]) in arr;
      assert Some(s[n / 2]) in arr;
      if n % 2 == 0 {
        assert Some(s[n / 2 - 1]) in arr;
      }
    }
  }

  /** The median is at least any lower bound of the present values. */
  lemma MedianAtLeast(arr: seq<Option<int>>, lo: int)
    requires forall i :: 0 <= i < |arr| && arr[i].Some? ==> lo <= arr[i].value
    ensures Median(arr).Some? ==> lo as real <= Median(arr).value
  {
    var s := SortedPresent(arr);
    var n := |s|;
    if n > 0 {
      assert Some(s[0]) in arr;
    }
  }

  /** `_avg_conf`, and the `conf_avg` of a line: the truncated mean of the
      confidences that are present, and `None` when none is. */
  function AvgConf(confs: seq<Option<int>>): (r: Option<int>)
    ensures r.None? <==> forall i :: 0 <= i < |confs| ==> confs[i].None?
  {
    var p := Present(confs);
    if p == [] then
      None
    else
      assert p[0] in p;
      Some(TruncMean(p))
  }

  /** The average lies between any bounds of the present confidences. */
  lemma AvgConfWithin(confs: seq<Option<int>>, lo: int, hi: int)
    requires forall i :: 0 <= i < |confs| && confs[i].Some? ==> lo <= confs[i].value <= hi
    ensures AvgConf(confs).Some? ==> lo <= AvgConf(confs).value <= hi
  {
    var p := Present(confs);
    if p != [] {
      forall i | 0 <= i < |p| ensures lo <= p[i] <= hi {
        assert p[i] in p;
      }
      TruncMeanWithin(p, lo, hi);
    }
  }

  /** A single confidence is its own average. */
  lemma AvgConfSingle(c: Option<int>)
    ensures AvgConf([c]) == c
  {
    if c.Some? {
      AvgConfWithin([c], c.value, c.value);
    }
  }
}
