/** Python's `sorted(xs, key=...)` for integer and integer-tuple keys: a stable
    sort, modelled as an insertion sort on sequences. */
module Ordering {

  /** Python's `<=` on tuples of integers: lexicographic, a proper prefix
      being smaller. */
  predicate LexLe(a: seq<int>, b: seq<int>) {
    |a| == 0 || (|b| > 0 && (a[0] < b[0] || (a[0] == b[0] && LexLe(a[1..], b[1..]))))
  }

  lemma {:induction false} LexLeRefl(a: seq<int>)
    ensures LexLe(a, a)
  {
    if |a| > 0 {
      LexLeRefl(a[1..]);
    }
  }

  lemma {:induction false} LexLeTotal(a: seq<int>, b: seq<int>)
    ensures LexLe(a, b) || LexLe(b, a)
  {
    if |a| > 0 && |b| > 0 && a[0] == b[0] {
      LexLeTotal(a[1..], b[1..]);
    }
  }

  lemma {:induction false} LexLeTrans(a: seq<int>, b: seq<int>, c: seq<int>)
    requires LexLe(a, b) && LexLe(b, c)
    ensures LexLe(a, c)
  {
    if |a| > 0 && |b| > 0 && |c| > 0 && a[0] == b[0] == c[0] {
      LexLeTrans(a[1..], b[1..], c[1..]);
    }
  }

  lemma {:induction false} LexLeAntisym(a: seq<int>, b: seq<int>)
    requires LexLe(a, b) && LexLe(b, a)
    ensures a == b
  {
    if |a| > 0 && |b| > 0 {
      LexLeAntisym(a[1..], b[1..]);
      assert a == [a[0]] + a[1..] && b == [b[0]] + b[1..];
    }
  }

  /** On one-element keys the tuple order is the integer order. */
  lemma LexLeSingle(x: int, y: int)
    ensures LexLe([x], [y]) <==> x <= y
  {
    assert [x][1..] == [];
  }

  ghost predicate SortedBy<T>(s: seq<T>, key: T -> seq<int>) {
    forall i, j :: 0 <= i < j < |s| ==> LexLe(key(s[i]), key(s[j]))
  }

  /** The elements of `s` whose key is `k`, in their order in `s`. */
  function Select<T, K(==)>(s: seq<T>, key: T -> K, k: K): (r: seq<T>)
    ensures |r| <= |s|
    ensures forall x :: x in r ==> x in s && key(x) == k
  {
    if |s| == 0 then []
    else Select(s[..|s| - 1], key, k) + (if key(s[|s| - 1]) == k then [s[|s| - 1]] else [])
  }

  lemma SelectAppend<T, K>(s: seq<T>, x: T, key: T -> K, k: K)
    ensures Select(s + [x], key, k) == Select(s, key, k) + (if key(x) == k then [x] else [])
  {
    assert (s + [x])[..|s|] == s;
  }

  /** When every element has key `k`, selecting `k` keeps them all. */
  lemma {:induction false} SelectAll<T, K>(s: seq<T>, key: T -> K, k: K)
    requires forall i :: 0 <= i < |s| ==> key(s[i]) == k
    ensures Select(s, key, k) == s
  {
    if |s| > 0 {
      var init := s[..|s| - 1];
      forall i | 0 <= i < |init| ensures key(init[i]) == k {
        assert init[i] == s[i];
      }
      SelectAll(init, key, k);
      assert Select(s, key, k) == Select(init, key, k) + [s[|s| - 1]];
      assert s == init + [s[|s| - 1]];
    }
  }

  /** No element of `s` has key `k` exactly when selecting `k` yields nothing. */
  lemma {:induction false} SelectEmpty<T, K>(s: seq<T>, key: T -> K, k: K)
    ensures Select(s, key, k) == [] <==> forall i :: 0 <= i < |s| ==> key(s[i]) != k
  {
    if |s| > 0 {
      SelectEmpty(s[..|s| - 1], key, k);
      assert forall i :: 0 <= i < |s| - 1 ==> s[..|s| - 1][i] == s[i];
    }
  }

  /** Pairwise different keys. */
  ghost predicate DistinctKeys<T, K>(s: seq<T>, key: T -> K) {
    forall i, j :: 0 <= i < j < |s| ==> key(s[i]) != key(s[j])
  }

  /** With pairwise different keys, no key is selected twice. */
  lemma {:induction false} DistinctSelectAtMostOne<T, K>(s: seq<T>, key: T -> K, k: K)
    requires DistinctKeys(s, key)
    ensures |Select(s, key, k)| <= 1
  {
    if |s| > 0 {
      var init := s[..|s| - 1];
      assert forall i :: 0 <= i < |init| ==> init[i] == s[i];
      DistinctSelectAtMostOne(init, key, k);
      if key(s[|s| - 1]) == k {
        SelectEmpty(init, key, k);
      }
    }
  }

  lemma {:induction false} SelectHas<T, K>(s: seq<T>, key: T -> K, i: nat)
    requires i < |s|
    ensures |Select(s, key, key(s[i]))| >= 1
  {
    var init := s[..|s| - 1];
    if i < |s| - 1 {
      assert init[i] == s[i];
      SelectHas(init, key, i);
    }
  }

  lemma {:induction false} SelectTwo<T, K>(s: seq<T>, key: T -> K, i: nat, j: nat)
    requires i < j < |s| && key(s[i]) == key(s[j])
    ensures |Select(s, key, key(s[i]))| >= 2
  {
    var init := s[..|s| - 1];
    assert init[i] == s[i];
    if j == |s| - 1 {
      SelectHas(init, key, i);
    } else {
      assert init[j] == s[j];
      SelectTwo(init, key, i, j);
    }
  }

  /** Keys are pairwise different exactly when no key is selected twice. */
  lemma DistinctKeysSelect<T, K>(s: seq<T>, key: T -> K)
    ensures DistinctKeys(s, key) <==> forall k :: |Select(s, key, k)| <= 1
  {
    if DistinctKeys(s, key) {
      forall k ensures |Select(s, key, k)| <= 1 {
        DistinctSelectAtMostOne(s, key, k);
      }
    }
    if !DistinctKeys(s, key) {
      var i, j :| 0 <= i < j < |s| && key(s[i]) == key(s[j]);
      SelectTwo(s, key, i, j);
      assert !(|Select(s, key, key(s[i]))| <= 1);
    }
  }

  /** Stable insertion: `x` goes after every element whose key is not greater. */
  function Insert<T>(s: seq<T>, x: T, key: T -> seq<int>): (r: seq<T>)
    ensures |r| == |s| + 1
    ensures multiset(r) == multiset(s) + multiset{x}
  {
    if |s| == 0 || LexLe(key(s[|s| - 1]), key(x)) then s + [x]
    else
      var init := s[..|s| - 1];
      assert s == init + [s[|s| - 1]];
      Insert(init, x, key) + [s[|s| - 1]]
  }

  lemma {:induction false} InsertSorted<T>(s: seq<T>, x: T, key: T -> seq<int>)
    requires SortedBy(s, key)
    ensures SortedBy(Insert(s, x, key), key)
  {
    if |s| == 0 {
    } else if LexLe(key(s[|s| - 1]), key(x)) {
      forall i | 0 <= i < |s| ensures LexLe(key(s[i]), key(x)) {
        LexLeRefl(key(s[i]));
        LexLeTrans(key(s[i]), key(s[|s| - 1]), key(x));
      }
    } else {
      var init := s[..|s| - 1];
      var last := s[|s| - 1];
      assert SortedBy(init, key);
      InsertSorted(init, x, key);
      var m := Insert(init, x, key);
      forall i | 0 <= i < |m| ensures LexLe(key(m[i]), key(last)) {
        assert m[i] in multiset(init) + multiset{x};
        if m[i] == x {
          LexLeTotal(key(x), key(last));
        } else {
          assert m[i] in init;
          var j :| 0 <= j < |init| && init[j] == m[i];
          assert s[j] == m[i];
        }
      }
    }
  }

  lemma {:induction false} InsertSelect<T>(s: seq<T>, x: T, key: T -> seq<int>, k: seq<int>)
    ensures Select(Insert(s, x, key), key, k) == Select(s, key, k) + (if key(x) == k then [x] else [])
  {
    if |s| == 0 || LexLe(key(s[|s| - 1]), key(x)) {
      SelectAppend(s, x, key, k);
    } else {
      var init := s[..|s| - 1];
      var last := s[|s| - 1];
      assert s == init + [last];
      assert Insert(s, x, key) == Insert(init, x, key) + [last];
      InsertSelect(init, x, key, k);
      LexLeRefl(key(x));
      InsertSelectPast(init, last, x, key, k);
    }
  }

  /** The step of `InsertSelect` where `x` moves in front of a last element with a greater key. */
  lemma InsertSelectPast<T>(init: seq<T>, last: T, x: T, key: T -> seq<int>, k: seq<int>)
    requires key(x) != key(last)
    requires Select(Insert(init, x, key), key, k) == Select(init, key, k) + (if key(x) == k then [x] else [])
    ensures Select(Insert(init, x, key) + [last], key, k)
            == Select(init + [last], key, k) + (if key(x) == k then [x] else [])
  {
    SelectAppend(Insert(init, x, key), last, key, k);
    SelectAppend(init, last, key, k);
  }

  /** Python's `sorted(xs, key=key)`: a permutation of `xs`, ordered by key,
      in which elements with equal keys keep their relative order. */
  function SortBy<T>(xs: seq<T>, key: T -> seq<int>): (r: seq<T>)
    ensures |r| == |xs|
    ensures multiset(r) == multiset(xs)
    ensures SortedBy(r, key)
    ensures forall k :: Select(r, key, k) == Select(xs, key, k)
  {
    if |xs| == 0 then []
    else
      var init := xs[..|xs| - 1];
      var last := xs[|xs| - 1];
      assert xs == init + [last];
      var sortedInit := SortBy(init, key);
      InsertSorted(sortedInit, last, key);
      InsertKeepsSelections(init, sortedInit, last, key);
      Insert(sortedInit, last, key)
  }

  lemma InsertKeepsSelections<T>(init: seq<T>, sortedInit: seq<T>, x: T, key: T -> seq<int>)
    requires forall k :: Select(sortedInit, key, k) == Select(init, key, k)
    ensures forall k :: Select(Insert(sortedInit, x, key), key, k) == Select(init + [x], key, k)
  {
    forall k ensures Select(Insert(sortedInit, x, key), key, k) == Select(init + [x], key, k) {
      InsertSelect(sortedInit, x, key, k);
      SelectAppend(init, x, key, k);
    }
  }

  /** Sorting a sequence whose keys are pairwise different orders it strictly. */
  lemma SortByStrict<T>(xs: seq<T>, key: T -> seq<int>)
    requires DistinctKeys(xs, key)
    ensures DistinctKeys(SortBy(xs, key), key)
  {
    var r := SortBy(xs, key);
    forall k ensures |Select(r, key, k)| <= 1 {
      DistinctSelectAtMostOne(xs, key, k);
    }
    DistinctKeysSelect(r, key);
  }

  /** A non-empty sequence is its prefix followed by its last element. */
  lemma LastSplit<T>(xs: seq<T>)
    requires |xs| > 0
    ensures xs == xs[..|xs| - 1] + [xs[|xs| - 1]]
  {
  }

  /** A sequence is what lies before, at and after index `k`. */
  lemma SplitAt<T>(s: seq<T>, k: nat)
    requires k < |s|
    ensures s == (s[..k] + [s[k]]) + s[k + 1..]
  {
  }
}
