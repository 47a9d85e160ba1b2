/** Grouping by key in first-appearance order: the model of the merger's
    `dict.setdefault(key, []).append(x)` and `defaultdict(list)` loops, whose
    iteration order is the insertion order of the keys. */
module Grouping {
  import opened Ordering

  /** The elements of all groups together, counted with multiplicity. */
  function Bag<T>(gs: seq<seq<T>>): multiset<T> {
    if |gs| == 0 then multiset{} else Bag(gs[..|gs| - 1]) + multiset(gs[|gs| - 1])
  }

  lemma {:induction false} BagConcat<T>(a: seq<seq<T>>, b: seq<seq<T>>)
    ensures Bag(a + b) == Bag(a) + Bag(b)
    decreases |b|
  {
    if |b| > 0 {
      var b' := b[..|b| - 1];
      assert (a + b)[..|a + b| - 1] == a + b';
      BagConcat(a, b');
    } else {
      assert a + b == a;
    }
  }

  /** Appending to one group adds exactly that element to the bag. */
  lemma BagAppendTo<T>(gs: seq<seq<T>>, i: nat, x: T)
    requires i < |gs|
    ensures Bag(gs[i := gs[i] + [x]]) == Bag(gs) + multiset{x}
  {
    var pre := gs[..i];
    var post := gs[i + 1..];
    var g := gs[i] + [x];
    assert gs == pre + [gs[i]] + post;
    assert gs[i := g] == pre + [g] + post;
    BagConcat(pre + [gs[i]], post);
    BagConcat(pre + [g], post);
    BagConcat(pre, [gs[i]]);
    BagConcat(pre, [g]);
    assert Bag([gs[i]]) == multiset(gs[i]) by {
      assert [gs[i]][..0] == [];
    }
    assert Bag([g]) == multiset(g) by {
      assert [g][..0] == [];
    }
    assert multiset(g) == multiset(gs[i]) + multiset{x};
  }

  lemma BagRemove<T>(gs: seq<seq<T>>, k: nat)
    requires k < |gs|
    ensures Bag(gs) == Bag(gs[..k] + gs[k + 1..]) + multiset(gs[k])
  {
    var pre := gs[..k] + [gs[k]];
    SplitAt(gs, k);
    BagConcat(pre, gs[k + 1..]);
    BagConcat(gs[..k], gs[k + 1..]);
    LastSplit(pre);
  }

  /** The bag does not depend on the order of the groups. */
  lemma {:induction false} BagPermutation<T>(a: seq<seq<T>>, b: seq<seq<T>>)
    requires multiset(a) == multiset(b)
    ensures Bag(a) == Bag(b)
    decreases |a|
  {
    if |a| > 0 {
      var x := a[|a| - 1];
      var a' := a[..|a| - 1];
      LastSplit(a);
      assert x in multiset(b);
      var k :| 0 <= k < |b| && b[k] == x;
      var b' := b[..k] + b[k + 1..];
      SplitAt(b, k);
      assert multiset(b') == multiset(b) - multiset{x};
      assert multiset(a') == multiset(a) - multiset{x};
      BagPermutation(a', b');
      BagRemove(b, k);
    } else {
      assert b == [];
    }
  }

  /** Groups that hold the same elements pairwise have the same bag. */
  lemma {:induction false} BagPointwise<T>(a: seq<seq<T>>, b: seq<seq<T>>)
    requires |a| == |b|
    requires forall i :: 0 <= i < |a| ==> multiset(a[i]) == multiset(b[i])
    ensures Bag(a) == Bag(b)
  {
    if |a| > 0 {
      BagPointwise(a[..|a| - 1], b[..|b| - 1]);
    }
  }

  /** The index of the group whose elements have key `k`, or `|gs|`. */
  function IndexOfKey<T, K(==)>(gs: seq<seq<T>>, key: T -> K, k: K): (i: nat)
    ensures i <= |gs|
    ensures forall j :: 0 <= j < i && gs[j] != [] ==> key(gs[j][0]) != k
    ensures i < |gs| ==> gs[i] != [] && key(gs[i][0]) == k
  {
    if |gs| == 0 then 0
    else if gs[0] != [] && key(gs[0][0]) == k then 0
    else 1 + IndexOfKey(gs[1..], key, k)
  }

  /** `gs` groups `xs` by key: every group is non-empty and holds, in their
      order in `xs`, exactly the elements with the key of its first element,
      and no two groups share a key. */
  ghost predicate WellGrouped<T, K>(xs: seq<T>, key: T -> K, gs: seq<seq<T>>) {
    && (forall i :: 0 <= i < |gs| ==> gs[i] != [] && gs[i] == Select(xs, key, key(gs[i][0])))
    && (forall i, j :: 0 <= i < j < |gs| ==> key(gs[i][0]) != key(gs[j][0]))
  }

  lemma {:induction false} InBag<T>(gs: seq<seq<T>>, y: T)
    requires y in Bag(gs)
    ensures exists j :: 0 <= j < |gs| && y in gs[j]
  {
    var init := gs[..|gs| - 1];
    if y in Bag(init) {
      InBag(init, y);
      var j :| 0 <= j < |init| && y in init[j];
      assert init[j] == gs[j];
    } else {
      assert y in gs[|gs| - 1];
    }
  }

  /** Every element lies in the group of its key. */
  lemma Covered<T, K>(xs: seq<T>, key: T -> K, gs: seq<seq<T>>, y: T)
    requires WellGrouped(xs, key, gs) && Bag(gs) == multiset(xs)
    requires y in xs
    ensures exists j :: 0 <= j < |gs| && key(gs[j][0]) == key(y)
  {
    InBag(gs, y);
    var j :| 0 <= j < |gs| && y in gs[j];
    assert y in Select(xs, key, key(gs[j][0]));
  }

  /** One step of the grouping loop: `x` joins the group of its key, or
      opens a new last group when its key is new. */
  function GroupNext<T, K(==)>(gs: seq<seq<T>>, x: T, key: T -> K): seq<seq<T>> {
    var i := IndexOfKey(gs, key, key(x));
    if i < |gs| then gs[i := gs[i] + [x]] else gs + [[x]]
  }

  /** Grouping by key, groups in the order their keys first appear, elements
      of a group in their order in `xs`. */
  function GroupBy<T, K(==)>(xs: seq<T>, key: T -> K): (gs: seq<seq<T>>)
    ensures WellGrouped(xs, key, gs)
    ensures Bag(gs) == multiset(xs)
  {
    if |xs| == 0 then []
    else
      var init := xs[..|xs| - 1];
      var x := xs[|xs| - 1];
      var gs := GroupBy(init, key);
      GroupStep(init, x, key, gs);
      LastSplit(xs);
      GroupNext(gs, x, key)
  }

  lemma GroupStep<T, K>(init: seq<T>, x: T, key: T -> K, gs: seq<seq<T>>)
    requires WellGrouped(init, key, gs) && Bag(gs) == multiset(init)
    ensures WellGrouped(init + [x], key, GroupNext(gs, x, key))
    ensures Bag(GroupNext(gs, x, key)) == multiset(init + [x])
  {
    var i := IndexOfKey(gs, key, key(x));
    if i < |gs| {
      GroupStepHit(init, x, key, gs, i);
    } else {
      GroupStepNew(init, x, key, gs);
    }
  }

  /** Adding an element whose key has a group extends that group. */
  lemma GroupStepHit<T, K>(init: seq<T>, x: T, key: T -> K, gs: seq<seq<T>>, i: nat)
    requires WellGrouped(init, key, gs) && Bag(gs) == multiset(init)
    requires i < |gs| && key(gs[i][0]) == key(x)
    ensures WellGrouped(init + [x], key, gs[i := gs[i] + [x]])
    ensures Bag(gs[i := gs[i] + [x]]) == multiset(init + [x])
  {
    var gs' := gs[i := gs[i] + [x]];
    assert Bag(gs') == multiset(init + [x]) by {
      BagAppendTo(gs, i, x);
      assert multiset(init + [x]) == multiset(init) + multiset{x};
    }
    assert WellGrouped(init + [x], key, gs') by {
      HitSelects(init, x, key, gs, i, gs');
      HitDistinct(gs, i, gs', key);
    }
  }

  lemma HitSelects<T, K>(init: seq<T>, x: T, key: T -> K, gs: seq<seq<T>>, i: nat, gs': seq<seq<T>>)
    requires forall j :: 0 <= j < |gs| ==> gs[j] != [] && gs[j] == Select(init, key, key(gs[j][0]))
    requires forall j, j' :: 0 <= j < j' < |gs| ==> key(gs[j][0]) != key(gs[j'][0])
    requires i < |gs| && key(gs[i][0]) == key(x)
    requires gs' == gs[i := gs[i] + [x]]
    ensures forall j :: 0 <= j < |gs'| ==> gs'[j] != [] && gs'[j] == Select(init + [x], key, key(gs'[j][0]))
  {
    forall j | 0 <= j < |gs'| ensures gs'[j] != [] && gs'[j] == Select(init + [x], key, key(gs'[j][0])) {
      SelectAppend(init, x, key, key(gs[j][0]));
      if j == i {
        assert gs'[j][0] == gs[j][0];
      } else {
        assert gs'[j] == gs[j];
      }
    }
  }

  lemma HitDistinct<T, K>(gs: seq<seq<T>>, i: nat, gs': seq<seq<T>>, key: T -> K)
    requires forall j :: 0 <= j < |gs| ==> gs[j] != []
    requires forall j, j' :: 0 <= j < j' < |gs| ==> key(gs[j][0]) != key(gs[j'][0])
    requires i < |gs| && |gs'| == |gs| && gs'[i] != [] && gs'[i][0] == gs[i][0]
    requires forall j :: 0 <= j < |gs| && j != i ==> gs'[j] == gs[j]
    ensures forall j, j' :: 0 <= j < j' < |gs'| ==> key(gs'[j][0]) != key(gs'[j'][0])
  {
    forall j, j' | 0 <= j < j' < |gs'| ensures key(gs'[j][0]) != key(gs'[j'][0]) {
      assert gs'[j][0] == gs[j][0] && gs'[j'][0] == gs[j'][0];
    }
  }

  /** No element of `init` has a key that no group has. */
  lemma NewKeyAbsent<T, K>(init: seq<T>, x: T, key: T -> K, gs: seq<seq<T>>)
    requires WellGrouped(init, key, gs) && Bag(gs) == multiset(init)
    requires forall j :: 0 <= j < |gs| ==> key(gs[j][0]) != key(x)
    ensures Select(init, key, key(x)) == []
  {
    forall j | 0 <= j < |init| ensures key(init[j]) != key(x) {
      Covered(init, key, gs, init[j]);
    }
    SelectEmpty(init, key, key(x));
  }

  /** Adding an element whose key has no group opens a new last group. */
  lemma GroupStepNew<T, K>(init: seq<T>, x: T, key: T -> K, gs: seq<seq<T>>)
    requires WellGrouped(init, key, gs) && Bag(gs) == multiset(init)
    requires forall j :: 0 <= j < |gs| ==> key(gs[j][0]) != key(x)
    ensures WellGrouped(init + [x], key, gs + [[x]])
    ensures Bag(gs + [[x]]) == multiset(init + [x])
  {
    var gs' := gs + [[x]];
    assert Bag(gs') == multiset(init + [x]) by {
      assert gs'[..|gs|] == gs;
    }
    assert WellGrouped(init + [x], key, gs') by {
      NewKeyAbsent(init, x, key, gs);
      NewGroupSelects(init, x, key, gs);
    }
  }

  lemma NewGroupSelects<T, K>(init: seq<T>, x: T, key: T -> K, gs: seq<seq<T>>)
    requires forall i :: 0 <= i < |gs| ==> gs[i] != [] && gs[i] == Select(init, key, key(gs[i][0]))
    requires forall j :: 0 <= j < |gs| ==> key(gs[j][0]) != key(x)
    requires Select(init, key, key(x)) == []
    ensures forall j :: 0 <= j < |gs| + 1 ==>
              (gs + [[x]])[j] != [] && (gs + [[x]])[j] == Select(init + [x], key, key((gs + [[x]])[j][0]))
  {
    var gs' := gs + [[x]];
    forall j | 0 <= j < |gs'| ensures gs'[j] != [] && gs'[j] == Select(init + [x], key, key(gs'[j][0])) {
      if j < |gs| {
        assert gs'[j] == gs[j];
        SelectAppend(init, x, key, key(gs[j][0]));
      } else {
        assert gs'[j] == [x];
        SelectAppend(init, x, key, key(x));
      }
    }
  }
}
