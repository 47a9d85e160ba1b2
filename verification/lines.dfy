/** `group_words_to_lines`: the words of one page become text lines, either
    by their Tesseract line numbers or, when no word has one, by clustering
    their `top` coordinates. */
module Lines {
  import opened Wrappers
  import opened Text
  import opened Ordering
  import opened Numeric
  import opened Grouping
  import opened Rows

  /** A text line: its text, its box as edges, its average confidence and
      its words from left to right. */
  datatype Line = Line(text: string, left: int, top: int, right: int, bottom: int,
                       conf: Option<int>, words: seq<Word>)

  function LeftKey(w: Word): seq<int> {
    [w.left]
  }

  function TopKey(w: Word): seq<int> {
    [w.top]
  }

  /** The reading-order key `(block_num, par_num, line_num)`. */
  function LineKey(w: Word): seq<int> {
    [w.blockNum, w.parNum, w.lineNum]
  }

  function MinOf(xs: seq<int>): (m: int)
    requires |xs| > 0
    ensures m in xs && forall i :: 0 <= i < |xs| ==> m <= xs[i]
  {
    if |xs| == 1 then xs[0]
    else
      var m := MinOf(xs[1..]);
      assert m in xs;
      if xs[0] <= m then xs[0] else m
  }

  function MaxOf(xs: seq<int>): (m: int)
    requires |xs| > 0
    ensures m in xs && forall i :: 0 <= i < |xs| ==> xs[i] <= m
  {
    if |xs| == 1 then xs[0]
    else
      var m := MaxOf(xs[1..]);
      assert m in xs;
      if xs[0] >= m then xs[0] else m
  }

  function Lefts(ws: seq<Word>): seq<int> {
    seq(|ws|, i requires 0 <= i < |ws| => ws[i].left)
  }

  function Tops(ws: seq<Word>): seq<int> {
    seq(|ws|, i requires 0 <= i < |ws| => ws[i].top)
  }

  function Rights(ws: seq<Word>): seq<int> {
    seq(|ws|, i requires 0 <= i < |ws| => ws[i].left + ws[i].width)
  }

  function Bottoms(ws: seq<Word>): seq<int> {
    seq(|ws|, i requires 0 <= i < |ws| => ws[i].top + ws[i].height)
  }

  function Confs(ws: seq<Word>): seq<Option<int>> {
    seq(|ws|, i requires 0 <= i < |ws| => ws[i].conf)
  }

  /** `(w.get('text') or "").strip()` for each word. */
  function Texts(cc: CharClasses, ws: seq<Word>): seq<string> {
    seq(|ws|, i requires 0 <= i < |ws| => Strip(cc, ws[i].text))
  }

  /** The line that one group of words forms (the loop bodies of both paths
      of `group_words_to_lines`): words sorted by `left`, their stripped
      texts joined by single spaces and stripped, the box spanning all words,
      and the truncated mean of the confidences. */
  function BuildLine(cc: CharClasses, ws: seq<Word>): (l: Line)
    requires |ws| > 0
    ensures multiset(l.words) == multiset(ws) && SortedBy(l.words, LeftKey)
    ensures forall k :: Select(l.words, LeftKey, k) == Select(ws, LeftKey, k)
    ensures Spans(l)
    ensures l.text == Strip(cc, Join(" ", Texts(cc, l.words)))
    ensures Strip(cc, l.text) == l.text
    ensures l.conf.None? <==> forall i :: 0 <= i < |l.words| ==> l.words[i].conf.None?
  {
    var sorted := SortBy(ws, LeftKey);
    var text := Strip(cc, Join(" ", Texts(cc, sorted)));
    StripIdempotent(cc, Join(" ", Texts(cc, sorted)));
    var l := Line(text, MinOf(Lefts(sorted)), MinOf(Tops(sorted)), MaxOf(Rights(sorted)), MaxOf(Bottoms(sorted)),
                  AvgConf(Confs(sorted)), sorted);
    BoxSpans(l);
    ConfsNone(sorted);
    l
  }

  lemma ConfsNone(ws: seq<Word>)
    ensures AvgConf(Confs(ws)).None? <==> forall i :: 0 <= i < |ws| ==> ws[i].conf.None?
  {
    var cs := Confs(ws);
    assert forall i :: 0 <= i < |ws| ==> cs[i] == ws[i].conf;
  }

  /** The box of a line is the smallest box around its words: every word lies
      inside, and each edge of the line is the same edge of one of its words. */
  ghost predicate Spans(l: Line) {
    && (forall w :: w in l.words ==>
          l.left <= w.left && l.top <= w.top && w.left + w.width <= l.right && w.top + w.height <= l.bottom)
    && l.left in Lefts(l.words) && l.top in Tops(l.words)
    && l.right in Rights(l.words) && l.bottom in Bottoms(l.words)
  }

  lemma BoxSpans(l: Line)
    requires |l.words| > 0
    requires l.left == MinOf(Lefts(l.words)) && l.top == MinOf(Tops(l.words))
    requires l.right == MaxOf(Rights(l.words)) && l.bottom == MaxOf(Bottoms(l.words))
    ensures Spans(l)
  {
    BoxInside(l);
  }

  lemma BoxInside(l: Line)
    requires |l.words| > 0
    requires l.left == MinOf(Lefts(l.words)) && l.top == MinOf(Tops(l.words))
    requires l.right == MaxOf(Rights(l.words)) && l.bottom == MaxOf(Bottoms(l.words))
    ensures forall w :: w in l.words ==>
              l.left <= w.left && l.top <= w.top && w.left + w.width <= l.right && w.top + w.height <= l.bottom
  {
    var ws := l.words;
    forall w | w in ws
      ensures l.left <= w.left && l.top <= w.top && w.left + w.width <= l.right && w.top + w.height <= l.bottom
    {
      var i :| 0 <= i < |ws| && ws[i] == w;
      assert Lefts(ws)[i] == w.left && Tops(ws)[i] == w.top;
      assert Rights(ws)[i] == w.left + w.width && Bottoms(ws)[i] == w.top + w.height;
    }
  }

  /** The line of a single word carries that word's own text, box and
      confidence. */
  lemma BuildLineSingle(cc: CharClasses, w: Word)
    requires Strip(cc, w.text) == w.text
    ensures BuildLine(cc, [w]) == Line(w.text, w.left, w.top, w.left + w.width, w.top + w.height, w.conf, [w])
  {
    var sorted := SortBy([w], LeftKey);
    assert sorted == [w] by {
      assert |sorted| == 1 && sorted[0] in multiset(sorted);
    }
    assert Texts(cc, [w]) == [w.text];
    assert Join(" ", [w.text]) == w.text;
    assert Lefts([w]) == [w.left] && Tops([w]) == [w.top];
    assert Rights([w]) == [w.left + w.width] && Bottoms([w]) == [w.top + w.height];
    assert Confs([w]) == [w.conf];
    AvgConfSingle(w.conf);
  }

  /** The confidence of a line lies between the confidences of its words. */
  lemma LineConfWithin(cc: CharClasses, ws: seq<Word>, lo: int, hi: int)
    requires |ws| > 0
    requires forall w :: w in ws && w.conf.Some? ==> lo <= w.conf.value <= hi
    ensures BuildLine(cc, ws).conf.Some? ==> lo <= BuildLine(cc, ws).conf.value <= hi
  {
    var sorted := SortBy(ws, LeftKey);
    forall i | 0 <= i < |sorted| && Confs(sorted)[i].Some?
      ensures lo <= Confs(sorted)[i].value <= hi
    {
      assert sorted[i] in multiset(ws);
    }
    AvgConfWithin(Confs(sorted), lo, hi);
  }

  /** The lines of a sequence of groups, one per group. */
  function BuildLines(cc: CharClasses, gs: seq<seq<Word>>): (ls: seq<Line>)
    requires forall i :: 0 <= i < |gs| ==> gs[i] != []
    ensures |ls| == |gs|
    ensures forall i :: 0 <= i < |gs| ==> ls[i] == BuildLine(cc, gs[i])
  {
    seq(|gs|, i requires 0 <= i < |gs| => BuildLine(cc, gs[i]))
  }

  /** The words of each line. */
  function LineWords(ls: seq<Line>): seq<seq<Word>> {
    seq(|ls|, i requires 0 <= i < |ls| => ls[i].words)
  }

  /** Building lines keeps every word exactly once. */
  lemma BuildLinesBag(cc: CharClasses, gs: seq<seq<Word>>)
    requires forall i :: 0 <= i < |gs| ==> gs[i] != []
    ensures Bag(LineWords(BuildLines(cc, gs))) == Bag(gs)
  {
    var ls := BuildLines(cc, gs);
    var lw := LineWords(ls);
    forall i | 0 <= i < |gs| ensures multiset(lw[i]) == multiset(gs[i]) {
      assert lw[i] == ls[i].words;
    }
    BagPointwise(lw, gs);
  }

  // ---------------------------------------------------------------------
  // The path by line numbers

  /** `any(w.get('line_num', 0) != 0 for w in page_words)`. */
  predicate HasLineNum(ws: seq<Word>) {
    exists i :: 0 <= i < |ws| && ws[i].lineNum != 0
  }

  /** The sort key of a group: the line key its words share. */
  function GroupKey(g: seq<Word>): seq<int> {
    if g == [] then [] else LineKey(g[0])
  }

  /** The groups of `by_line` in ascending key order. */
  function LineGroups(ws: seq<Word>): (gs: seq<seq<Word>>)
    ensures forall i :: 0 <= i < |gs| ==> gs[i] != [] && gs[i] == Select(ws, LineKey, GroupKey(gs[i]))
    ensures forall i, j :: 0 <= i < j < |gs| ==> LexLe(GroupKey(gs[i]), GroupKey(gs[j])) && GroupKey(gs[i]) != GroupKey(gs[j])
    ensures Bag(gs) == multiset(ws)
  {
    var grouped := GroupBy(ws, LineKey);
    var gs := SortBy(grouped, GroupKey);
    SortedGroups(ws, grouped, gs);
    gs
  }

  lemma SortedGroups(ws: seq<Word>, grouped: seq<seq<Word>>, gs: seq<seq<Word>>)
    requires WellGrouped(ws, LineKey, grouped) && Bag(grouped) == multiset(ws)
    requires gs == SortBy(grouped, GroupKey)
    ensures forall i :: 0 <= i < |gs| ==> gs[i] != [] && gs[i] == Select(ws, LineKey, GroupKey(gs[i]))
    ensures forall i, j :: 0 <= i < j < |gs| ==> LexLe(GroupKey(gs[i]), GroupKey(gs[j])) && GroupKey(gs[i]) != GroupKey(gs[j])
    ensures Bag(gs) == multiset(ws)
  {
    forall i | 0 <= i < |gs| ensures gs[i] != [] && gs[i] == Select(ws, LineKey, GroupKey(gs[i])) {
      assert gs[i] in multiset(grouped);
    }
    GroupedDistinct(ws, grouped);
    SortByStrict(grouped, GroupKey);
    BagPermutation(gs, grouped);
  }

  lemma GroupedDistinct(ws: seq<Word>, grouped: seq<seq<Word>>)
    requires WellGrouped(ws, LineKey, grouped)
    ensures DistinctKeys(grouped, GroupKey)
  {
    forall i, j | 0 <= i < j < |grouped| ensures GroupKey(grouped[i]) != GroupKey(grouped[j]) {
    }
  }

  /** The path by line numbers: one line per `(block_num, par_num, line_num)`
      key, in ascending key order. */
  function ExactLines(cc: CharClasses, ws: seq<Word>): (ls: seq<Line>)
    ensures Bag(LineWords(ls)) == multiset(ws)
  {
    var gs := LineGroups(ws);
    BuildLinesBag(cc, gs);
    BuildLines(cc, gs)
  }

  /** Each line of the line-number path holds exactly the words with its
      key; the keys strictly ascend from line to line. */
  lemma ExactLinesByKey(cc: CharClasses, ws: seq<Word>)
    ensures var ls := ExactLines(cc, ws);
            && (forall i :: 0 <= i < |ls| ==>
                 && ls[i].words != []
                 && multiset(ls[i].words) == multiset(Select(ws, LineKey, LineKey(ls[i].words[0]))))
            && (forall i, j :: 0 <= i < j < |ls| ==>
                 LexLe(LineKey(ls[i].words[0]), LineKey(ls[j].words[0]))
                 && LineKey(ls[i].words[0]) != LineKey(ls[j].words[0]))
  {
    var gs := LineGroups(ws);
    var ls := ExactLines(cc, ws);
    forall i | 0 <= i < |ls| ensures LineKey(ls[i].words[0]) == GroupKey(gs[i]) {
      SameKeyWords(ws, gs[i], ls[i].words);
    }
  }

  /** All words of a key's group, in any order, have that key. */
  lemma SameKeyWords(ws: seq<Word>, g: seq<Word>, words: seq<Word>)
    requires g != [] && g == Select(ws, LineKey, GroupKey(g))
    requires multiset(words) == multiset(g) && words != []
    ensures LineKey(words[0]) == GroupKey(g)
  {
    assert words[0] in multiset(g);
  }

  /** Words with the same key end up on the same line, words with different
      keys on different lines. */
  lemma ExactLinesSameLine(cc: CharClasses, ws: seq<Word>, i: nat, j: nat)
    requires i < |ws| && j < |ws|
    ensures var ls := ExactLines(cc, ws);
            exists a :: 0 <= a < |ls| && ws[i] in ls[a].words
                        && (ws[j] in ls[a].words <==> LineKey(ws[i]) == LineKey(ws[j]))
  {
    var gs := LineGroups(ws);
    var ls := ExactLines(cc, ws);
    ExactLinesGroups(cc, ws);
    var a := GroupIndex(ws, i);
    SelectHasIndex(ws, LineKey, i);
    SelectHasIndex(ws, LineKey, j);
    SameMembers(ls[a].words, gs[a], ws[i]);
    SameMembers(ls[a].words, gs[a], ws[j]);
  }

  lemma SameMembers<T>(a: seq<T>, b: seq<T>, x: T)
    requires multiset(a) == multiset(b)
    ensures x in a <==> x in b
  {
    assert x in a <==> x in multiset(a);
    assert x in b <==> x in multiset(b);
  }

  /** The line-number path builds the lines from the sorted groups, one each. */
  lemma ExactLinesGroups(cc: CharClasses, ws: seq<Word>)
    ensures var ls := ExactLines(cc, ws);
            var gs := LineGroups(ws);
            |ls| == |gs| && forall a :: 0 <= a < |ls| ==> multiset(ls[a].words) == multiset(gs[a])
  {
  }

  /** The group that holds a word is the group of the word's key. */
  lemma GroupIndex(ws: seq<Word>, i: nat) returns (a: nat)
    requires i < |ws|
    ensures a < |LineGroups(ws)| && LineGroups(ws)[a] == Select(ws, LineKey, LineKey(ws[i]))
  {
    var gs := LineGroups(ws);
    assert ws[i] in multiset(ws);
    InBag(gs, ws[i]);
    a :| 0 <= a < |gs| && ws[i] in gs[a];
    assert ws[i] in Select(ws, LineKey, GroupKey(gs[a]));
  }

  lemma {:induction false} SelectHasIndex<T, K>(s: seq<T>, key: T -> K, i: nat)
    requires i < |s|
    ensures s[i] in Select(s, key, key(s[i]))
  {
    var init := s[..|s| - 1];
    if i < |s| - 1 {
      assert init[i] == s[i];
      SelectHasIndex(init, key, i);
    }
  }

  // ---------------------------------------------------------------------
  // The fallback clustering by `top`

  /** The `y_tol` default; no caller overrides it. */
  const YTol: real := 0.5

  /** A group under construction: its running average `top` and its words. */
  datatype Cluster = Cluster(top: int, words: seq<Word>)

  /** `w.get('height', 20) or 20`. */
  function HeightOr20(w: Word): int {
    if w.height != 0 then w.height else 20
  }

  /** The heights given to `_median`, one per word. */
  function Heights(ws: seq<Word>): (hs: seq<int>)
    ensures |hs| == |ws|
  {
    seq(|ws|, i requires 0 <= i < |ws| => HeightOr20(ws[i]))
  }

  /** `_median([...]) or 20`: the median height, 20 when it is missing or 0. */
  function MedianHeight(ws: seq<Word>): (m: real)
    ensures m != 0.0
    ensures |ws| == 0 ==> m == 20.0
  {
    var m := Median(AllPresent(Heights(ws)));
    if m.None? || m.value == 0.0 then 20.0 else m.value
  }

  /** When every word has the same height `h`, the tolerance unit is `h`, or
      20 when `h` is 0. */
  lemma MedianHeightUniform(ws: seq<Word>, h: int)
    requires |ws| > 0
    requires forall w :: w in ws ==> w.height == h
    ensures MedianHeight(ws) == if h == 0 then 20.0 else h as real
  {
    var v := if h == 0 then 20 else h;
    var arr := AllPresent(Heights(ws));
    forall i | 0 <= i < |arr| && arr[i].Some? ensures v <= arr[i].value <= v {
      assert ws[i] in ws;
    }
    MedianWithin(arr, v, v);
  }

  /** Unless the median of the heights is 0, the tolerance unit splits the
      heights in halves: at most half lie below it and at most half above. */
  lemma MedianHeightHalves(ws: seq<Word>)
    requires |ws| > 0
    ensures var m := MedianHeight(ws);
            Median(AllPresent(Heights(ws))) == Some(0.0) ||
            (2 * Count(Heights(ws), Below(m)) <= |ws| && 2 * Count(Heights(ws), Above(m)) <= |ws|)
  {
    var arr := AllPresent(Heights(ws));
    if Median(arr) != Some(0.0) {
      PresentAll(Heights(ws));
      MedianHalves(arr);
    }
  }

  function Abs(x: int): nat {
    if x < 0 then -x else x
  }

  /** `abs(w.get('top', 0) - g['top']) <= median_h * y_tol`. */
  predicate Near(w: Word, top: int, medianH: real) {
    Abs(w.top - top) as real <= medianH * YTol
  }

  /** The first cluster near `w`, or `|cs|` when there is none. */
  function FirstNear(cs: seq<Cluster>, w: Word, medianH: real): (i: nat)
    ensures i <= |cs|
    ensures forall j :: 0 <= j < i ==> !Near(w, cs[j].top, medianH)
    ensures i < |cs| ==> Near(w, cs[i].top, medianH)
  {
    if |cs| == 0 then 0
    else if Near(w, cs[0].top, medianH) then 0
    else 1 + FirstNear(cs[1..], w, medianH)
  }

  /** A cluster takes a word; its `top` becomes the truncated mean of its
      words' tops. */
  function Absorb(c: Cluster, w: Word): Cluster {
    var ws := c.words + [w];
    Cluster(TruncMean(Tops(ws)), ws)
  }

  /** One step of the clustering loop: the word joins the first cluster near
      it, or opens a new cluster at the end. */
  function Place(cs: seq<Cluster>, w: Word, medianH: real): (r: seq<Cluster>)
    ensures (forall j :: 0 <= j < |cs| ==> !Near(w, cs[j].top, medianH)) <==> r == cs + [Cluster(w.top, [w])]
    ensures forall i :: 0 <= i < |cs| && Near(w, cs[i].top, medianH)
                        && (forall j :: 0 <= j < i ==> !Near(w, cs[j].top, medianH))
                        ==> r == cs[i := Absorb(cs[i], w)]
  {
    var i := FirstNear(cs, w, medianH);
    if i < |cs| then cs[i := Absorb(cs[i], w)] else cs + [Cluster(w.top, [w])]
  }

  /** Every cluster is non-empty and its `top` is the truncated mean of its
      words' tops. */
  ghost predicate ClustersConsistent(cs: seq<Cluster>) {
    forall i :: 0 <= i < |cs| ==> cs[i].words != [] && cs[i].top == TruncMean(Tops(cs[i].words))
  }

  function ClusterWords(cs: seq<Cluster>): seq<seq<Word>> {
    seq(|cs|, i requires 0 <= i < |cs| => cs[i].words)
  }

  /** The clusters of `ws`, words taken in order. */
  function Clusters(ws: seq<Word>, medianH: real): (cs: seq<Cluster>)
    ensures ClustersConsistent(cs)
    ensures Bag(ClusterWords(cs)) == multiset(ws)
  {
    if |ws| == 0 then []
    else
      var cs := Clusters(ws[..|ws| - 1], medianH);
      var w := ws[|ws| - 1];
      LastSplit(ws);
      PlaceKeeps(cs, w, medianH);
      Place(cs, w, medianH)
  }

  lemma PlaceKeeps(cs: seq<Cluster>, w: Word, medianH: real)
    requires ClustersConsistent(cs)
    ensures ClustersConsistent(Place(cs, w, medianH))
    ensures Bag(ClusterWords(Place(cs, w, medianH))) == Bag(ClusterWords(cs)) + multiset{w}
  {
    var i := FirstNear(cs, w, medianH);
    var r := Place(cs, w, medianH);
    if i < |cs| {
      assert ClusterWords(r) == ClusterWords(cs)[i := ClusterWords(cs)[i] + [w]];
      BagAppendTo(ClusterWords(cs), i, w);
    } else {
      assert Tops([w]) == [w.top];
      assert Sum([w.top]) == w.top by {
        assert [w.top][..0] == [];
      }
      assert forall j :: 0 <= j < |cs| ==> r[j] == cs[j];
      assert ClusterWords(r) == ClusterWords(cs) + [[w]];
      assert (ClusterWords(cs) + [[w]])[..|cs|] == ClusterWords(cs);
    }
  }

  /** The running `top` of a cluster lies between its lowest and highest
      word. */
  lemma ClusterTopWithin(cs: seq<Cluster>, i: nat, lo: int, hi: int)
    requires ClustersConsistent(cs) && i < |cs|
    requires forall w :: w in cs[i].words ==> lo <= w.top <= hi
    ensures lo <= cs[i].top <= hi
  {
    var ts := Tops(cs[i].words);
    forall k | 0 <= k < |ts| ensures lo <= ts[k] <= hi {
      assert cs[i].words[k] in cs[i].words;
    }
    TruncMeanWithin(ts, lo, hi);
  }

  /** The fallback path: words sorted by `top`, clustered with the median
      height as tolerance, one line per cluster in the order clusters were
      opened. */
  function FallbackLines(cc: CharClasses, ws: seq<Word>): (ls: seq<Line>)
    ensures Bag(LineWords(ls)) == multiset(ws)
  {
    var sorted := SortBy(ws, TopKey);
    var cs := Clusters(sorted, MedianHeight(sorted));
    var gs := ClusterWords(cs);
    BuildLinesBag(cc, gs);
    BuildLines(cc, gs)
  }

  /** Words that all share one `top` and have no negative height form a
      single line. */
  lemma FallbackSameTop(cc: CharClasses, ws: seq<Word>, t: int)
    requires |ws| > 0
    requires forall w :: w in ws ==> w.top == t && w.height >= 0
    ensures |FallbackLines(cc, ws)| == 1
  {
    var sorted := SortBy(ws, TopKey);
    var m := MedianHeight(sorted);
    assert forall w :: w in sorted ==> w.top == t && w.height >= 0 by {
      forall w | w in sorted ensures w.top == t && w.height >= 0 {
        SameMembers(sorted, ws, w);
      }
    }
    assert |Clusters(sorted, m)| == 1 by {
      MedianHeightPositive(sorted);
      ClustersSameTop(sorted, t, m);
    }
  }

  /** Without negative heights the tolerance is positive. */
  lemma MedianHeightPositive(ws: seq<Word>)
    requires forall w :: w in ws ==> w.height >= 0
    ensures MedianHeight(ws) > 0.0
  {
    var arr := AllPresent(Heights(ws));
    forall i | 0 <= i < |arr| && arr[i].Some? ensures 0 <= arr[i].value {
      assert ws[i] in ws;
    }
    MedianAtLeast(arr, 0);
  }

  /** Words sharing one `top` fall into a single cluster at that `top`. */
  lemma {:induction false} ClustersSameTop(ws: seq<Word>, t: int, medianH: real)
    requires |ws| > 0 && medianH >= 0.0
    requires forall w :: w in ws ==> w.top == t
    ensures Clusters(ws, medianH) == [Cluster(t, ws)]
  {
    var init := ws[..|ws| - 1];
    var w := ws[|ws| - 1];
    ClustersLast(ws, medianH);
    LastSplit(ws);
    if |init| == 0 {
      assert Clusters(init, medianH) == [];
    } else {
      assert forall v :: v in init ==> v.top == t;
      ClustersSameTop(init, t, medianH);
      assert w in ws;
      PlaceNear(Cluster(t, init), w, medianH);
      AbsorbSameTop(init, w, t);
    }
  }

  /** A word near the only cluster joins it. */
  lemma PlaceNear(c: Cluster, w: Word, medianH: real)
    requires Near(w, c.top, medianH)
    ensures Place([c], w, medianH) == [Absorb(c, w)]
  {
    assert FirstNear([c], w, medianH) == 0;
  }

  /** The clusters of a non-empty sequence place its last word into the
      clusters of the others. */
  lemma ClustersLast(ws: seq<Word>, medianH: real)
    requires |ws| > 0
    ensures Clusters(ws, medianH) == Place(Clusters(ws[..|ws| - 1], medianH), ws[|ws| - 1], medianH)
  {
  }

  /** A word at a cluster's own `top` leaves that `top` unchanged. */
  lemma AbsorbSameTop(ws: seq<Word>, w: Word, t: int)
    requires |ws| > 0 && w.top == t
    requires forall v :: v in ws ==> v.top == t
    ensures Absorb(Cluster(t, ws), w) == Cluster(t, ws + [w])
  {
    var pre := ws + [w];
    var ts := Tops(pre);
    forall k | 0 <= k < |ts| ensures t <= ts[k] <= t {
      assert pre[k] in ws || pre[k] == w;
    }
    TruncMeanWithin(ts, t, t);
  }

  // ---------------------------------------------------------------------

  /** `group_words_to_lines`. */
  function GroupWordsToLines(cc: CharClasses, ws: seq<Word>): (ls: seq<Line>)
    ensures Bag(LineWords(ls)) == multiset(ws)
  {
    if HasLineNum(ws) then ExactLines(cc, ws) else FallbackLines(cc, ws)
  }
}
