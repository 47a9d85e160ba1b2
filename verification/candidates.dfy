/** `group_lines_to_candidates`: a left-to-right scan over the lines of one
    page that cuts them into question candidates. A numbered line opens a
    candidate that absorbs the following lines up to the next numbered line
    or a large vertical gap; an unnumbered line opens a window of up to six
    lines, extended after an option marker, that is kept only when its text
    is long enough. */
module Candidates {
  import opened Wrappers
  import opened Text
  import opened Numeric
  import opened Rows
  import opened Classify
  import opened Lines

  /** One block of a candidate: a line with its language guess. */
  datatype Block = Block(lang: Lang, text: string, bbox: Box, conf: Option<int>)

  /** A question candidate: its number (none for an unnumbered run), its
      blocks and their average confidence. */
  datatype Candidate = Candidate(qnum: Option<string>, blocks: seq<Block>, confAvg: Option<int>)

  /** `_bbox`: a line's edges as left, top, width and height. */
  function BoxOf(l: Line): (b: Box)
    ensures b.left == l.left && b.top == l.top
    ensures b.left + b.width == l.right && b.top + b.height == l.bottom
  {
    Box(l.left, l.top, l.right - l.left, l.bottom - l.top)
  }

  /** The block of a line, with the line's own text. */
  function BlockOf(cc: CharClasses, l: Line): Block {
    Block(GuessLang(cc, l.text), l.text, BoxOf(l), l.conf)
  }

  function BlockConfs(bs: seq<Block>): seq<Option<int>> {
    seq(|bs|, x requires 0 <= x < |bs| => bs[x].conf)
  }

  /** A candidate with `conf_avg` computed by `_avg_conf`. */
  function CandidateOf(qnum: Option<string>, blocks: seq<Block>): (c: Candidate)
    ensures c.qnum == qnum && c.blocks == blocks
    ensures c.confAvg.None? <==> forall x :: 0 <= x < |blocks| ==> blocks[x].conf.None?
  {
    var confs := BlockConfs(blocks);
    assert forall x :: 0 <= x < |blocks| ==> confs[x] == blocks[x].conf;
    Candidate(qnum, blocks, AvgConf(confs))
  }

  /** What the scan looks at in a line, computed once per line: the
      question-number detection, the block it contributes and whether it
      starts with an option marker. */
  datatype Prepared = Prepared(line: Line, det: Detected, block: Block, marker: bool)

  function Prepare(cc: CharClasses, l: Line): Prepared {
    Prepared(l, DetectQuestionNumber(cc, l.text), BlockOf(cc, l), IsOptionMarker(cc, l.text))
  }

  function PrepareAll(cc: CharClasses, lines: seq<Line>): (ps: seq<Prepared>)
    ensures |ps| == |lines| && forall m :: 0 <= m < |lines| ==> ps[m] == Prepare(cc, lines[m])
  {
    seq(|lines|, m requires 0 <= m < |lines| => Prepare(cc, lines[m]))
  }

  predicate Numbered(ps: seq<Prepared>, m: nat)
    requires m < |ps|
  {
    ps[m].det.qnum.Some?
  }

  /** `line.get('bottom', 0) - line.get('top', 0) or 1`. */
  function LineHeight(l: Line): int {
    var h := l.bottom - l.top;
    if h != 0 then h else 1
  }

  /** The vertical gap between two lines is more than six heights of the
      first. */
  predicate BigGap(prev: Line, next: Line) {
    next.top - prev.bottom > LineHeight(prev) * 6
  }

  predicate GapBefore(ps: seq<Prepared>, m: nat)
    requires 0 < m < |ps|
  {
    BigGap(ps[m - 1].line, ps[m].line)
  }

  /** Where a numbered candidate whose last absorbed line is `k - 1` stops:
      at the first later line that is numbered or follows a big gap. */
  function AbsorbEnd(ps: seq<Prepared>, k: nat): (e: nat)
    requires 0 < k <= |ps|
    ensures k <= e <= |ps|
    ensures forall m :: k <= m < e ==> !Numbered(ps, m) && !GapBefore(ps, m)
    ensures e < |ps| ==> Numbered(ps, e) || GapBefore(ps, e)
    decreases |ps| - k
  {
    if k == |ps| || Numbered(ps, k) || GapBefore(ps, k) then k
    else AbsorbEnd(ps, k + 1)
  }

  /** The first option-marker line in `[k, lim)`, or `lim`. */
  function FirstMarker(ps: seq<Prepared>, k: nat, lim: nat): (m: nat)
    requires k <= lim <= |ps|
    ensures k <= m <= lim
    ensures forall x :: k <= x < m ==> !ps[x].marker
    ensures m < lim ==> ps[m].marker
    decreases lim - k
  {
    if k == lim || ps[k].marker then k else FirstMarker(ps, k + 1, lim)
  }

  /** After an option marker the window runs on to the next marker line, the
      end of the page, or `cap`. */
  function OptionRunEnd(ps: seq<Prepared>, k: nat, cap: nat): (e: nat)
    requires k <= |ps|
    ensures k <= e <= |ps|
    ensures k <= cap ==> e <= cap
    ensures forall x :: k <= x < e ==> !ps[x].marker
    ensures e < |ps| ==> ps[e].marker || e >= cap
    decreases |ps| - k
  {
    if k == |ps| || ps[k].marker || k >= cap then k
    else OptionRunEnd(ps, k + 1, cap)
  }

  function Min(a: int, b: int): int {
    if a <= b then a else b
  }

  /** The end of the window an unnumbered line at `i` opens: six lines, or,
      when one of them is an option marker, up to the next marker after it,
      at most eight lines from `i`. */
  function WindowEnd(ps: seq<Prepared>, i: nat): (j: nat)
    requires i < |ps|
    ensures i < j <= |ps|
    ensures j - i <= 6 || (j - i <= 8 && exists m :: i <= m < i + 6 && m < |ps| && ps[m].marker)
    ensures (forall x :: i <= x < Min(|ps|, i + 6) ==> !ps[x].marker) ==> j == Min(|ps|, i + 6)
    ensures forall m :: i <= m < Min(|ps|, i + 6) && ps[m].marker && (forall x :: i <= x < m ==> !ps[x].marker) ==>
              j == OptionRunEnd(ps, m + 1, i + 8)
  {
    var lim := Min(|ps|, i + 6);
    var m := FirstMarker(ps, i, lim);
    if m == lim then lim else OptionRunEnd(ps, m + 1, i + 8)
  }

  function TextsOf(ps: seq<Prepared>): seq<string> {
    seq(|ps|, x requires 0 <= x < |ps| => ps[x].line.text)
  }

  /** The window's texts joined by single spaces and stripped. */
  function WindowText(cc: CharClasses, ps: seq<Prepared>, i: nat, j: nat): string
    requires i <= j <= |ps|
  {
    Strip(cc, Join(" ", TextsOf(ps[i..j])))
  }

  function BlocksIn(ps: seq<Prepared>): (bs: seq<Block>)
    ensures |bs| == |ps| && forall x :: 0 <= x < |ps| ==> bs[x] == ps[x].block
  {
    seq(|ps|, x requires 0 <= x < |ps| => ps[x].block)
  }

  /** The first block of a numbered candidate: the rest of the line after
      the number, or the whole line when nothing follows the number. */
  function FirstBlock(p: Prepared): Block {
    p.block.(text := if p.det.rest != [] then p.det.rest else p.line.text)
  }

  /** What the scan does at line `i`: the end of the candidate the line
      opens and whether that candidate is emitted. */
  datatype Opening = Opening(end: nat, keep: bool)

  function OpenAt(cc: CharClasses, ps: seq<Prepared>, i: nat): (o: Opening)
    requires i < |ps|
    ensures i < o.end <= |ps|
  {
    if Numbered(ps, i) then Opening(AbsorbEnd(ps, i + 1), true)
    else
      var j := WindowEnd(ps, i);
      Opening(j, |WindowText(cc, ps, i, j)| > 10)
  }

  predicate Openings(ps: seq<Prepared>, os: seq<Opening>) {
    |os| == |ps| && forall i :: 0 <= i < |os| ==> i < os[i].end <= |ps|
  }

  function OpeningsOf(cc: CharClasses, ps: seq<Prepared>): (os: seq<Opening>)
    ensures Openings(ps, os)
    ensures forall i :: 0 <= i < |ps| ==> os[i] == OpenAt(cc, ps, i)
  {
    seq(|ps|, i requires 0 <= i < |ps| => OpenAt(cc, ps, i))
  }

  /** The blocks of the candidate made of lines `[i, e)`. */
  function SpanBlocks(ps: seq<Prepared>, i: nat, e: nat): (bs: seq<Block>)
    requires i < e <= |ps|
    ensures |bs| == e - i
  {
    if Numbered(ps, i) then [FirstBlock(ps[i])] + BlocksIn(ps[i + 1..e]) else BlocksIn(ps[i..e])
  }

  /** An emitted candidate's number and blocks together with the lines
      `[start, end)` it was made from. */
  datatype Span = Span(start: nat, end: nat, qnum: Option<string>, blocks: seq<Block>)

  /** The scan from line `i` on: an emitted candidate resumes the scan after
      its last line, a dropped one at the next line. */
  function Scan(ps: seq<Prepared>, os: seq<Opening>, i: nat): (spans: seq<Span>)
    requires Openings(ps, os) && i <= |ps|
    ensures forall k :: 0 <= k < |spans| ==> i <= spans[k].start < spans[k].end <= |ps|
    ensures forall k :: 0 <= k < |spans| ==> |spans[k].blocks| == spans[k].end - spans[k].start
    decreases |ps| - i
  {
    if i == |ps| then []
    else if os[i].keep then
      var e := os[i].end;
      [Span(i, e, ps[i].det.qnum, SpanBlocks(ps, i, e))] + Scan(ps, os, e)
    else
      Scan(ps, os, i + 1)
  }

  /** The candidates of the spans, each with its average confidence. */
  function Cands(spans: seq<Span>): (cs: seq<Candidate>)
    ensures |cs| == |spans|
    ensures forall k :: 0 <= k < |spans| ==> cs[k] == CandidateOf(spans[k].qnum, spans[k].blocks)
  {
    seq(|spans|, k requires 0 <= k < |spans| => CandidateOf(spans[k].qnum, spans[k].blocks))
  }

  /** The spans of the candidates of a page's lines. */
  function CandidateSpans(cc: CharClasses, lines: seq<Line>): seq<Span> {
    var ps := PrepareAll(cc, lines);
    Scan(ps, OpeningsOf(cc, ps), 0)
  }

  /** `group_lines_to_candidates`. */
  function GroupLinesToCandidates(cc: CharClasses, lines: seq<Line>): (cs: seq<Candidate>)
    ensures |cs| == |CandidateSpans(cc, lines)|
    ensures forall k :: 0 <= k < |cs| ==> |cs[k].blocks| >= 1
  {
    Cands(CandidateSpans(cc, lines))
  }

  /** A span is what the opening at its first line says: it ends there, is
      kept, and holds the blocks of its lines. */
  ghost predicate Follows(ps: seq<Prepared>, os: seq<Opening>, sp: Span)
    requires Openings(ps, os)
  {
    && sp.start < |ps|
    && sp.end == os[sp.start].end
    && os[sp.start].keep
    && sp.qnum == ps[sp.start].det.qnum
    && sp.blocks == SpanBlocks(ps, sp.start, sp.end)
  }

  /** Every span follows its opening. */
  lemma {:induction false} ScanFollows(ps: seq<Prepared>, os: seq<Opening>, i: nat)
    requires Openings(ps, os) && i <= |ps|
    ensures forall k :: 0 <= k < |Scan(ps, os, i)| ==> Follows(ps, os, Scan(ps, os, i)[k])
    decreases |ps| - i
  {
    if i < |ps| {
      var spans := Scan(ps, os, i);
      if os[i].keep {
        var e := os[i].end;
        var rest := Scan(ps, os, e);
        assert spans == [Span(i, e, ps[i].det.qnum, SpanBlocks(ps, i, e))] + rest;
        ScanFollows(ps, os, e);
        forall k | 0 <= k < |spans| ensures Follows(ps, os, spans[k]) {
          if k > 0 {
            assert spans[k] == rest[k - 1];
          }
        }
      } else {
        ScanFollows(ps, os, i + 1);
      }
    }
  }

  /** Each span ends before the next one starts. */
  lemma {:induction false} ScanChained(ps: seq<Prepared>, os: seq<Opening>, i: nat)
    requires Openings(ps, os) && i <= |ps|
    ensures forall k :: 0 <= k < |Scan(ps, os, i)| - 1 ==> Scan(ps, os, i)[k].end <= Scan(ps, os, i)[k + 1].start
    decreases |ps| - i
  {
    if i < |ps| {
      var spans := Scan(ps, os, i);
      if os[i].keep {
        var e := os[i].end;
        var rest := Scan(ps, os, e);
        assert spans == [Span(i, e, ps[i].det.qnum, SpanBlocks(ps, i, e))] + rest;
        ScanChained(ps, os, e);
        forall k | 0 <= k < |spans| - 1 ensures spans[k].end <= spans[k + 1].start {
          assert spans[k + 1] == rest[k];
          if k > 0 {
            assert spans[k] == rest[k - 1];
          }
        }
      } else {
        ScanChained(ps, os, i + 1);
      }
    }
  }

  /** Spans that are each non-empty and each end before the next starts
      are pairwise disjoint and in order. */
  lemma Disjoint(spans: seq<Span>)
    requires forall k :: 0 <= k < |spans| ==> spans[k].start < spans[k].end
    requires forall k :: 0 <= k < |spans| - 1 ==> spans[k].end <= spans[k + 1].start
    ensures forall a, b :: 0 <= a < b < |spans| ==> spans[a].end <= spans[b].start
  {
    forall a, b | 0 <= a < b < |spans| ensures spans[a].end <= spans[b].start {
      DisjointFrom(spans, a, b);
    }
  }

  lemma {:induction false} DisjointFrom(spans: seq<Span>, a: nat, b: nat)
    requires forall k :: 0 <= k < |spans| ==> spans[k].start < spans[k].end
    requires forall k :: 0 <= k < |spans| - 1 ==> spans[k].end <= spans[k + 1].start
    requires a < b < |spans|
    ensures spans[a].end <= spans[b].start
    decreases b - a
  {
    if a + 1 < b {
      DisjointFrom(spans, a + 1, b);
    }
  }

  /** No span covers line `x`. */
  ghost predicate Outside(spans: seq<Span>, x: nat) {
    forall k :: 0 <= k < |spans| ==> x < spans[k].start || spans[k].end <= x
  }

  /** A line no span covers was visited by the scan, and its candidate was
      dropped. */
  lemma {:induction false} ScanSkips(ps: seq<Prepared>, os: seq<Opening>, i: nat, x: nat)
    requires Openings(ps, os) && i <= x < |ps|
    requires Outside(Scan(ps, os, i), x)
    ensures !os[x].keep
    decreases |ps| - i
  {
    var spans := Scan(ps, os, i);
    if os[i].keep {
      var rest := Scan(ps, os, os[i].end);
      assert spans == [spans[0]] + rest;
      if x >= os[i].end {
        forall k | 0 <= k < |rest| ensures x < rest[k].start || rest[k].end <= x {
          assert rest[k] == spans[k + 1];
        }
        ScanSkips(ps, os, os[i].end, x);
      }
    } else if x > i {
      ScanSkips(ps, os, i + 1, x);
    }
  }

  /** The blocks of a numbered candidate made of lines `[start, end)`: the
      first line's block with its text replaced by the rest after the
      number (or kept when nothing follows the number), then the other
      lines' blocks; the absorbed lines are unnumbered without a big gap
      before them, and the line after the last one is numbered or follows a
      big gap. */
  ghost predicate NumberedShape(ps: seq<Prepared>, sp: Span)
    requires sp.start < sp.end <= |ps| && |sp.blocks| == sp.end - sp.start
  {
    var p := ps[sp.start];
    && sp.qnum == p.det.qnum && sp.qnum.Some?
    && sp.blocks[0] == p.block.(text := if p.det.rest != [] then p.det.rest else p.line.text)
    && (forall x :: 0 < x < |sp.blocks| ==> sp.blocks[x] == ps[sp.start + x].block)
    && (forall m :: sp.start < m < sp.end ==> !Numbered(ps, m) && !GapBefore(ps, m))
    && (sp.end < |ps| ==> Numbered(ps, sp.end) || GapBefore(ps, sp.end))
  }

  /** An unnumbered candidate made of lines `[start, end)`: their blocks in
      order, ending where the window opened at `start` ends (at most six
      lines, or at most eight when one of the first six is an option
      marker), and more than ten characters of text. */
  ghost predicate WindowShape(cc: CharClasses, ps: seq<Prepared>, sp: Span)
    requires sp.start < sp.end <= |ps| && |sp.blocks| == sp.end - sp.start
  {
    && sp.qnum.None?
    && (forall x :: 0 <= x < |sp.blocks| ==> sp.blocks[x] == ps[sp.start + x].block)
    && sp.end == WindowEnd(ps, sp.start)
    && (sp.end - sp.start <= 6
        || (sp.end - sp.start <= 8 && exists m :: sp.start <= m < sp.start + 6 && ps[m].marker))
    && |WindowText(cc, ps, sp.start, sp.end)| > 10
  }

  /** A span is a numbered candidate opened by a numbered line or a window
      opened by an unnumbered one. */
  ghost predicate SpanOk(cc: CharClasses, ps: seq<Prepared>, sp: Span)
    requires sp.start < sp.end <= |ps| && |sp.blocks| == sp.end - sp.start
  {
    if Numbered(ps, sp.start) then NumberedShape(ps, sp) else WindowShape(cc, ps, sp)
  }

  lemma NumberedOpening(ps: seq<Prepared>, i: nat)
    requires i < |ps| && Numbered(ps, i)
    ensures var e := AbsorbEnd(ps, i + 1);
            NumberedShape(ps, Span(i, e, ps[i].det.qnum, SpanBlocks(ps, i, e)))
  {
    var e := AbsorbEnd(ps, i + 1);
    var tail := BlocksIn(ps[i + 1..e]);
    assert SpanBlocks(ps, i, e) == [FirstBlock(ps[i])] + tail;
  }

  lemma WindowOpening(cc: CharClasses, ps: seq<Prepared>, i: nat)
    requires i < |ps| && !Numbered(ps, i)
    requires |WindowText(cc, ps, i, WindowEnd(ps, i))| > 10
    ensures var j := WindowEnd(ps, i);
            WindowShape(cc, ps, Span(i, j, None, SpanBlocks(ps, i, j)))
  {
    var j := WindowEnd(ps, i);
    BlocksFrom(ps, i, j);
  }

  /** The blocks of lines `[i, j)`, in order. */
  lemma BlocksFrom(ps: seq<Prepared>, i: nat, j: nat)
    requires i <= j <= |ps|
    ensures forall x :: 0 <= x < j - i ==> BlocksIn(ps[i..j])[x] == ps[i + x].block
  {
    forall x | 0 <= x < j - i ensures BlocksIn(ps[i..j])[x] == ps[i + x].block {
      assert ps[i..j][x] == ps[i + x];
    }
  }

  /** A span that follows the opening computed at its first line has the
      shape `SpanOk` describes. */
  lemma FollowsOk(cc: CharClasses, ps: seq<Prepared>, os: seq<Opening>, sp: Span)
    requires Openings(ps, os) && Follows(ps, os, sp)
    requires os[sp.start] == OpenAt(cc, ps, sp.start)
    ensures sp.start < sp.end <= |ps| && |sp.blocks| == sp.end - sp.start
    ensures SpanOk(cc, ps, sp)
  {
    var i := sp.start;
    if Numbered(ps, i) {
      NumberedOpening(ps, i);
    } else {
      assert sp == Span(i, WindowEnd(ps, i), None, SpanBlocks(ps, i, WindowEnd(ps, i)));
      WindowOpening(cc, ps, i);
    }
  }

  /** Every span is a non-empty run of lines shaped as `SpanOk` says. */
  ghost predicate AllSpansOk(cc: CharClasses, ps: seq<Prepared>, spans: seq<Span>) {
    forall k :: 0 <= k < |spans| ==>
      && spans[k].start < spans[k].end <= |ps|
      && |spans[k].blocks| == spans[k].end - spans[k].start
      && SpanOk(cc, ps, spans[k])
  }

  /** The spans are in order and pairwise disjoint. */
  ghost predicate InOrder(spans: seq<Span>) {
    forall a, b :: 0 <= a < b < |spans| ==> spans[a].end <= spans[b].start
  }

  /** The scan of prepared lines yields well-shaped spans in order. */
  lemma ScanOk(cc: CharClasses, ps: seq<Prepared>)
    ensures AllSpansOk(cc, ps, Scan(ps, OpeningsOf(cc, ps), 0))
    ensures InOrder(Scan(ps, OpeningsOf(cc, ps), 0))
  {
    ScanOkWith(cc, ps, OpeningsOf(cc, ps));
  }

  lemma ScanOkWith(cc: CharClasses, ps: seq<Prepared>, os: seq<Opening>)
    requires Openings(ps, os)
    requires forall i :: 0 <= i < |ps| ==> os[i] == OpenAt(cc, ps, i)
    ensures AllSpansOk(cc, ps, Scan(ps, os, 0))
    ensures InOrder(Scan(ps, os, 0))
  {
    var spans := Scan(ps, os, 0);
    ScanFollows(ps, os, 0);
    forall k | 0 <= k < |spans|
      ensures spans[k].start < spans[k].end <= |ps| && |spans[k].blocks| == spans[k].end - spans[k].start
      ensures SpanOk(cc, ps, spans[k])
    {
      FollowsOk(cc, ps, os, spans[k]);
    }
    ScanChained(ps, os, 0);
    Disjoint(spans);
  }

  /** The candidates of `group_lines_to_candidates` come from spans of the
      input lines that are in order, disjoint, non-empty, and each shaped as
      `SpanOk` says; each candidate carries its span's number and blocks and
      averages their confidences. */
  lemma CandidateSpansOk(cc: CharClasses, lines: seq<Line>)
    ensures AllSpansOk(cc, PrepareAll(cc, lines), CandidateSpans(cc, lines))
    ensures InOrder(CandidateSpans(cc, lines))
    ensures forall k :: 0 <= k < |CandidateSpans(cc, lines)| ==>
              GroupLinesToCandidates(cc, lines)[k]
                == Candidate(CandidateSpans(cc, lines)[k].qnum, CandidateSpans(cc, lines)[k].blocks,
                             AvgConf(BlockConfs(CandidateSpans(cc, lines)[k].blocks)))
  {
    ScanOk(cc, PrepareAll(cc, lines));
  }

  /** A line no candidate holds is unnumbered and the window it opens has
      at most ten characters of text; in particular every numbered line ends
      up in a candidate. */
  lemma Uncovered(cc: CharClasses, lines: seq<Line>, x: nat)
    requires x < |lines| && Outside(CandidateSpans(cc, lines), x)
    ensures DetectQuestionNumber(cc, lines[x].text).qnum.None?
    ensures var ps := PrepareAll(cc, lines);
            |WindowText(cc, ps, x, WindowEnd(ps, x))| <= 10
  {
    var ps := PrepareAll(cc, lines);
    var os := OpeningsOf(cc, ps);
    ScanSkips(ps, os, 0, x);
    assert os[x] == OpenAt(cc, ps, x);
  }
}
