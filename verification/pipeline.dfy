/** The merger's driver: `load_blocks` reads the OCR rows of one JSONL file
    and groups them by page; `main` turns each page, in ascending page order,
    into question candidates stamped with their page. Reading and writing
    files and `json.loads` are left to the caller: the file is given as its
    lines and the JSON decoder as a function. */
module Pipeline {
  import opened Wrappers
  import opened Text
  import opened Ordering
  import opened Grouping
  import opened Rows
  import opened Lines
  import opened Candidates

  /** Why loading stops: a line that does not decode to a JSON object, or a
      row that `normalize_row` rejects. `lineNo` counts the file's lines from
      zero. */
  datatype LoadError = NotAnObjectLine(lineNo: nat) | BadRow(lineNo: nat, err: RowError)

  /** One item of the page dictionary: a page number and its words in file
      order. */
  datatype Page = Page(page: int, words: seq<Word>)

  /** A candidate stamped with its page. */
  datatype PagedCandidate = PagedCandidate(page: int, cand: Candidate)

  /** `not line.strip()`. */
  predicate BlankLine(cc: CharClasses, s: string) {
    Strip(cc, s) == []
  }

  /** What one non-blank line yields: its decoded and normalised row, or
      the error that stops the load. */
  function LoadLine(cc: CharClasses, parse: string -> Option<Row>, s: string, lineNo: nat): Result<Word, LoadError> {
    match parse(s)
    case None => Err(NotAnObjectLine(lineNo))
    case Some(obj) =>
      match NormalizeRow(cc, obj)
      case Err(e) => Err(BadRow(lineNo, e))
      case Ok(w) => Ok(w)
  }

  /** The indices of the lines from `from` on that are not skipped,
      ascending. */
  function Kept(lines: seq<string>, skip: string -> bool, from: nat): (ks: seq<nat>)
    requires from <= |lines|
    ensures forall x :: x in ks <==> from <= x < |lines| && !skip(lines[x])
    ensures forall k :: 0 <= k < |ks| ==> from <= ks[k] < |lines|
    ensures forall a, b :: 0 <= a < b < |ks| ==> ks[a] < ks[b]
    decreases |lines| - from
  {
    if from == |lines| then []
    else
      var rest := Kept(lines, skip, from + 1);
      if skip(lines[from]) then rest
      else
        assert forall b :: 0 <= b < |rest| ==> rest[b] in rest;
        [from] + rest
  }

  /** The rows of the lines from `from` on: skipped lines are passed over,
      every other line is read, and the first line that fails to read stops
      the load. */
  function Load(lines: seq<string>, skip: string -> bool, read: (string, nat) -> Result<Word, LoadError>, from: nat)
    : (r: Result<seq<Word>, LoadError>)
    requires from <= |lines|
    decreases |lines| - from
  {
    if from == |lines| then Ok([])
    else if skip(lines[from]) then Load(lines, skip, read, from + 1)
    else
      match read(lines[from], from)
      case Err(e) => Err(e)
      case Ok(w) =>
        match Load(lines, skip, read, from + 1)
        case Err(e) => Err(e)
        case Ok(ws) => Ok([w] + ws)
  }

  /** Loading succeeds exactly when every line not skipped reads, and then
      yields their rows in file order, one per line not skipped. */
  lemma {:induction false} LoadOk(lines: seq<string>, skip: string -> bool, read: (string, nat) -> Result<Word, LoadError>, from: nat)
    requires from <= |lines|
    ensures Load(lines, skip, read, from).Ok?
            <==> forall x :: from <= x < |lines| && !skip(lines[x]) ==> read(lines[x], x).Ok?
    ensures Load(lines, skip, read, from).Ok? ==>
              |Load(lines, skip, read, from).value| == |Kept(lines, skip, from)|
              && forall k :: 0 <= k < |Kept(lines, skip, from)| ==>
                   read(lines[Kept(lines, skip, from)[k]], Kept(lines, skip, from)[k])
                     == Ok(Load(lines, skip, read, from).value[k])
    decreases |lines| - from
  {
    if from < |lines| {
      LoadOk(lines, skip, read, from + 1);
      if !skip(lines[from]) {
        assert Kept(lines, skip, from) == [from] + Kept(lines, skip, from + 1);
      }
    }
  }

  /** When loading fails, it fails with the error of the first line not
      skipped that does not read. */
  lemma {:induction false} LoadErr(lines: seq<string>, skip: string -> bool, read: (string, nat) -> Result<Word, LoadError>, from: nat)
    requires from <= |lines|
    requires Load(lines, skip, read, from).Err?
    ensures exists x ::
              && from <= x < |lines| && !skip(lines[x])
              && read(lines[x], x) == Err(Load(lines, skip, read, from).error)
              && forall y :: from <= y < x && !skip(lines[y]) ==> read(lines[y], y).Ok?
    decreases |lines| - from
  {
    if skip(lines[from]) || read(lines[from], from).Ok? {
      LoadErr(lines, skip, read, from + 1);
    } else {
      assert read(lines[from], from) == Err(Load(lines, skip, read, from).error);
    }
  }

  /** The rows of a JSONL file's lines: blank lines are skipped, and every
      other line is decoded and normalised. */
  function LoadRows(cc: CharClasses, lines: seq<string>, parse: string -> Option<Row>): Result<seq<Word>, LoadError> {
    Load(lines, Blank(cc), Reader(cc, parse), 0)
  }

  function Blank(cc: CharClasses): string -> bool {
    s => BlankLine(cc, s)
  }

  function Reader(cc: CharClasses, parse: string -> Option<Row>): (string, nat) -> Result<Word, LoadError> {
    (s: string, n: nat) => LoadLine(cc, parse, s, n)
  }

  function WordPage(w: Word): int {
    w.page
  }

  /** The page dictionary of a list of rows: pages in the order they first
      appear, each with exactly its rows in file order. */
  function PagesOf(ws: seq<Word>): (ps: seq<Page>)
    ensures forall i :: 0 <= i < |ps| ==> ps[i].words != [] && ps[i].words == Select(ws, WordPage, ps[i].page)
    ensures forall i, j :: 0 <= i < j < |ps| ==> ps[i].page != ps[j].page
    ensures forall w :: w in ws ==> exists i :: 0 <= i < |ps| && ps[i].page == w.page
  {
    var gs := GroupBy(ws, WordPage);
    PagesOfGroups(ws, gs);
    GroupPages(gs)
  }

  /** One page per group, numbered by the group's first word. */
  function GroupPages(gs: seq<seq<Word>>): (ps: seq<Page>)
    requires forall i :: 0 <= i < |gs| ==> gs[i] != []
    ensures |ps| == |gs| && forall i :: 0 <= i < |gs| ==> ps[i] == Page(gs[i][0].page, gs[i])
  {
    seq(|gs|, i requires 0 <= i < |gs| => Page(gs[i][0].page, gs[i]))
  }

  lemma PagesOfGroups(ws: seq<Word>, gs: seq<seq<Word>>)
    requires WellGrouped(ws, WordPage, gs) && Bag(gs) == multiset(ws)
    ensures var ps := GroupPages(gs);
            && (forall i :: 0 <= i < |ps| ==> ps[i].words != [] && ps[i].words == Select(ws, WordPage, ps[i].page))
            && (forall i, j :: 0 <= i < j < |ps| ==> ps[i].page != ps[j].page)
            && (forall w :: w in ws ==> exists i :: 0 <= i < |ps| && ps[i].page == w.page)
  {
    var ps := GroupPages(gs);
    forall i | 0 <= i < |ps| ensures ps[i].words != [] && ps[i].words == Select(ws, WordPage, ps[i].page) {
      assert ps[i].page == WordPage(gs[i][0]);
    }
    forall i, j | 0 <= i < j < |ps| ensures ps[i].page != ps[j].page {
      assert WordPage(gs[i][0]) != WordPage(gs[j][0]);
    }
    forall w | w in ws ensures exists i :: 0 <= i < |ps| && ps[i].page == w.page {
      Covered(ws, WordPage, gs, w);
      var j :| 0 <= j < |gs| && WordPage(gs[j][0]) == WordPage(w);
      assert ps[j].page == w.page;
    }
  }

  /** `load_blocks`. */
  function LoadBlocks(cc: CharClasses, lines: seq<string>, parse: string -> Option<Row>)
    : (r: Result<seq<Page>, LoadError>)
    ensures r.Ok? <==> LoadRows(cc, lines, parse).Ok?
    ensures r.Ok? ==> r.value == PagesOf(LoadRows(cc, lines, parse).value)
  {
    var ws :- LoadRows(cc, lines, parse);
    Ok(PagesOf(ws))
  }

  /** `ps` is the page dictionary of the rows `ws`: every page holds exactly
      its rows in order, no page number repeats, and every row has its page. */
  predicate PagesOfRows(ws: seq<Word>, ps: seq<Page>) {
    && (forall i :: 0 <= i < |ps| ==> ps[i].words != [] && ps[i].words == Select(ws, WordPage, ps[i].page))
    && (forall i, j :: 0 <= i < j < |ps| ==> ps[i].page != ps[j].page)
    && (forall w :: w in ws ==> exists i :: 0 <= i < |ps| && ps[i].page == w.page)
  }

  /** `load_blocks` over the file's lines: it succeeds exactly when every
      non-blank line reads, and fails with the error of the first one that
      does not; on success its pages are the page dictionary of one row per
      non-blank line, in file order. */
  lemma LoadBlocksPages(cc: CharClasses, lines: seq<string>, parse: string -> Option<Row>)
    ensures LoadBlocks(cc, lines, parse).Ok?
            <==> forall x :: 0 <= x < |lines| && !BlankLine(cc, lines[x]) ==> LoadLine(cc, parse, lines[x], x).Ok?
    ensures LoadBlocks(cc, lines, parse).Err? ==>
              exists x ::
                && 0 <= x < |lines| && !BlankLine(cc, lines[x])
                && LoadLine(cc, parse, lines[x], x) == Err(LoadBlocks(cc, lines, parse).error)
                && forall y :: 0 <= y < x && !BlankLine(cc, lines[y]) ==> LoadLine(cc, parse, lines[y], y).Ok?
    ensures LoadBlocks(cc, lines, parse).Ok? ==>
              var ks := Kept(lines, Blank(cc), 0);
              exists ws: seq<Word> ::
                && |ws| == |ks|
                && (forall k :: 0 <= k < |ks| ==> LoadLine(cc, parse, lines[ks[k]], ks[k]) == Ok(ws[k]))
                && PagesOfRows(ws, LoadBlocks(cc, lines, parse).value)
  {
    LoadBlocksReads(cc, lines, parse);
    if LoadBlocks(cc, lines, parse).Err? {
      LoadBlocksFirstError(cc, lines, parse);
    } else {
      LoadBlocksRows(cc, lines, parse);
    }
  }

  lemma LoadBlocksReads(cc: CharClasses, lines: seq<string>, parse: string -> Option<Row>)
    ensures LoadBlocks(cc, lines, parse).Ok?
            <==> forall x :: 0 <= x < |lines| && !BlankLine(cc, lines[x]) ==> LoadLine(cc, parse, lines[x], x).Ok?
  {
    var skip, read := Blank(cc), Reader(cc, parse);
    LoadOk(lines, skip, read, 0);
    assert forall x :: 0 <= x < |lines| ==> skip(lines[x]) == BlankLine(cc, lines[x]) && read(lines[x], x) == LoadLine(cc, parse, lines[x], x);
  }

  lemma LoadBlocksFirstError(cc: CharClasses, lines: seq<string>, parse: string -> Option<Row>)
    requires LoadBlocks(cc, lines, parse).Err?
    ensures exists x ::
              && 0 <= x < |lines| && !BlankLine(cc, lines[x])
              && LoadLine(cc, parse, lines[x], x) == Err(LoadBlocks(cc, lines, parse).error)
              && forall y :: 0 <= y < x && !BlankLine(cc, lines[y]) ==> LoadLine(cc, parse, lines[y], y).Ok?
  {
    var skip, read := Blank(cc), Reader(cc, parse);
    LoadErr(lines, skip, read, 0);
    assert forall x :: 0 <= x < |lines| ==> skip(lines[x]) == BlankLine(cc, lines[x]) && read(lines[x], x) == LoadLine(cc, parse, lines[x], x);
  }

  lemma LoadBlocksRows(cc: CharClasses, lines: seq<string>, parse: string -> Option<Row>)
    requires LoadBlocks(cc, lines, parse).Ok?
    ensures var ks := Kept(lines, Blank(cc), 0);
            exists ws: seq<Word> ::
              && |ws| == |ks|
              && (forall k :: 0 <= k < |ks| ==> LoadLine(cc, parse, lines[ks[k]], ks[k]) == Ok(ws[k]))
              && PagesOfRows(ws, LoadBlocks(cc, lines, parse).value)
  {
    var skip, read := Blank(cc), Reader(cc, parse);
    var ks := Kept(lines, skip, 0);
    var ws := LoadRows(cc, lines, parse).value;
    assert |ws| == |ks| && forall k :: 0 <= k < |ks| ==> LoadLine(cc, parse, lines[ks[k]], ks[k]) == Ok(ws[k]) by {
      LoadOk(lines, skip, read, 0);
    }
    assert PagesOfRows(ws, LoadBlocks(cc, lines, parse).value) by {
      PagesOfIsPages(ws);
    }
  }

  lemma PagesOfIsPages(ws: seq<Word>)
    ensures PagesOfRows(ws, PagesOf(ws))
  {
  }

  function PageKey(p: Page): seq<int> {
    [p.page]
  }

  /** `(l['top'], l['left'])`. */
  function TopLeftKey(l: Line): seq<int> {
    [l.top, l.left]
  }

  function CandPage(c: PagedCandidate): int {
    c.page
  }

  function Stamp(page: int, cs: seq<Candidate>): (r: seq<PagedCandidate>)
    ensures |r| == |cs| && forall k :: 0 <= k < |cs| ==> r[k] == PagedCandidate(page, cs[k])
  {
    seq(|cs|, k requires 0 <= k < |cs| => PagedCandidate(page, cs[k]))
  }

  /** What `main`'s page loop does with one page: the page's lines, sorted
      by top and then left, cut into candidates. */
  function PageCandidates(cc: CharClasses, p: Page): seq<Candidate> {
    GroupLinesToCandidates(cc, SortBy(GroupWordsToLines(cc, p.words), TopLeftKey))
  }

  function Flatten<T>(xss: seq<seq<T>>): seq<T> {
    if |xss| == 0 then [] else xss[0] + Flatten(xss[1..])
  }

  /** Each page's candidates, stamped with the page. */
  function PerPage(ps: seq<Page>, cands: Page -> seq<Candidate>): (r: seq<seq<PagedCandidate>>)
    ensures |r| == |ps| && forall i :: 0 <= i < |ps| ==> r[i] == Stamp(ps[i].page, cands(ps[i]))
  {
    seq(|ps|, i requires 0 <= i < |ps| => Stamp(ps[i].page, cands(ps[i])))
  }

  /** `main`'s loop, for any way `cands` of cutting a page into candidates:
      the stamped candidates of every page, pages in ascending order. */
  function MergeWith(pages: seq<Page>, cands: Page -> seq<Candidate>): seq<PagedCandidate> {
    Flatten(PerPage(SortBy(pages, PageKey), cands))
  }

  /** `main`'s loop. */
  function MergeCandidates(cc: CharClasses, pages: seq<Page>): seq<PagedCandidate> {
    MergeWith(pages, p => PageCandidates(cc, p))
  }

  /** The whole merge: load the rows, group them by page, then cut each
      page into candidates. */
  function Merge(cc: CharClasses, lines: seq<string>, parse: string -> Option<Row>)
    : (r: Result<seq<PagedCandidate>, LoadError>)
    ensures r.Ok? <==> LoadRows(cc, lines, parse).Ok?
  {
    var pages :- LoadBlocks(cc, lines, parse);
    Ok(MergeCandidates(cc, pages))
  }

  ghost predicate PagesAscending(cs: seq<PagedCandidate>) {
    forall a, b :: 0 <= a < b < |cs| ==> cs[a].page <= cs[b].page
  }

  /** Every group holds candidates of its own page. */
  ghost predicate OnPages(xss: seq<seq<PagedCandidate>>, pages: seq<int>) {
    |xss| == |pages| && forall i, k :: 0 <= i < |xss| && 0 <= k < |xss[i]| ==> xss[i][k].page == pages[i]
  }

  lemma {:induction false} FlattenAtLeast(xss: seq<seq<PagedCandidate>>, pages: seq<int>, lo: int)
    requires OnPages(xss, pages)
    requires forall i :: 0 <= i < |pages| ==> lo <= pages[i]
    ensures forall k :: 0 <= k < |Flatten(xss)| ==> lo <= Flatten(xss)[k].page
  {
    if |xss| > 0 {
      FlattenAtLeast(xss[1..], pages[1..], lo);
      var f := Flatten(xss);
      forall k | 0 <= k < |f| ensures lo <= f[k].page {
        if k < |xss[0]| {
          assert f[k] == xss[0][k];
        } else {
          assert f[k] == Flatten(xss[1..])[k - |xss[0]|];
        }
      }
    }
  }

  /** Groups of candidates of ascending pages flatten to candidates in
      ascending page order. */
  lemma {:induction false} FlattenAscending(xss: seq<seq<PagedCandidate>>, pages: seq<int>)
    requires OnPages(xss, pages)
    requires forall i, j :: 0 <= i < j < |pages| ==> pages[i] <= pages[j]
    ensures PagesAscending(Flatten(xss))
  {
    if |xss| > 0 {
      var head := xss[0];
      var rest := Flatten(xss[1..]);
      FlattenAscending(xss[1..], pages[1..]);
      FlattenAtLeast(xss[1..], pages[1..], pages[0]);
      var f := Flatten(xss);
      assert f == head + rest;
      forall a, b | 0 <= a < b < |f| ensures f[a].page <= f[b].page {
        if b < |head| {
          assert f[a] == head[a] && f[b] == head[b];
        } else if a < |head| {
          assert f[a] == head[a] && f[b] == rest[b - |head|];
        } else {
          assert f[a] == rest[a - |head|] && f[b] == rest[b - |head|];
        }
      }
    }
  }

  function PageNumbers(ps: seq<Page>): (r: seq<int>)
    ensures |r| == |ps| && forall i :: 0 <= i < |ps| ==> r[i] == ps[i].page
  {
    seq(|ps|, i requires 0 <= i < |ps| => ps[i].page)
  }

  lemma PerPageOnPages(ps: seq<Page>, cands: Page -> seq<Candidate>)
    ensures OnPages(PerPage(ps, cands), PageNumbers(ps))
  {
  }

  /** `main` writes the candidates in ascending page order. */
  lemma MergeAscending(pages: seq<Page>, cands: Page -> seq<Candidate>)
    ensures PagesAscending(MergeWith(pages, cands))
  {
    var sorted := SortBy(pages, PageKey);
    var nums := PageNumbers(sorted);
    forall i, j | 0 <= i < j < |nums| ensures nums[i] <= nums[j] {
      LexLeSingle(sorted[i].page, sorted[j].page);
    }
    PerPageOnPages(sorted, cands);
    FlattenAscending(PerPage(sorted, cands), nums);
  }

  lemma {:induction false} SelectConcat<T, K>(a: seq<T>, b: seq<T>, key: T -> K, k: K)
    ensures Select(a + b, key, k) == Select(a, key, k) + Select(b, key, k)
    decreases |b|
  {
    if |b| > 0 {
      var b' := b[..|b| - 1];
      var x := b[|b| - 1];
      assert a + b == (a + b') + [x];
      assert b == b' + [x];
      SelectConcat(a, b', key, k);
      SelectAppend(a + b', x, key, k);
      SelectAppend(b', x, key, k);
    } else {
      assert a + b == a;
    }
  }

  /** No group has page `p`: no candidate has it. */
  lemma {:induction false} SelectPageNone(xss: seq<seq<PagedCandidate>>, pages: seq<int>, p: int)
    requires OnPages(xss, pages)
    requires forall i :: 0 <= i < |pages| ==> pages[i] != p
    ensures Select(Flatten(xss), CandPage, p) == []
  {
    if |xss| > 0 {
      SelectPageNone(xss[1..], pages[1..], p);
      SelectConcat(xss[0], Flatten(xss[1..]), CandPage, p);
      SelectEmpty(xss[0], CandPage, p);
    }
  }

  /** In groups of distinct pages, the candidates of page `pages[i]` are
      group `i`. */
  lemma {:induction false} SelectPage(xss: seq<seq<PagedCandidate>>, pages: seq<int>, i: nat)
    requires OnPages(xss, pages)
    requires forall a, b :: 0 <= a < b < |pages| ==> pages[a] != pages[b]
    requires i < |pages|
    ensures Select(Flatten(xss), CandPage, pages[i]) == xss[i]
  {
    var p := pages[i];
    var head := Select(xss[0], CandPage, p);
    var tail := Select(Flatten(xss[1..]), CandPage, p);
    assert Select(Flatten(xss), CandPage, p) == head + tail by {
      SelectConcat(xss[0], Flatten(xss[1..]), CandPage, p);
    }
    OnPagesTail(xss, pages);
    if i == 0 {
      assert head == xss[0] by {
        SelectAll(xss[0], CandPage, p);
      }
      assert tail == [] by {
        SelectPageNone(xss[1..], pages[1..], p);
      }
    } else {
      assert head == [] by {
        SelectEmpty(xss[0], CandPage, p);
      }
      assert tail == xss[i] by {
        SelectPage(xss[1..], pages[1..], i - 1);
      }
    }
  }

  lemma OnPagesTail(xss: seq<seq<PagedCandidate>>, pages: seq<int>)
    requires OnPages(xss, pages) && |xss| > 0
    requires forall a, b :: 0 <= a < b < |pages| ==> pages[a] != pages[b]
    ensures OnPages(xss[1..], pages[1..])
    ensures forall a, b :: 0 <= a < b < |pages| - 1 ==> pages[1..][a] != pages[1..][b]
    ensures forall k :: 0 <= k < |xss[0]| ==> xss[0][k].page == pages[0]
    ensures forall j :: 0 <= j < |pages| - 1 ==> pages[1..][j] != pages[0]
  {
    forall a, b | 0 <= a < b < |pages| - 1 ensures pages[1..][a] != pages[1..][b] {
      assert pages[1..][a] == pages[a + 1] && pages[1..][b] == pages[b + 1];
    }
  }

  /** `main` stamps page `pages[i].page` on exactly the candidates of that
      page, in their order. */
  lemma MergeSelect(pages: seq<Page>, cands: Page -> seq<Candidate>, i: nat)
    requires forall a, b :: 0 <= a < b < |pages| ==> pages[a].page != pages[b].page
    requires i < |pages|
    ensures Select(MergeWith(pages, cands), CandPage, pages[i].page) == Stamp(pages[i].page, cands(pages[i]))
  {
    var sorted := SortBy(pages, PageKey);
    assert DistinctKeys(pages, PageKey);
    SortByStrict(pages, PageKey);
    var nums := PageNumbers(sorted);
    assert pages[i] in multiset(sorted);
    var j :| 0 <= j < |sorted| && sorted[j] == pages[i];
    PerPageOnPages(sorted, cands);
    SelectPage(PerPage(sorted, cands), nums, j);
  }

  /** A page number no page carries gets no candidates. */
  lemma MergeNoPage(pages: seq<Page>, cands: Page -> seq<Candidate>, p: int)
    requires forall i :: 0 <= i < |pages| ==> pages[i].page != p
    ensures Select(MergeWith(pages, cands), CandPage, p) == []
  {
    var sorted := SortBy(pages, PageKey);
    var nums := PageNumbers(sorted);
    forall k | 0 <= k < |sorted| ensures nums[k] != p {
      assert sorted[k] in multiset(pages);
    }
    PerPageOnPages(sorted, cands);
    SelectPageNone(PerPage(sorted, cands), nums, p);
  }
}
