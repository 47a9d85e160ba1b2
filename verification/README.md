# OCR candidate merger, modelled in Dafny

This project models `merge_candidates.py`, the stage of the OCR pipeline that
turns word-level OCR rows into candidate question records. The stage works in
four steps:

1. **Load and normalise.** Every non-blank JSONL line is decoded into a row and
   normalised by `normalize_row`. The result is a word with page, text,
   confidence, box, and block, paragraph and line numbers. The words are then
   grouped by page in first-appearance order (`load_blocks`).
2. **Build lines.** `group_words_to_lines` turns a page's words into lines. It
   either partitions the words exactly by `(block_num, par_num, line_num)`, or,
   when no word has a line number, clusters them first-fit on `top`. The
   clustering tolerance is half the median word height (`_median`).
3. **Classify.** `detect_question_number` finds a leading question number.
   `script_ratio` and `guess_lang` give a Hindi/English/mixed guess from the
   share of Devanagari characters. An option-marker pattern spots answer lines
   `A.` to `D)`.
4. **Cut into candidates.** `group_lines_to_candidates` scans the lines from
   left to right. A numbered line absorbs the lines after it until the next
   numbered line or a large vertical gap. An unnumbered line opens a window of
   at most six lines, or at most eight once an option marker is seen. The
   window is kept only when its text is longer than ten characters. `main`
   runs this page by page in ascending page order and stamps each candidate
   with its page.

All of this is written as pure functions over immutable datatypes.

## Layout

| file | module | contents |
|---|---|---|
| `wrappers.dfy` | `Wrappers` | `Option` and `Result` |
| `text.dfy` | `Text` | character classes, `strip`, `join`, `str(int)` and `int(str)` |
| `ordering.dfy` | `Ordering` | tuple order, stable `sorted`, selection by key |
| `grouping.dfy` | `Grouping` | grouping by key in first-appearance order (dict `setdefault` loops) |
| `numeric.dfy` | `Numeric` | truncating division, `_median`, `_avg_conf` |
| `rows.dfy` | `Rows` | JSON values, `normalize_row` |
| `classify.dfy` | `Classify` | `script_ratio`, `guess_lang`, `detect_question_number`, the option marker |
| `lines.dfy` | `Lines` | `group_words_to_lines`, both paths |
| `candidates.dfy` | `Candidates` | `_bbox`, `group_lines_to_candidates` |
| `pipeline.dfy` | `Pipeline` | `load_blocks` and `main`'s page loop |

## Modelling choices

- **Unicode classes are a parameter.** `str.isalpha`, the regex class `\d`
  and the regex class `\s` become a record `CharClasses`. For `str`
  patterns, `\s` is the same set as `str.isspace`, and so the same set
  `str.strip` removes. The record is constrained only by facts the real
  Unicode tables satisfy:
  - no digit is whitespace;
  - `0`-`9` are digits;
  - printable ASCII is not whitespace, and its only digits are `0`-`9`;
  - the ASCII blanks are whitespace.
- **Regular expressions become matchers.** Each pattern is replaced by a
  deterministic matcher.
  - For the question-number pattern, `DetectMatches` proves that the matcher
    finds a number exactly when some whitespace / `Q` / `Question` lead is
    followed by a digit. `LeadUnique` proves that such a position is unique.
    This is why the greedy reading is the match.
  - For the option-marker pattern, `OptionMarkerCorrect` proves that the
    matcher accepts exactly the lines the pattern describes.
- **Arithmetic is exact.** The ratio thresholds are compared as exact
  reals, which `GuessLang` restates in integers: `10·dev > 3·alpha` and
  `20·dev < alpha`. The median is a real, and the clustering tolerance
  `median_h * 0.5` is a real. Python's `int(sum / len)` truncates toward zero
  and is written out as `TruncDiv`. Dafny's own `/` rounds toward negative
  infinity, and the two differ for negative confidences.
- **Dictionary order is explicit.** Dictionaries that are iterated in
  insertion order are modelled by `GroupBy`, which keeps groups in the order
  their keys first appear. `sorted` is modelled by `SortBy`, a stable sort on
  integer-tuple keys.
- **Outside calls are parameters.** `json.loads` is a parameter
  `parse: string -> Option<Row>`, and a line it rejects stops the load with
  an error. The input file is a parameter too: a sequence of lines.
- **Precomputed per-line results.** The candidate scan evaluates
  `detect_question_number`, `guess_lang`, `_bbox` and the option-marker match
  once per line (`Prepared`), and it evaluates what a line opens once per line
  (`Opening`). The Python evaluates the same pure functions inside its loops,
  so the values are the same.

## Model

| member | source | states |
|---|---|---|
| Text.Strip | src/Python.OCRTools/merge_candidates.py:31 | `strip()` is empty exactly when the text is all whitespace; otherwise it neither starts nor ends with whitespace |
| Text.StripTrims | src/Python.OCRTools/merge_candidates.py:31 | `strip()` keeps a slice of the text with only whitespace before and after it |
| Text.StripIdempotent | src/Python.OCRTools/merge_candidates.py:31 | stripping twice is stripping once |
| Text.ParseDecimalRepr | src/Python.OCRTools/merge_candidates.py:35 | `int(str(i)) == i` for every integer, so an integer confidence survives the string check |
| Classify.ScriptRatio | src/Python.OCRTools/merge_candidates.py:17-22 | the ratio is 0 when no character is alphabetic; otherwise it times the alphabetic count is the Devanagari count |
| Classify.ScriptRatioAtMostOne | src/Python.OCRTools/merge_candidates.py:17-22 | the ratio is at most 1 when every Devanagari character counts as alphabetic |
| Classify.ScriptRatioAboveOne | src/Python.OCRTools/merge_candidates.py:17-22 | a vowel sign is Devanagari but not alphabetic, so "का" has ratio 2 |
| Classify.GuessLang | src/Python.OCRTools/merge_candidates.py:140-146 | Hindi iff there are letters and 10·dev > 3·alpha; English iff there are no letters or 20·dev < alpha; mixed otherwise |
| Classify.GuessLangNoDevanagari | src/Python.OCRTools/merge_candidates.py:140-146 | text without Devanagari characters is English |
| Classify.GuessLangAllDevanagari | src/Python.OCRTools/merge_candidates.py:140-146 | text whose letters are all Devanagari is Hindi |
| Classify.DetectQuestionNumber | src/Python.OCRTools/merge_candidates.py:130-138 | without a match the rest is the line unchanged; with one the number is 1-4 digits and the rest is stripped and holds no newline |
| Classify.DetectMatches | src/Python.OCRTools/merge_candidates.py:130-134 | a number is found iff some whitespace / `Q` / `Question` lead is followed by a digit |
| Classify.LeadUnique | src/Python.OCRTools/merge_candidates.py:130 | at most one position holds the first digit after a lead |
| Classify.DetectNumber | src/Python.OCRTools/merge_candidates.py:130-135 | the number is the longest run of at most four digits after the lead, so five digits still match with their first four |
| Classify.DetectRest | src/Python.OCRTools/merge_candidates.py:130-138 | after a number, the rest is the text from past the whitespace, optional separator and whitespace to the end of the line, stripped |
| Classify.RestAfterSeparator | src/Python.OCRTools/merge_candidates.py:130-136 | after a separator, the rest is the remaining one-line text, stripped |
| Classify.DetectFormatted | src/Python.OCRTools/merge_candidates.py:130-137 | a line `Q<n>. <text>` with `n < 10000` reads back as number `n` and stripped `text` |
| Classify.OptionMarkerCorrect | src/Python.OCRTools/merge_candidates.py:189 | the matcher accepts a line iff it is whitespace, a letter A-D, whitespace, then `.` or `)` |
| Rows.ToInt | src/Python.OCRTools/merge_candidates.py:30 | `int()` keeps an integer, reads a boolean as 0 or 1, reads a string exactly when its stripped text is digits with an optional sign, and raises on null, lists and objects |
| Rows.Confidence | src/Python.OCRTools/merge_candidates.py:33-37 | an integer is kept; a string is kept iff it is a plain integer literal, with its value; anything else is `None` |
| Rows.ReprIsIntLiteral | src/Python.OCRTools/merge_candidates.py:35 | `str(i).lstrip('-')` is all digits for every integer |
| Rows.ParseDoubleMinus | src/Python.OCRTools/merge_candidates.py:34-37 | `int()` rejects digits behind two minus signs, although they pass the `lstrip('-')` digit check |
| Rows.TextField | src/Python.OCRTools/merge_candidates.py:31 | the text read is already stripped |
| Rows.NormalizeRow | src/Python.OCRTools/merge_candidates.py:24-58 | succeeds iff every field converts; the text is stripped, the page defaults to 1, and the confidence is the confidence rule applied to `conf` |
| Rows.NormalizeNumbers | src/Python.OCRTools/merge_candidates.py:30-56 | the page is the integer or numeric string given; `par_num` and `line_num` are the integers given, and 0 when falsy |
| Rows.NormalizeText | src/Python.OCRTools/merge_candidates.py:31 | the text is `text` if truthy, else `ocr_text` if truthy, else empty, stripped |
| Rows.NormalizeDirectBox | src/Python.OCRTools/merge_candidates.py:40-44 | with all four direct coordinates present, each is read as `int(v or 0)` whatever `bbox` holds: an integer is itself, a falsy value is 0, a numeric string is its value |
| Rows.NormalizeNestedBox | src/Python.OCRTools/merge_candidates.py:45-51 | otherwise `left` comes from `bbox`, then its alias `x`, then the row, then 0; a missing or empty `bbox` counts as empty |
| Rows.NormalizeBlockNum | src/Python.OCRTools/merge_candidates.py:54 | `block_num` falls back to `block_id`, then to 0 |
| Rows.NormalizeIdempotent | src/Python.OCRTools/merge_candidates.py:24-58 | a normalised word, written back as a row, normalises to itself |
| Rows.NormalizeTesseractRow | src/Python.OCRTools/merge_candidates.py:24-58 | a Tesseract row with a nested `bbox` and `block_id` normalises to its own fields with no paragraph or line number |
| Numeric.TruncDiv | src/Python.OCRTools/merge_candidates.py:155 | `int(a / b)` truncates toward zero for negative and non-negative `a` alike |
| Numeric.TruncMeanWithin | src/Python.OCRTools/merge_candidates.py:113 | a truncated mean lies between any bounds of the values |
| Numeric.Present | src/Python.OCRTools/merge_candidates.py:72 | the values kept are exactly those present in the input |
| Numeric.PresentCounts | src/Python.OCRTools/merge_candidates.py:72 | every present value is kept as often as it occurs, and only the missing ones are dropped |
| Numeric.SortedPresent | src/Python.OCRTools/merge_candidates.py:72 | the present values, ascending, as a permutation |
| Numeric.Median | src/Python.OCRTools/merge_candidates.py:71-78 | there is no median iff no value is present |
| Numeric.MedianIsMiddle | src/Python.OCRTools/merge_candidates.py:71-78 | the median is the middle of the sorted present values when their number is odd, and the mean of the two middle values when it is even |
| Numeric.MedianHalves | src/Python.OCRTools/merge_candidates.py:71-78 | at most half of the values lie strictly below the median, and at most half strictly above |
| Numeric.MedianWithin | src/Python.OCRTools/merge_candidates.py:71-78 | the median lies within any bounds of the values and, for an odd count, is one of them |
| Numeric.AvgConf | src/Python.OCRTools/merge_candidates.py:151-155 | `None` iff no confidence is present |
| Numeric.AvgConfWithin | src/Python.OCRTools/merge_candidates.py:151-155 | the average lies within any bounds of the present confidences |
| Numeric.AvgConfSingle | src/Python.OCRTools/merge_candidates.py:151-155 | one confidence is its own average |
| Ordering.SortBy | src/Python.OCRTools/merge_candidates.py:92 | `sorted` returns a permutation, ordered by key, that keeps equal keys in input order |
| Grouping.GroupBy | src/Python.OCRTools/merge_candidates.py:85-88 | each group is non-empty and holds exactly the elements of its key in input order; keys differ between groups; every element is grouped once |
| Lines.BuildLine | src/Python.OCRTools/merge_candidates.py:91-100 | a line's words are its group sorted stably by `left`; its box spans the words; its text is the words' stripped texts joined by spaces and stripped; its confidence is `None` iff no word has one |
| Lines.BoxSpans | src/Python.OCRTools/merge_candidates.py:94-97 | every word lies inside the line box, and each edge of the box is the same edge of some word |
| Lines.BuildLineSingle | src/Python.OCRTools/merge_candidates.py:91-100 | a one-word line carries the word's text, box and confidence |
| Lines.LineConfWithin | src/Python.OCRTools/merge_candidates.py:98-99 | a line's confidence lies within the bounds of its words' confidences |
| Lines.LineGroups | src/Python.OCRTools/merge_candidates.py:85-90 | the groups partition the words by key in strictly ascending key order |
| Lines.ExactLines | src/Python.OCRTools/merge_candidates.py:84-101 | every word lies in exactly one line |
| Lines.ExactLinesByKey | src/Python.OCRTools/merge_candidates.py:84-101 | each line holds exactly the words with its key, and keys strictly ascend in `(block, par, line)` order |
| Lines.ExactLinesSameLine | src/Python.OCRTools/merge_candidates.py:84-101 | two words share a line iff they share a key |
| Lines.MedianHeight | src/Python.OCRTools/merge_candidates.py:105 | the tolerance base is never 0, because a missing or zero median becomes 20; with no words it is 20 |
| Lines.MedianHeightUniform | src/Python.OCRTools/merge_candidates.py:105 | when every word has height `h`, the tolerance base is `h`, or 20 when `h` is 0 |
| Lines.MedianHeightHalves | src/Python.OCRTools/merge_candidates.py:105 | unless the median is 0, at most half of the heights (missing ones as 20) lie below the tolerance base and at most half above |
| Lines.MedianHeightPositive | src/Python.OCRTools/merge_candidates.py:105 | without negative heights the tolerance base is positive |
| Lines.FirstNear | src/Python.OCRTools/merge_candidates.py:109-110 | the index is the first cluster within tolerance, or past the end when none is |
| Lines.Place | src/Python.OCRTools/merge_candidates.py:107-117 | a word opens a new last cluster iff no cluster is near it; otherwise it joins the first near cluster |
| Lines.Clusters | src/Python.OCRTools/merge_candidates.py:106-117 | every cluster is non-empty with `top` the truncated mean of its words' tops, and every word is in one cluster |
| Lines.ClusterTopWithin | src/Python.OCRTools/merge_candidates.py:113 | a cluster's running `top` lies between its lowest and highest word |
| Lines.FallbackLines | src/Python.OCRTools/merge_candidates.py:103-128 | every word lies in exactly one line |
| Lines.FallbackSameTop | src/Python.OCRTools/merge_candidates.py:103-128 | words sharing one `top`, with no negative height, make one line |
| Lines.GroupWordsToLines | src/Python.OCRTools/merge_candidates.py:80-128 | every word lies in exactly one line |
| Candidates.BoxOf | src/Python.OCRTools/merge_candidates.py:148-149 | the box starts at the line's left and top and reaches its right and bottom |
| Candidates.CandidateOf | src/Python.OCRTools/merge_candidates.py:180 | `conf_avg` is `None` iff no block has a confidence |
| Candidates.AbsorbEnd | src/Python.OCRTools/merge_candidates.py:168-179 | absorbed lines are unnumbered and follow no big gap; the line after them is numbered or follows a big gap |
| Candidates.FirstMarker | src/Python.OCRTools/merge_candidates.py:186-189 | the first option-marker line of the range, or its end |
| Candidates.OptionRunEnd | src/Python.OCRTools/merge_candidates.py:190-193 | after a marker the window runs over non-marker lines up to the next marker, the page end or the cap |
| Candidates.WindowEnd | src/Python.OCRTools/merge_candidates.py:186-195 | a window holds at least one and at most six lines, or at most eight when one of its first six is a marker; without a marker among the first six it is exactly six lines or the rest of the page, and after the first marker it runs to the next marker, the end of the page or eight lines |
| Candidates.Scan | src/Python.OCRTools/merge_candidates.py:161-200 | every span is a non-empty run of lines after the scan start, with one block per line |
| Candidates.GroupLinesToCandidates | src/Python.OCRTools/merge_candidates.py:157-201 | every candidate has at least one block |
| Candidates.ScanFollows | src/Python.OCRTools/merge_candidates.py:161-200 | each span starts where the scan opened a kept candidate, ends where that opening ends, and holds its lines' blocks |
| Candidates.ScanChained | src/Python.OCRTools/merge_candidates.py:161-200 | each span ends before the next one starts |
| Candidates.ScanSkips | src/Python.OCRTools/merge_candidates.py:196-200 | a line no span covers opened a candidate that was dropped |
| Candidates.NumberedOpening | src/Python.OCRTools/merge_candidates.py:163-180 | a numbered candidate's first block is the rest of the line, or the whole line when nothing follows; the other blocks are the absorbed lines; absorption stops at a numbered line or a big gap |
| Candidates.WindowOpening | src/Python.OCRTools/merge_candidates.py:181-198 | a kept window has no number, its lines' blocks in order, ends exactly where `WindowEnd` says (within the six/eight-line bound) and more than ten characters of text |
| Candidates.ScanOk | src/Python.OCRTools/merge_candidates.py:157-201 | every span has the numbered or window shape, and spans are disjoint and in line order |
| Candidates.CandidateSpansOk | src/Python.OCRTools/merge_candidates.py:157-201 | the candidates are the spans in order, each with the truncated mean of its blocks' confidences |
| Candidates.Uncovered | src/Python.OCRTools/merge_candidates.py:161-200 | a line in no candidate is unnumbered and opens a window of at most ten characters |
| Pipeline.Kept | src/Python.OCRTools/merge_candidates.py:63-65 | the lines kept are exactly those not skipped, in ascending file order |
| Pipeline.LoadOk | src/Python.OCRTools/merge_candidates.py:60-69 | loading succeeds iff every non-blank line reads, and then yields one row per such line in file order |
| Pipeline.LoadErr | src/Python.OCRTools/merge_candidates.py:63-67 | a failed load reports the error of the first non-blank line that does not read |
| Pipeline.PagesOf | src/Python.OCRTools/merge_candidates.py:61-68 | each page holds exactly its rows in file order; pages differ; every row has its page |
| Pipeline.PagesOfGroups | src/Python.OCRTools/merge_candidates.py:61-68 | the page groups of any well-formed grouping are exactly the pages of the rows |
| Pipeline.LoadBlocksPages | src/Python.OCRTools/merge_candidates.py:60-69 | `load_blocks` succeeds iff every non-blank line decodes and normalises, fails otherwise with the first bad line's error, and on success returns the page dictionary of one row per non-blank line in file order |
| Pipeline.Merge | src/Python.OCRTools/merge_candidates.py:203-212 | the merge succeeds iff loading succeeds |
| Pipeline.MergeAscending | src/Python.OCRTools/merge_candidates.py:206-212 | candidates come out in ascending page order |
| Pipeline.MergeSelect | src/Python.OCRTools/merge_candidates.py:206-212 | the candidates stamped with a page are exactly that page's candidates, in order |
| Pipeline.MergeNoPage | src/Python.OCRTools/merge_candidates.py:206-212 | a page number that no page carries gets no candidates |

## Left out

- `ocr_extract.py` is not part of this model. It holds PDF rasterisation, image
  filters and calls into Tesseract. Only the row shape it writes is modelled,
  as `TesseractRow`.
- Reading and writing files is not modelled: the JSONL input, the output file
  and the final message.
- `json.loads` and `json.dumps` are not modelled. Decoding is the `parse`
  parameter, and encoding the output is left out.
- The command-line entry point and its usage message are not modelled.
- Floating point is not modelled. JSON numbers are integers, and the ratio,
  median and tolerance are exact reals. A float `conf`, coordinate or page is
  not representable.
- `int()` on strings reads optional surrounding whitespace, at most one sign
  and ASCII digits. Underscores and non-ASCII decimal digits are read as
  errors, so a confidence written in such digits is `None` here, where Python
  would keep it.
- Python exceptions other than the ones `normalize_row` can raise on a decoded
  row are not modelled. For example, a `KeyError` cannot happen on normalised
  rows.
- The clustering tolerance factor `y_tol` is fixed at its default 0.5. No
  caller passes another value.
- The Unicode tables behind `isalpha`, `\d` and `\s` are not modelled; they
  are the `CharClasses` parameter.
- The regular-expression engine is not modelled. The matchers are proved
  against declarative descriptions of the patterns, not against an engine.
- The downstream stage that sends candidates to a language model and
  validates its answers is not part of this model.
- Modelled as written: an unnumbered window takes its first six lines
  without looking for numbers, so it can swallow a numbered line.
- Lines.GroupWordsToLines: states only that every word lies in exactly one
  line. What each path does is stated by the `ExactLines*`, `Place`,
  `Clusters` and `FallbackSameTop` members.
- Lines.FallbackLines: the order of the fallback lines is not stated as a
  contract. Lines come in the order their clusters were opened, after a
  stable sort on `top`, and that order is visible only in the definition.
- Pipeline.Merge: states only when the merge succeeds. The page order and
  stamping of what it returns are stated by `MergeAscending`, `MergeSelect`
  and `MergeNoPage`, about the loop it runs.
- Rows.NormalizeNestedBox: states the whole fallback chain for `left`, and the final 0 for
  `height`. `top`, `width` and `height` are read by the same `BoxCoord` with their own
  names and aliases.
- Classify.DetectNumber: the number is stated through the contract of
  `DigitRun`, the longest run of at most four digits, rather than as a
  standalone formula.
