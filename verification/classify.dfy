/** Line classification in merge_candidates.py: the Devanagari script ratio
    and language guess, the question-number pattern and the option-marker
    pattern. The two regular expressions are modelled by deterministic
    matchers together with a declarative description of what they accept,
    and the matchers are proved to agree with the descriptions. */
module Classify {
  import opened Wrappers
  import opened Text

  /** The Devanagari block of Unicode, U+0900 to U+097F inclusive. */
  const DevanagariFirst: int := 0x0900
  const DevanagariLast: int := 0x097F

  /** `is_devanagari_char`. */
  predicate IsDevanagari(ch: char) {
    DevanagariFirst <= ch as int <= DevanagariLast
  }

  function DevanagariCount(s: string): nat {
    CountWhere(s, IsDevanagari)
  }

  function AlphaCount(cc: CharClasses, s: string): nat {
    CountWhere(s, cc.isAlpha)
  }

  /** `script_ratio`: Devanagari characters per alphabetic character, and 0
      when there is no alphabetic character. */
  function ScriptRatio(cc: CharClasses, s: string): (r: real)
    ensures r >= 0.0
    ensures AlphaCount(cc, s) == 0 ==> r == 0.0
    ensures AlphaCount(cc, s) > 0 ==> r * AlphaCount(cc, s) as real == DevanagariCount(s) as real
  {
    if s == [] then 0.0
    else
      var dev := DevanagariCount(s);
      var total := AlphaCount(cc, s);
      if total > 0 then dev as real / total as real else 0.0
  }

  /** If every character satisfying `p` satisfies `q`, fewer characters satisfy `p`. */
  lemma {:induction false} CountWhereMono(s: string, p: char -> bool, q: char -> bool)
    requires forall i :: 0 <= i < |s| && p(s[i]) ==> q(s[i])
    ensures CountWhere(s, p) <= CountWhere(s, q)
  {
    if |s| > 0 {
      assert forall i :: 0 <= i < |s| - 1 ==> s[1..][i] == s[i + 1];
      CountWhereMono(s[1..], p, q);
    }
  }

  lemma {:induction false} CountWhereNone(s: string, p: char -> bool)
    requires forall i :: 0 <= i < |s| ==> !p(s[i])
    ensures CountWhere(s, p) == 0
  {
    if |s| > 0 {
      assert forall i :: 0 <= i < |s| - 1 ==> s[1..][i] == s[i + 1];
      CountWhereNone(s[1..], p);
    }
  }

  /** When the Unicode tables count every Devanagari character as alphabetic,
      the ratio is at most 1. */
  lemma ScriptRatioAtMostOne(cc: CharClasses, s: string)
    requires forall i :: 0 <= i < |s| && IsDevanagari(s[i]) ==> cc.isAlpha(s[i])
    ensures ScriptRatio(cc, s) <= 1.0
  {
    CountWhereMono(s, IsDevanagari, cc.isAlpha);
    if AlphaCount(cc, s) > 0 {
      RatioAtMostOne(ScriptRatio(cc, s), AlphaCount(cc, s) as real, DevanagariCount(s) as real);
    }
  }

  lemma RatioAtMostOne(r: real, t: real, d: real)
    requires t > 0.0 && r * t == d && d <= t
    ensures r <= 1.0
  {
    RealScale(1.0, r, t);
  }

  /** Devanagari vowel signs such as U+093E are not alphabetic in Unicode, so
      the ratio can exceed 1: "का" (U+0915 U+093E) has ratio 2. */
  lemma ScriptRatioAboveOne(cc: CharClasses)
    requires cc.isAlpha('क') && !cc.isAlpha('ा')
    ensures ScriptRatio(cc, "का") == 2.0
  {
    var s := "का";
    assert s[1..][1..] == [];
    assert DevanagariCount(s) == 2;
    assert AlphaCount(cc, s) == 1;
  }

  datatype Lang = English | Hindi | Mixed

  /** `guess_lang`: Hindi above a ratio of 0.3, English below 0.05, mixed in
      between. */
  function GuessLang(cc: CharClasses, s: string): (l: Lang)
    ensures l == Hindi <==> AlphaCount(cc, s) > 0 && 10 * DevanagariCount(s) > 3 * AlphaCount(cc, s)
    ensures l == English <==> AlphaCount(cc, s) == 0 || 20 * DevanagariCount(s) < AlphaCount(cc, s)
  {
    var r := ScriptRatio(cc, s);
    RatioThresholds(r, DevanagariCount(s), AlphaCount(cc, s));
    if r > 0.3 then Hindi else if r < 0.05 then English else Mixed
  }

  lemma RatioThresholds(r: real, dev: nat, total: nat)
    requires r >= 0.0
    requires total == 0 ==> r == 0.0
    requires total > 0 ==> r * total as real == dev as real
    ensures r > 0.3 <==> total > 0 && 10 * dev > 3 * total
    ensures r < 0.05 <==> total == 0 || 20 * dev < total
  {
    if total > 0 {
      var t := total as real;
      RealScale(0.3, r, t);
      RealScale(r, 0.05, t);
      assert 0.3 * t < dev as real <==> 3 * total < 10 * dev;
      assert dev as real < 0.05 * t <==> 20 * dev < total;
    }
  }

  lemma RealScale(a: real, b: real, t: real)
    requires t > 0.0
    ensures a < b <==> a * t < b * t
  {
    if a < b {
      assert (b - a) * t > 0.0;
    } else {
      assert (a - b) * t >= 0.0;
    }
  }

  /** Text without Devanagari characters is English. */
  lemma GuessLangNoDevanagari(cc: CharClasses, s: string)
    requires forall i :: 0 <= i < |s| ==> !IsDevanagari(s[i])
    ensures GuessLang(cc, s) == English
  {
    CountWhereNone(s, IsDevanagari);
  }

  /** Text with letters, all of them Devanagari, is Hindi. */
  lemma GuessLangAllDevanagari(cc: CharClasses, s: string)
    requires AlphaCount(cc, s) > 0
    requires forall i :: 0 <= i < |s| && cc.isAlpha(s[i]) ==> IsDevanagari(s[i])
    ensures GuessLang(cc, s) == Hindi
  {
    CountWhereMono(s, cc.isAlpha, IsDevanagari);
  }

  // ---------------------------------------------------------------------
  // The question-number pattern `^\s*(?:Q(?:uestion)?\s*)?(\d{1,4})\s*[\).\:-]?\s*(.*)`

  const QuestionWord: string := "Question"

  /** `s.lstrip()`. */
  function LStrip(cc: CharClasses, s: string): (r: string)
    ensures |r| <= |s|
  {
    s[SpaceRun(cc, s, 0)..]
  }

  /** What the pattern accepts in front of the digits: whitespace, then
      nothing, `Q` or `Question`, then whitespace. */
  predicate IsLead(cc: CharClasses, u: string) {
    var t := LStrip(cc, u);
    || t == []
    || (t[0] == 'Q' && AllSpace(cc, t[1..]))
    || (|t| >= 8 && t[..8] == QuestionWord && AllSpace(cc, t[8..]))
  }

  /** A maximal whitespace run is determined by where it starts. */
  lemma {:induction false} SpaceRunIs(cc: CharClasses, s: string, a: nat, k: nat)
    requires a <= k <= |s|
    requires AllSpace(cc, s[a..k])
    requires k < |s| ==> !cc.isSpace(s[k])
    ensures SpaceRun(cc, s, a) == k
    decreases k - a
  {
    if a < k {
      assert s[a] == s[a..k][0];
      assert s[a + 1..k] == s[a..k][1..];
      SpaceRunIs(cc, s, a + 1, k);
    }
  }

  /** Where the digits of a question number would start: the greedy reading
      of `\s*(?:Q(?:uestion)?\s*)?`. */
  function LeadEnd(cc: CharClasses, s: string): (p: nat)
    ensures p <= |s|
  {
    var p0 := SpaceRun(cc, s, 0);
    if p0 + 8 <= |s| && s[p0..p0 + 8] == QuestionWord then SpaceRun(cc, s, p0 + 8)
    else if p0 < |s| && s[p0] == 'Q' then SpaceRun(cc, s, p0 + 1)
    else p0
  }

  /** The longest run of at most `max` digits that starts at `from`. */
  function DigitRun(cc: CharClasses, s: string, from: nat, max: nat): (to: nat)
    requires from <= |s|
    ensures from <= to <= |s| && to - from <= max
    ensures forall i :: from <= i < to ==> cc.isDigit(s[i])
    ensures to < |s| && to - from < max ==> !cc.isDigit(s[to])
    decreases max
  {
    if max == 0 || from == |s| || !cc.isDigit(s[from]) then from
    else DigitRun(cc, s, from + 1, max - 1)
  }

  /** The end of what `.*` matches from `from`: the first newline or the end. */
  function LineEnd(s: string, from: nat): (e: nat)
    requires from <= |s|
    ensures from <= e <= |s|
    ensures forall i :: from <= i < e ==> s[i] != '\n'
    ensures e < |s| ==> s[e] == '\n'
    decreases |s| - from
  {
    if from == |s| || s[from] == '\n' then from else LineEnd(s, from + 1)
  }

  predicate IsSeparator(ch: char) {
    ch == ')' || ch == '.' || ch == ':' || ch == '-'
  }

  /** The pair `detect_question_number` returns: the digits of the question
      number, or none, and the remaining text. */
  datatype Detected = Detected(qnum: Option<string>, rest: string)

  /** `detect_question_number`. A match always has digits right after a
      lead; the separator, the whitespace and `(.*)` always match, so the
      first (greedy) reading of the pattern is the match. */
  function DetectQuestionNumber(cc: CharClasses, s: string): (d: Detected)
    ensures d.qnum.None? ==> d.rest == s
    ensures d.qnum.Some? ==> 1 <= |d.qnum.value| <= 4
                             && (forall i :: 0 <= i < |d.qnum.value| ==> cc.isDigit(d.qnum.value[i]))
    ensures d.qnum.Some? ==> Strip(cc, d.rest) == d.rest && '\n' !in d.rest
  {
    var k := LeadEnd(cc, s);
    var j := DigitRun(cc, s, k, 4);
    if j == k then Detected(None, s)
    else
      var q := s[k..j];
      assert forall i :: 0 <= i < |q| ==> q[i] == s[k + i];
      Detected(Some(q), RestAfter(cc, s, j))
  }

  /** Where the `(.*)` group starts after digits ending at `j`: whitespace,
      an optional separator and whitespace are skipped. */
  function RestStart(cc: CharClasses, s: string, j: nat): (c: nat)
    requires j <= |s|
    ensures j <= c <= |s|
  {
    var a := SpaceRun(cc, s, j);
    var b := if a < |s| && IsSeparator(s[a]) then a + 1 else a;
    SpaceRun(cc, s, b)
  }

  /** The stripped `(.*)` group after the digits ending at `j`; the group
      runs to the end of the line. */
  function RestAfter(cc: CharClasses, s: string, j: nat): (rest: string)
    requires j <= |s|
    ensures Strip(cc, rest) == rest && '\n' !in rest
  {
    var c := RestStart(cc, s, j);
    var line := s[c..LineEnd(s, c)];
    StripIdempotent(cc, line);
    StripNoNewline(cc, line);
    Strip(cc, line)
  }

  /** After a separator, the rest is the remaining text, stripped, when that
      text is on one line. */
  lemma RestAfterSeparator(cc: CharClasses, s: string, j: nat)
    requires j < |s| && IsSeparator(s[j]) && '\n' !in s[j + 1..]
    ensures RestAfter(cc, s, j) == Strip(cc, s[j + 1..])
  {
    var c := RestStart(cc, s, j);
    assert c == SpaceRun(cc, s, j + 1) by {
      SpaceRunIs(cc, s, j, j);
    }
    LineEndAtEnd(s, c, j + 1);
    assert s[c..LineEnd(s, c)] == s[c..];
    assert RestAfter(cc, s, j) == Strip(cc, s[c..]);
    StripAfterBlanks(cc, s, j + 1, c);
  }

  lemma StripAfterBlanks(cc: CharClasses, s: string, from: nat, c: nat)
    requires from <= |s| && c == SpaceRun(cc, s, from)
    ensures Strip(cc, s[c..]) == Strip(cc, s[from..])
  {
    var tail := s[from..];
    assert AllSpace(cc, tail[..c - from]) by {
      assert tail[..c - from] == s[from..c];
    }
    StripSkipsBlanks(cc, tail, c - from);
    assert tail[c - from..] == s[c..];
  }

  /** With no newline from `from` on, `.*` runs to the end. */
  lemma LineEndAtEnd(s: string, c: nat, from: nat)
    requires from <= c <= |s| && '\n' !in s[from..]
    ensures LineEnd(s, c) == |s|
  {
  }

  lemma StripNoNewline(cc: CharClasses, line: string)
    requires '\n' !in line
    ensures '\n' !in Strip(cc, line)
  {
    var r := Strip(cc, line);
    var a := SpaceRun(cc, line, 0);
    assert r == line[a..][..|r|];
    assert forall i :: 0 <= i < |r| ==> r[i] == line[a + i];
  }

  /** No character of a lead is a digit. */
  lemma LeadHasNoDigit(cc: CharClasses, u: string, i: nat)
    requires IsLead(cc, u) && i < |u|
    ensures !cc.isDigit(u[i])
  {
    var a := SpaceRun(cc, u, 0);
    var t := u[a..];
    if i < a {
      assert u[i] == u[0..a][i];
    } else {
      assert u[i] == t[i - a];
      if t[0] == 'Q' && AllSpace(cc, t[1..]) {
        if i > a {
          assert t[i - a] == t[1..][i - a - 1];
        }
      } else if |t| >= 8 && t[..8] == QuestionWord && AllSpace(cc, t[8..]) {
        if i - a < 8 {
          assert t[i - a] == QuestionWord[i - a];
        } else {
          assert t[i - a] == t[8..][i - a - 8];
        }
      }
    }
  }

  /** At most one position can hold the first digit after a lead. */
  lemma LeadUnique(cc: CharClasses, s: string, k1: nat, k2: nat)
    requires k1 < |s| && k2 < |s|
    requires IsLead(cc, s[..k1]) && cc.isDigit(s[k1])
    requires IsLead(cc, s[..k2]) && cc.isDigit(s[k2])
    ensures k1 == k2
  {
    if k1 < k2 {
      assert s[..k2][k1] == s[k1];
      LeadHasNoDigit(cc, s[..k2], k1);
    } else if k2 < k1 {
      assert s[..k1][k2] == s[k2];
      LeadHasNoDigit(cc, s[..k1], k2);
    }
  }

  /** The text in front of `LeadEnd` is a lead. */
  lemma LeadEndIsLead(cc: CharClasses, s: string)
    ensures IsLead(cc, s[..LeadEnd(cc, s)])
  {
    var p := LeadEnd(cc, s);
    var u := s[..p];
    var p0 := SpaceRun(cc, s, 0);
    assert p0 <= p;
    assert AllSpace(cc, u[0..p0]) by {
      assert u[0..p0] == s[0..p0];
    }
    if p0 < p {
      assert u[p0] == s[p0];
    } else if p < |s| {
      assert !cc.isSpace(s[p]);
    }
    SpaceRunIs(cc, u, 0, p0);
    var t := u[p0..];
    if p0 + 8 <= |s| && s[p0..p0 + 8] == QuestionWord {
      assert t[..8] == s[p0..p0 + 8];
      assert t[8..] == s[p0 + 8..p];
    } else if p0 < |s| && s[p0] == 'Q' {
      assert t[0] == s[p0];
      assert t[1..] == s[p0 + 1..p];
    } else {
      assert t == [];
    }
  }

  /** A lead followed by a digit ends where `LeadEnd` says. */
  lemma LeadEndOfLead(cc: CharClasses, s: string, k: nat)
    requires k < |s| && IsLead(cc, s[..k]) && cc.isDigit(s[k])
    ensures LeadEnd(cc, s) == k
  {
    var u := s[..k];
    var a := SpaceRun(cc, u, 0);
    var t := u[a..];
    assert AllSpace(cc, s[0..a]) by {
      assert s[0..a] == u[0..a];
    }
    assert !cc.isSpace(s[k]);
    assert 'Q' != s[k] && 'u' != s[k];
    if t == [] {
      assert a == k;
      SpaceRunIs(cc, s, 0, k);
    } else {
      assert !cc.isSpace(s[a]) by {
        assert s[a] == u[a];
      }
      SpaceRunIs(cc, s, 0, a);
      assert s[a] == t[0];
      if t[0] == 'Q' && AllSpace(cc, t[1..]) {
        assert s[a + 1..k] == t[1..];
        if a + 1 < k {
          assert s[a + 1] == t[1..][0];
          assert cc.isSpace(s[a + 1]);
        }
        assert s[a + 1] != 'u';
        if a + 8 <= |s| {
          assert s[a..a + 8][1] == s[a + 1];
          assert s[a..a + 8] != QuestionWord;
        }
        SpaceRunIs(cc, s, a + 1, k);
      } else {
        assert |t| >= 8 && t[..8] == QuestionWord && AllSpace(cc, t[8..]);
        assert s[a..a + 8] == t[..8];
        assert s[a + 8..k] == t[8..];
        SpaceRunIs(cc, s, a + 8, k);
      }
    }
  }

  /** The pattern matches exactly when some lead is followed by a digit. */
  lemma DetectMatches(cc: CharClasses, s: string)
    ensures DetectQuestionNumber(cc, s).qnum.Some?
            <==> exists k :: 0 <= k < |s| && IsLead(cc, s[..k]) && cc.isDigit(s[k])
  {
    var k := LeadEnd(cc, s);
    LeadEndIsLead(cc, s);
    if exists k' :: 0 <= k' < |s| && IsLead(cc, s[..k']) && cc.isDigit(s[k']) {
      var k' :| 0 <= k' < |s| && IsLead(cc, s[..k']) && cc.isDigit(s[k']);
      LeadEndOfLead(cc, s, k');
    }
  }

  /** The question number is the run of digits that follows the lead: by
      the contract of `DigitRun`, the longest run of at most four digits. */
  lemma DetectNumber(cc: CharClasses, s: string, k: nat)
    requires k < |s| && IsLead(cc, s[..k]) && cc.isDigit(s[k])
    ensures k < DigitRun(cc, s, k, 4)
    ensures DetectQuestionNumber(cc, s).qnum == Some(s[k..DigitRun(cc, s, k, 4)])
  {
    LeadEndOfLead(cc, s, k);
    DetectDigits(cc, s);
  }

  /** The rest after a question number: past the digits, whitespace, an
      optional separator and whitespace are skipped, and what follows up to
      the end of the line is stripped. */
  lemma DetectRest(cc: CharClasses, s: string, k: nat, a: nat, c: nat, e: nat)
    requires k < |s| && IsLead(cc, s[..k]) && cc.isDigit(s[k])
    requires var j := DigitRun(cc, s, k, 4);
             j <= a <= |s| && AllSpace(cc, s[j..a]) && (a < |s| ==> !cc.isSpace(s[a]))
    requires var b := if a < |s| && IsSeparator(s[a]) then a + 1 else a;
             b <= c <= |s| && AllSpace(cc, s[b..c]) && (c < |s| ==> !cc.isSpace(s[c]))
    requires c <= e <= |s| && (forall i :: c <= i < e ==> s[i] != '\n') && (e < |s| ==> s[e] == '\n')
    ensures DetectQuestionNumber(cc, s).rest == Strip(cc, s[c..e])
  {
    var j := DigitRun(cc, s, k, 4);
    assert DetectQuestionNumber(cc, s).rest == RestAfter(cc, s, j) by {
      LeadEndOfLead(cc, s, k);
    }
    RestAfterIs(cc, s, j, a, c, e);
  }

  lemma RestAfterIs(cc: CharClasses, s: string, j: nat, a: nat, c: nat, e: nat)
    requires j <= a <= |s| && AllSpace(cc, s[j..a]) && (a < |s| ==> !cc.isSpace(s[a]))
    requires var b := if a < |s| && IsSeparator(s[a]) then a + 1 else a;
             b <= c <= |s| && AllSpace(cc, s[b..c]) && (c < |s| ==> !cc.isSpace(s[c]))
    requires c <= e <= |s| && (forall i :: c <= i < e ==> s[i] != '\n') && (e < |s| ==> s[e] == '\n')
    ensures RestAfter(cc, s, j) == Strip(cc, s[c..e])
  {
    SpaceRunIs(cc, s, j, a);
    var b := if a < |s| && IsSeparator(s[a]) then a + 1 else a;
    SpaceRunIs(cc, s, b, c);
    LineEndIs(s, c, e);
  }

  /** The end of a line is the first newline, or the end of the text. */
  lemma {:induction false} LineEndIs(s: string, c: nat, e: nat)
    requires c <= e <= |s| && (forall i :: c <= i < e ==> s[i] != '\n') && (e < |s| ==> s[e] == '\n')
    ensures LineEnd(s, c) == e
    decreases e - c
  {
    if c < e {
      LineEndIs(s, c + 1, e);
    }
  }

  /** The question number, when there is one, is the digit run after the
      lead. */
  lemma DetectDigits(cc: CharClasses, s: string)
    ensures var k := LeadEnd(cc, s);
            var j := DigitRun(cc, s, k, 4);
            DetectQuestionNumber(cc, s).qnum == if j == k then None else Some(s[k..j])
  {
  }

  /** The number of decimal digits of `n`, at most `k` when `n < 10^k`. */
  lemma {:induction false} NatReprShort(n: nat)
    requires n < 10000
    ensures |NatRepr(n)| <= 4
  {
    if n >= 10 {
      assert n / 10 < 1000;
      NatReprShorter(n / 10);
    }
  }

  lemma {:induction false} NatReprShorter(n: nat)
    requires n < 1000
    ensures |NatRepr(n)| <= 3
  {
    if n >= 10 {
      assert n / 10 < 100;
      assert n / 10 < 10 || n / 100 < 10;
      if n / 10 >= 10 {
        assert |NatRepr(n / 10 / 10)| == 1;
      }
    }
  }

  /** A line written as `Q<n>. <text>` with `n` below 10000 and `text` on one
      line is read back as question `n` with text `text`, stripped. */
  lemma DetectFormatted(cc: CharClasses, n: nat, text: string)
    requires n < 10000 && '\n' !in text
    ensures DetectQuestionNumber(cc, "Q" + NatRepr(n) + ". " + text)
            == Detected(Some(NatRepr(n)), Strip(cc, text))
  {
    var digits := NatRepr(n);
    var s := "Q" + digits + ". " + text;
    var m := |digits|;
    NatReprShort(n);
    FormattedLayout(digits, text);
    FormattedLead(cc, s);
    DigitRunIs(cc, s, 1, 4, 1 + m);
    assert s[1..1 + m] == digits;
    assert s[2 + m..] == " " + text;
    RestAfterSeparator(cc, s, 1 + m);
    StripLeadingBlank(cc, text);
  }

  lemma FormattedLayout(digits: string, text: string)
    ensures var s := "Q" + digits + ". " + text;
            && s[0] == 'Q'
            && (forall i :: 1 <= i < 1 + |digits| ==> s[i] == digits[i - 1])
            && s[1 + |digits|] == '.'
            && s[1..1 + |digits|] == digits
            && s[2 + |digits|..] == " " + text
  {
  }

  /** In a line `Q` followed by a digit, the digits start right after `Q`. */
  lemma FormattedLead(cc: CharClasses, s: string)
    requires |s| >= 2 && s[0] == 'Q' && '0' <= s[1] <= '9'
    ensures LeadEnd(cc, s) == 1
  {
    SpaceRunIs(cc, s, 0, 0);
    SpaceRunIs(cc, s, 1, 1);
    if 8 <= |s| {
      assert s[0..8][1] == s[1];
    }
  }

  /** `DigitRun` stops at the first non-digit when that comes within `max`. */
  lemma {:induction false} DigitRunIs(cc: CharClasses, s: string, from: nat, max: nat, to: nat)
    requires from <= to < |s| && to - from <= max
    requires forall i :: from <= i < to ==> cc.isDigit(s[i])
    requires !cc.isDigit(s[to])
    ensures DigitRun(cc, s, from, max) == to
    decreases max
  {
    if from < to {
      DigitRunIs(cc, s, from + 1, max - 1, to);
    }
  }

  /** Leading whitespace does not change what `strip` returns. */
  lemma StripSkipsBlanks(cc: CharClasses, s: string, a: nat)
    requires a <= |s| && AllSpace(cc, s[..a])
    ensures Strip(cc, s[a..]) == Strip(cc, s)
  {
    var p := SpaceRun(cc, s, 0);
    assert a <= p by {
      SpaceRunPast(cc, s, 0, a);
    }
    SpaceRunIs(cc, s[a..], 0, p - a) by {
      assert s[a..][0..p - a] == s[a..p];
      if p < |s| {
        assert s[a..][p - a] == s[p];
      }
    }
    assert s[a..][p - a..] == s[p..];
  }

  /** A whitespace run from `from` reaches at least past whitespace that
      starts there. */
  lemma {:induction false} SpaceRunPast(cc: CharClasses, s: string, from: nat, a: nat)
    requires from <= a <= |s| && AllSpace(cc, s[..a])
    ensures a <= SpaceRun(cc, s, from)
    decreases a - from
  {
    if from < a {
      assert s[from] == s[..a][from];
      SpaceRunPast(cc, s, from + 1, a);
    }
  }

  lemma StripLeadingBlank(cc: CharClasses, text: string)
    ensures Strip(cc, " " + text) == Strip(cc, text)
  {
    var s := " " + text;
    assert s[1..] == text;
    StripSkipsBlanks(cc, s, 1);
  }

  // ---------------------------------------------------------------------
  // The option-marker patterns `^\s*[A-D]\s*[\.\)]\s*` and `^\s*[A-D]\s*[\.\)]`

  predicate IsOptionLetter(ch: char) {
    'A' <= ch <= 'D'
  }

  predicate IsOptionClose(ch: char) {
    ch == '.' || ch == ')'
  }

  /** What the option-marker pattern accepts at the start of a line:
      whitespace, a letter A to D, whitespace, and a dot or a parenthesis.
      The trailing `\s*` of the first form always matches, so both forms
      accept the same lines. */
  ghost predicate OptionMarkerSpec(cc: CharClasses, t: string) {
    exists a, b :: 0 <= a < b < |t| && AllSpace(cc, t[..a]) && IsOptionLetter(t[a])
                   && AllSpace(cc, t[a + 1..b]) && IsOptionClose(t[b])
  }

  /** The deterministic matcher for the option-marker pattern. */
  predicate IsOptionMarker(cc: CharClasses, t: string) {
    var a := SpaceRun(cc, t, 0);
    a < |t| && IsOptionLetter(t[a])
    && var b := SpaceRun(cc, t, a + 1);
    b < |t| && IsOptionClose(t[b])
  }

  /** The matcher accepts exactly the lines the pattern accepts. */
  lemma OptionMarkerCorrect(cc: CharClasses, t: string)
    ensures IsOptionMarker(cc, t) <==> OptionMarkerSpec(cc, t)
  {
    if OptionMarkerSpec(cc, t) {
      var a, b :| 0 <= a < b < |t| && AllSpace(cc, t[..a]) && IsOptionLetter(t[a])
                  && AllSpace(cc, t[a + 1..b]) && IsOptionClose(t[b]);
      OptionMarkerAt(cc, t, a, b);
    }
    if IsOptionMarker(cc, t) {
      OptionMarkerWitness(cc, t);
    }
  }

  /** A letter and a closing mark after whitespace make a marker. */
  lemma OptionMarkerAt(cc: CharClasses, t: string, a: nat, b: nat)
    requires a < b < |t| && AllSpace(cc, t[..a]) && IsOptionLetter(t[a])
    requires AllSpace(cc, t[a + 1..b]) && IsOptionClose(t[b])
    ensures IsOptionMarker(cc, t)
  {
    assert !cc.isSpace(t[a]) && !cc.isSpace(t[b]);
    SpaceRunIs(cc, t, 0, a) by {
      assert t[0..a] == t[..a];
    }
    SpaceRunIs(cc, t, a + 1, b);
  }

  /** The positions the matcher finds witness the pattern. */
  lemma OptionMarkerWitness(cc: CharClasses, t: string)
    requires IsOptionMarker(cc, t)
    ensures OptionMarkerSpec(cc, t)
  {
    var a := SpaceRun(cc, t, 0);
    var b := SpaceRun(cc, t, a + 1);
    assert t[..a] == t[0..a];
    assert 0 <= a < b < |t| && AllSpace(cc, t[..a]) && IsOptionLetter(t[a])
           && AllSpace(cc, t[a + 1..b]) && IsOptionClose(t[b]);
  }
}
