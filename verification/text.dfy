/** Character classes, whitespace stripping, joining and decimal integers:
    the string primitives of Python that the merger uses (`str.strip`,
    `" ".join`, `str.isdigit`, `int(str)`, `str(int)`). */
module Text {
  import opened Wrappers

  /** The Unicode character classes the merger consults: `str.isalpha`, the
      regular-expression class `\d`, and the regular-expression class `\s`
      (which, for `str` patterns, is the same set as `str.isspace` and hence
      as the characters `str.strip` removes). The Unicode tables themselves are
      not part of the model, so the classes are a parameter. */
  datatype Classes = Classes(isAlpha: char -> bool, isDigit: char -> bool, isSpace: char -> bool)

  /** The facts about the real Unicode tables that the model relies on: no
      decimal digit is whitespace, the ASCII digits are digits, printable ASCII
      is never whitespace, the only printable ASCII digits are 0-9, and the
      ASCII blanks are whitespace. */
  ghost predicate Plausible(c: Classes) {
    && (forall ch :: c.isDigit(ch) ==> !c.isSpace(ch))
    && (forall ch :: '0' <= ch <= '9' ==> c.isDigit(ch))
    && (forall ch :: '!' <= ch <= '~' ==> !c.isSpace(ch))
    && (forall ch :: '!' <= ch <= '~' && !('0' <= ch <= '9') ==> !c.isDigit(ch))
    && (forall ch :: ch == ' ' || '\t' <= ch <= '\r' ==> c.isSpace(ch))
  }

  type CharClasses = c: Classes | Plausible(c)
    witness Classes(ch => 'A' <= ch <= 'Z' || 'a' <= ch <= 'z',
                    ch => '0' <= ch <= '9',
                    ch => ch == ' ' || '\t' <= ch <= '\r')

  predicate AllSpace(cc: CharClasses, s: string) {
    forall i :: 0 <= i < |s| ==> cc.isSpace(s[i])
  }

  /** The end of the longest run of whitespace that starts at `from`. */
  function SpaceRun(cc: CharClasses, s: string, from: nat): (to: nat)
    requires from <= |s|
    ensures from <= to <= |s|
    ensures AllSpace(cc, s[from..to])
    ensures to < |s| ==> !cc.isSpace(s[to])
    decreases |s| - from
  {
    if from == |s| || !cc.isSpace(s[from]) then from else SpaceRun(cc, s, from + 1)
  }

  /** The start of the longest run of whitespace that ends at `to`. */
  function SpaceRunBack(cc: CharClasses, s: string, to: nat): (from: nat)
    requires to <= |s|
    ensures from <= to
    ensures AllSpace(cc, s[from..to])
    ensures 0 < from ==> !cc.isSpace(s[from - 1])
  {
    if to == 0 || !cc.isSpace(s[to - 1]) then to
    else
      var from := SpaceRunBack(cc, s, to - 1);
      assert s[from..to] == s[from..to - 1] + [s[to - 1]];
      from
  }

  /** Python's `s.strip()`: `s` without its leading and trailing whitespace. */
  function Strip(cc: CharClasses, s: string): (r: string)
    ensures |r| <= |s|
    ensures r == [] <==> AllSpace(cc, s)
    ensures r != [] ==> !cc.isSpace(r[0]) && !cc.isSpace(r[|r| - 1])
  {
    var a := SpaceRun(cc, s, 0);
    var t := s[a..];
    var b := SpaceRunBack(cc, t, |t|);
    StripEmptyOnlyIfBlank(cc, s, a, b);
    t[..b]
  }

  /** What `strip` keeps is a slice of `s` with only whitespace around it. */
  lemma StripTrims(cc: CharClasses, s: string)
    ensures exists a, b :: 0 <= a <= b <= |s| && Strip(cc, s) == s[a..b] && AllSpace(cc, s[..a]) && AllSpace(cc, s[b..])
  {
    var a := SpaceRun(cc, s, 0);
    var b := SpaceRunBack(cc, s[a..], |s| - a);
    StripSlice(cc, s, a, b);
    assert Strip(cc, s) == s[a..a + b];
  }

  lemma StripSlice(cc: CharClasses, s: string, a: nat, b: nat)
    requires a == SpaceRun(cc, s, 0)
    requires b == SpaceRunBack(cc, s[a..], |s| - a)
    ensures a + b <= |s| && s[a..][..b] == s[a..a + b]
    ensures AllSpace(cc, s[..a]) && AllSpace(cc, s[a + b..])
  {
    var t := s[a..];
    assert t[b..|t|] == s[a + b..];
    assert s[..a] == s[0..a];
  }

  lemma StripEmptyOnlyIfBlank(cc: CharClasses, s: string, a: nat, b: nat)
    requires a == SpaceRun(cc, s, 0)
    requires b == SpaceRunBack(cc, s[a..], |s| - a)
    ensures b == 0 <==> AllSpace(cc, s)
  {
    var t := s[a..];
    FirstNonSpace(cc, s, a);
    assert t[0..|t|] == t;
    if b == 0 {
      forall i | 0 <= i < |s| ensures cc.isSpace(s[i]) {
        assert s[i] == s[0..a][i];
      }
    }
  }

  lemma FirstNonSpace(cc: CharClasses, s: string, a: nat)
    requires a <= |s|
    ensures a < |s| && !cc.isSpace(s[a]) ==> !AllSpace(cc, s[a..])
  {
    if a < |s| {
      assert s[a..][0] == s[a];
    }
  }

  /** A string with no whitespace at either end is its own strip. */
  lemma {:induction false} StripFixed(cc: CharClasses, s: string)
    requires s != [] ==> !cc.isSpace(s[0]) && !cc.isSpace(s[|s| - 1])
    ensures Strip(cc, s) == s
  {
  }

  /** Stripping twice is stripping once. */
  lemma StripIdempotent(cc: CharClasses, s: string)
    ensures Strip(cc, Strip(cc, s)) == Strip(cc, s)
  {
    StripFixed(cc, Strip(cc, s));
  }

  /** Python's `sep.join(parts)`. */
  function Join(sep: string, parts: seq<string>): (r: string)
    ensures |parts| == 0 ==> r == []
    ensures |parts| == 1 ==> r == parts[0]
  {
    if |parts| == 0 then [] else if |parts| == 1 then parts[0] else parts[0] + sep + Join(sep, parts[1..])
  }

  /** The number of characters of `s` that satisfy `p`. */
  function CountWhere(s: string, p: char -> bool): (n: nat)
    ensures n <= |s|
  {
    if |s| == 0 then 0 else (if p(s[0]) then 1 else 0) + CountWhere(s[1..], p)
  }

  predicate IsAsciiDigit(ch: char) {
    '0' <= ch <= '9'
  }

  predicate AllAsciiDigits(s: string) {
    forall i :: 0 <= i < |s| ==> IsAsciiDigit(s[i])
  }

  /** The value of a string of ASCII decimal digits. */
  function DigitsValue(s: string): nat
    requires AllAsciiDigits(s)
  {
    if |s| == 0 then 0 else DigitsValue(s[..|s| - 1]) * 10 + (s[|s| - 1] as int - '0' as int)
  }

  function DigitChar(d: nat): (ch: char)
    requires d < 10
    ensures IsAsciiDigit(ch) && ch as int - '0' as int == d
  {
    ('0' as int + d) as char
  }

  /** Python's `str(n)` for a non-negative integer. */
  function NatRepr(n: nat): (s: string)
    ensures |s| >= 1 && AllAsciiDigits(s)
    ensures DigitsValue(s) == n
  {
    var last := [DigitChar(n % 10)];
    if n < 10 then last
    else
      var init := NatRepr(n / 10);
      assert (init + last)[..|init|] == init;
      init + last
  }

  /** Python's `str(i)` for an integer. */
  function DecimalRepr(i: int): (s: string)
    ensures |s| >= 1
  {
    if i < 0 then "-" + NatRepr(-i) else NatRepr(i)
  }

  /** Python's `int(s)` on a string: optional surrounding whitespace, at most
      one sign, then decimal digits; `None` stands for the `ValueError`. */
  function ParseInt(cc: CharClasses, s: string): (r: Option<int>)
    ensures r.Some? ==> exists k :: 0 <= k < |s| && IsAsciiDigit(s[k])
  {
    var t := Strip(cc, s);
    if |t| > 0 && (t[0] == '-' || t[0] == '+') then
      var body := t[1..];
      if |body| > 0 && AllAsciiDigits(body) then
        var v: int := DigitsValue(body);
        Some(if t[0] == '-' then -v else v)
      else None
    else if |t| > 0 && AllAsciiDigits(t) then Some(DigitsValue(t))
    else None
  }

  /** `int(str(i)) == i`: reading back a printed integer gives the integer. */
  lemma ParseDecimalRepr(cc: CharClasses, i: int)
    ensures ParseInt(cc, DecimalRepr(i)) == Some(i)
  {
    var s := DecimalRepr(i);
    StripFixed(cc, s);
    if i < 0 {
      assert s[1..] == NatRepr(-i);
    }
  }
}
