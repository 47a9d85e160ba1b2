/** OCR input rows and their normalisation into words (`normalize_row` in
    merge_candidates.py). A row is a JSON object as `json.loads` returns it. */
module Rows {
  import opened Wrappers
  import opened Text

  /** A JSON value; numbers are integers (JSON floats are not modelled). */
  datatype Value =
    | Null
    | Bool(b: bool)
    | Int(i: int)
    | Str(s: string)
    | List(items: seq<Value>)
    | Object(fields: map<string, Value>)

  type Row = map<string, Value>

  /** Python truthiness of a JSON value. */
  predicate Truthy(v: Value) {
    match v
    case Null => false
    case Bool(b) => b
    case Int(i) => i != 0
    case Str(s) => s != []
    case List(items) => items != []
    case Object(fields) => fields != map[]
  }

  /** `obj.get(key)`. */
  function Get(obj: Row, key: string): Value {
    if key in obj then obj[key] else Null
  }

  /** `obj.get(key, default)`. */
  function GetOr(obj: Row, key: string, default: Value): Value {
    if key in obj then obj[key] else default
  }

  /** Python's `a or b`: `a` when it is truthy, otherwise `b`. */
  function Or(a: Value, b: Value): Value {
    if Truthy(a) then a else b
  }

  /** Why `normalize_row` raises: `int()` of a value that is not a number
      (`TypeError`/`ValueError`), `.strip()` on a text that is not a string, or
      `.get` on a `bbox` that is not an object (`AttributeError`). */
  datatype RowError = NotAnInteger(field: string) | NotAString(field: string) | NotAnObject(field: string)

  /** Python's `int(v)`. */
  function ToInt(cc: CharClasses, v: Value, field: string): (r: Result<int, RowError>)
    ensures v.Int? ==> r == Ok(v.i)
    ensures v.Null? || v.List? || v.Object? ==> r == Err(NotAnInteger(field))
    ensures v.Bool? ==> r == Ok(if v.b then 1 else 0)
    ensures v.Str? && IsIntLiteral(Strip(cc, v.s)) ==> r == Ok(LiteralValue(Strip(cc, v.s)))
    ensures v.Str? && IsPlusLiteral(Strip(cc, v.s)) ==> r == Ok(DigitsValue(Strip(cc, v.s)[1..]) as int)
    ensures v.Str? && r.Ok? ==> IsIntLiteral(Strip(cc, v.s)) || IsPlusLiteral(Strip(cc, v.s))
  {
    match v
    case Int(i) => Ok(i)
    case Bool(b) => Ok(if b then 1 else 0)
    case Str(s) =>
      ParseIntLiteral(cc, s);
      (match ParseInt(cc, s)
       case Some(i) => Ok(i)
       case None => Err(NotAnInteger(field)))
    case _ => Err(NotAnInteger(field))
  }

  /** `int(s)` on a string reads the stripped text as a literal, with or
      without a sign, and nothing else. */
  lemma ParseIntLiteral(cc: CharClasses, s: string)
    ensures IsIntLiteral(Strip(cc, s)) ==> ParseInt(cc, s) == Some(LiteralValue(Strip(cc, s)))
    ensures IsPlusLiteral(Strip(cc, s)) ==> ParseInt(cc, s) == Some(DigitsValue(Strip(cc, s)[1..]) as int)
    ensures ParseInt(cc, s).Some? ==> IsIntLiteral(Strip(cc, s)) || IsPlusLiteral(Strip(cc, s))
  {
  }

  /** `s.lstrip('-')`. */
  function LStripMinus(s: string): (r: string)
    ensures |r| <= |s| && r == s[|s| - |r|..]
    ensures r != [] ==> r[0] != '-'
  {
    if s != [] && s[0] == '-' then LStripMinus(s[1..]) else s
  }

  /** Python's `str.isdigit` (over ASCII digits): non-empty and all digits. */
  predicate IsDigitString(s: string) {
    s != [] && AllAsciiDigits(s)
  }

  /** A string that `int()` reads without help: digits, or a minus and digits. */
  predicate IsIntLiteral(s: string) {
    IsDigitString(s) || (s != [] && s[0] == '-' && IsDigitString(s[1..]))
  }

  /** A plus sign and digits, which `int()` also reads. */
  predicate IsPlusLiteral(s: string) {
    s != [] && s[0] == '+' && IsDigitString(s[1..])
  }

  /** The value of an integer literal. */
  function LiteralValue(s: string): int
    requires IsIntLiteral(s)
  {
    if s[0] == '-' then -(DigitsValue(s[1..]) as int) else DigitsValue(s)
  }

  /** The `conf` field: `int(conf)` when `str(conf).lstrip('-')` is all digits,
      and `None` otherwise, including when `int()` then raises (the bare
      `except`). `str` of a boolean is `True`/`False`, of a list or object
      begins with a bracket, so neither is ever all digits. */
  function Confidence(cc: CharClasses, v: Value): (c: Option<int>)
    ensures v.Int? ==> c == Some(v.i)
    ensures v.Str? ==> (c.Some? <==> IsIntLiteral(v.s))
    ensures v.Str? && IsIntLiteral(v.s) ==> c == Some(LiteralValue(v.s))
    ensures !v.Int? && !v.Str? ==> c == None
  {
    match v
    case Int(i) =>
      ReprIsIntLiteral(i);
      if IsDigitString(LStripMinus(DecimalRepr(i))) then Some(i) else None
    case Str(s) =>
      ConfidenceString(cc, s);
      if IsDigitString(LStripMinus(s)) then ParseInt(cc, s) else None
    case _ => None
  }

  lemma ReprIsIntLiteral(i: int)
    ensures IsDigitString(LStripMinus(DecimalRepr(i)))
  {
    var d := NatRepr(if i < 0 then -i else i);
    DigitsUnstripped(d);
    if i < 0 {
      var r := DecimalRepr(i);
      assert r == "-" + d;
      assert r[1..] == d;
      assert LStripMinus(r) == LStripMinus(d);
    }
  }

  lemma DigitsUnstripped(d: string)
    requires |d| >= 1 && AllAsciiDigits(d)
    ensures IsDigitString(d) && LStripMinus(d) == d
  {
    assert IsAsciiDigit(d[0]);
  }

  ghost predicate ConfidenceStringFacts(cc: CharClasses, s: string) {
    && (IsDigitString(LStripMinus(s)) ==> (ParseInt(cc, s).Some? <==> IsIntLiteral(s)))
    && (IsDigitString(LStripMinus(s)) && IsIntLiteral(s) ==> ParseInt(cc, s) == Some(LiteralValue(s)))
    && (!IsDigitString(LStripMinus(s)) ==> !IsIntLiteral(s))
  }

  lemma ConfidenceString(cc: CharClasses, s: string)
    ensures ConfidenceStringFacts(cc, s)
  {
    if s == [] || s[0] != '-' {
      ConfidencePlain(cc, s);
    } else if |s| == 1 || s[1] != '-' {
      ConfidenceMinus(cc, s);
    } else {
      ConfidenceMinusMinus(cc, s);
    }
  }

  lemma ConfidencePlain(cc: CharClasses, s: string)
    requires s == [] || s[0] != '-'
    ensures ConfidenceStringFacts(cc, s)
  {
    assert LStripMinus(s) == s;
    if IsDigitString(s) {
      ParsePlainDigits(cc, s);
    }
  }

  lemma ConfidenceMinus(cc: CharClasses, s: string)
    requires s != [] && s[0] == '-' && (|s| == 1 || s[1] != '-')
    ensures ConfidenceStringFacts(cc, s)
  {
    var rest := s[1..];
    assert LStripMinus(s) == rest by {
      assert LStripMinus(s) == LStripMinus(rest);
    }
    if IsDigitString(rest) {
      MinusDigits(cc, s);
    } else {
      assert !IsIntLiteral(s) by {
        assert !IsAsciiDigit(s[0]);
      }
    }
  }

  lemma MinusDigits(cc: CharClasses, s: string)
    requires |s| > 1 && s[0] == '-' && IsDigitString(s[1..])
    ensures IsIntLiteral(s) && ParseInt(cc, s) == Some(LiteralValue(s))
  {
    ParseMinusDigits(cc, s);
    assert !IsAsciiDigit(s[0]);
  }

  lemma ConfidenceMinusMinus(cc: CharClasses, s: string)
    requires |s| > 1 && s[0] == '-' && s[1] == '-'
    ensures ConfidenceStringFacts(cc, s)
  {
    assert !IsDigitString(s[1..]) by {
      assert s[1..][0] == '-';
    }
    assert !IsIntLiteral(s);
    if IsDigitString(LStripMinus(s)) {
      ParseDoubleMinus(cc, s);
    }
  }

  lemma ParsePlainDigits(cc: CharClasses, s: string)
    requires IsDigitString(s)
    ensures ParseInt(cc, s) == Some(DigitsValue(s))
  {
    StripFixed(cc, s);
  }

  lemma ParseMinusDigits(cc: CharClasses, s: string)
    requires |s| > 1 && s[0] == '-' && IsDigitString(s[1..])
    ensures ParseInt(cc, s) == Some(-(DigitsValue(s[1..]) as int))
  {
    assert s[|s| - 1] == s[1..][|s| - 2];
    StripFixed(cc, s);
  }

  lemma ParseDoubleMinus(cc: CharClasses, s: string)
    requires |s| > 1 && s[0] == '-' && s[1] == '-' && IsDigitString(LStripMinus(s))
    ensures ParseInt(cc, s) == None
  {
    var d := LStripMinus(s);
    assert s[|s| - 1] == d[|d| - 1];
    StripFixed(cc, s);
    assert !AllAsciiDigits(s[1..]) by {
      assert s[1..][0] == '-';
    }
  }

  /** The box of a row; shared by words, lines and candidate blocks. */
  datatype Box = Box(left: int, top: int, width: int, height: int)

  /** `int(obj.get(name) or 0)`: a coordinate given directly on the row. */
  function DirectCoord(cc: CharClasses, obj: Row, name: string): Result<int, RowError> {
    ToInt(cc, Or(Get(obj, name), Int(0)), name)
  }

  /** `int(bbox.get(name) or bbox.get(alias) or obj.get(name, 0) or 0)`. */
  function BoxCoord(cc: CharClasses, obj: Row, bbox: map<string, Value>, name: string, alias: string): Result<int, RowError> {
    ToInt(cc, Or(Get(bbox, name), Or(Get(bbox, alias), Or(GetOr(obj, name, Int(0)), Int(0)))), name)
  }

  predicate HasDirectBox(obj: Row) {
    "left" in obj && "top" in obj && "width" in obj && "height" in obj
  }

  /** The geometry part of `normalize_row`: the four direct fields when all are
      present, otherwise the nested `bbox` (`obj.get('bbox') or {}`) with its
      `x`/`y`/`w`/`h` aliases. */
  function Geometry(cc: CharClasses, obj: Row): Result<Box, RowError> {
    if HasDirectBox(obj) then
      var left :- DirectCoord(cc, obj, "left");
      var top :- DirectCoord(cc, obj, "top");
      var width :- DirectCoord(cc, obj, "width");
      var height :- DirectCoord(cc, obj, "height");
      Ok(Box(left, top, width, height))
    else
      var bboxValue := Or(Get(obj, "bbox"), Object(map[]));
      if !bboxValue.Object? then Err(NotAnObject("bbox"))
      else
        var bbox := bboxValue.fields;
        var left :- BoxCoord(cc, obj, bbox, "left", "x");
        var top :- BoxCoord(cc, obj, bbox, "top", "y");
        var width :- BoxCoord(cc, obj, bbox, "width", "w");
        var height :- BoxCoord(cc, obj, bbox, "height", "h");
        Ok(Box(left, top, width, height))
  }

  /** A normalised OCR word (the dictionary `normalize_row` returns). */
  datatype Word = Word(page: int, text: string, conf: Option<int>,
                       left: int, top: int, width: int, height: int,
                       blockNum: int, parNum: int, lineNum: int)

  /** `int(obj.get('page', 1))`. */
  function PageField(cc: CharClasses, obj: Row): Result<int, RowError> {
    if "page" in obj then ToInt(cc, obj["page"], "page") else Ok(1)
  }

  /** `(obj.get('text') or obj.get('ocr_text') or "").strip()`. */
  function TextField(cc: CharClasses, obj: Row): (r: Result<string, RowError>)
    ensures r.Ok? ==> Strip(cc, r.value) == r.value
  {
    var textValue := Or(Get(obj, "text"), Or(Get(obj, "ocr_text"), Str("")));
    if textValue.Str? then
      StripIdempotent(cc, textValue.s);
      Ok(Strip(cc, textValue.s))
    else Err(NotAString("text"))
  }

  /** `int(obj.get('block_num') or obj.get('block_id') or 0)`. */
  function BlockNumField(cc: CharClasses, obj: Row): Result<int, RowError> {
    ToInt(cc, Or(Get(obj, "block_num"), Or(Get(obj, "block_id"), Int(0))), "block_num")
  }

  /** `int(obj.get(name) or 0)` for `par_num` and `line_num`. */
  function NumField(cc: CharClasses, obj: Row, name: string): Result<int, RowError> {
    ToInt(cc, Or(Get(obj, name), Int(0)), name)
  }

  /** `normalize_row`: fields are read in the order `normalize_row` reads
      them, so the first field that cannot be converted is the one reported. */
  function NormalizeRow(cc: CharClasses, obj: Row): (r: Result<Word, RowError>)
    ensures r.Ok? ==> Strip(cc, r.value.text) == r.value.text
    ensures "page" !in obj && r.Ok? ==> r.value.page == 1
    ensures r.Ok? ==> r.value.conf == Confidence(cc, Get(obj, "conf"))
    ensures r.Ok? <==> PageField(cc, obj).Ok? && TextField(cc, obj).Ok? && Geometry(cc, obj).Ok?
                       && BlockNumField(cc, obj).Ok? && NumField(cc, obj, "par_num").Ok?
                       && NumField(cc, obj, "line_num").Ok?
  {
    var page :- PageField(cc, obj);
    var text :- TextField(cc, obj);
    var conf := Confidence(cc, Get(obj, "conf"));
    var box :- Geometry(cc, obj);
    var blockNum :- BlockNumField(cc, obj);
    var parNum :- NumField(cc, obj, "par_num");
    var lineNum :- NumField(cc, obj, "line_num");
    Ok(Word(page, text, conf, box.left, box.top, box.width, box.height, blockNum, parNum, lineNum))
  }

  /** A successful normalisation is assembled from its fields. */
  lemma NormalizeParts(cc: CharClasses, obj: Row)
    requires NormalizeRow(cc, obj).Ok?
    ensures var box := Geometry(cc, obj).value;
            NormalizeRow(cc, obj).value
            == Word(PageField(cc, obj).value, TextField(cc, obj).value, Confidence(cc, Get(obj, "conf")),
                    box.left, box.top, box.width, box.height, BlockNumField(cc, obj).value,
                    NumField(cc, obj, "par_num").value, NumField(cc, obj, "line_num").value)
  {
  }

  /** The text is the first truthy string among `text` and `ocr_text`,
      stripped, and the empty string when neither is one. */
  lemma NormalizeText(cc: CharClasses, obj: Row)
    requires NormalizeRow(cc, obj).Ok?
    ensures Truthy(Get(obj, "text")) ==> Get(obj, "text").Str? && NormalizeRow(cc, obj).value.text == Strip(cc, Get(obj, "text").s)
    ensures !Truthy(Get(obj, "text")) && Truthy(Get(obj, "ocr_text")) ==>
              Get(obj, "ocr_text").Str? && NormalizeRow(cc, obj).value.text == Strip(cc, Get(obj, "ocr_text").s)
    ensures !Truthy(Get(obj, "text")) && !Truthy(Get(obj, "ocr_text")) ==> NormalizeRow(cc, obj).value.text == []
  {
    NormalizeParts(cc, obj);
    assert TextField(cc, obj).Ok?;
  }

  /** `x` is what `int(v or 0)` gives for a value `v` of one of the common
      forms: an integer is itself, a falsy value (null, 0, `""`, false) is 0,
      and a numeric string is its value. */
  predicate IntOrZero(cc: CharClasses, v: Value, x: int) {
    && (v.Int? ==> x == v.i)
    && (!Truthy(v) ==> x == 0)
    && (v.Str? && IsIntLiteral(Strip(cc, v.s)) ==> x == LiteralValue(Strip(cc, v.s)))
  }

  /** When all four direct coordinates are present they are used, whatever
      `bbox` holds, each read with `int(obj.get(k) or 0)`. */
  lemma NormalizeDirectBox(cc: CharClasses, obj: Row)
    requires HasDirectBox(obj)
    requires NormalizeRow(cc, obj).Ok?
    ensures IntOrZero(cc, obj["left"], NormalizeRow(cc, obj).value.left)
    ensures IntOrZero(cc, obj["top"], NormalizeRow(cc, obj).value.top)
    ensures IntOrZero(cc, obj["width"], NormalizeRow(cc, obj).value.width)
    ensures IntOrZero(cc, obj["height"], NormalizeRow(cc, obj).value.height)
  {
    NormalizeParts(cc, obj);
    var box := Geometry(cc, obj).value;
    DirectCoordIs(cc, obj, "left", box.left);
    DirectCoordIs(cc, obj, "top", box.top);
    DirectCoordIs(cc, obj, "width", box.width);
    DirectCoordIs(cc, obj, "height", box.height);
  }

  lemma DirectCoordIs(cc: CharClasses, obj: Row, name: string, x: int)
    requires name in obj && DirectCoord(cc, obj, name) == Ok(x)
    ensures IntOrZero(cc, obj[name], x)
  {
  }

  /** Without all four direct coordinates, each coordinate comes from the
      `bbox` key of that name, then its one-letter alias, then the row's own
      key, then 0. */
  lemma NormalizeNestedBox(cc: CharClasses, obj: Row, bbox: map<string, Value>)
    requires !HasDirectBox(obj)
    requires Or(Get(obj, "bbox"), Object(map[])) == Object(bbox)
    requires NormalizeRow(cc, obj).Ok?
    ensures Get(bbox, "left").Int? && Truthy(Get(bbox, "left")) ==> NormalizeRow(cc, obj).value.left == bbox["left"].i
    ensures !Truthy(Get(bbox, "left")) && Get(bbox, "x").Int? && Truthy(Get(bbox, "x")) ==>
              NormalizeRow(cc, obj).value.left == bbox["x"].i
    ensures !Truthy(Get(bbox, "left")) && !Truthy(Get(bbox, "x")) && GetOr(obj, "left", Int(0)).Int? ==>
              NormalizeRow(cc, obj).value.left == GetOr(obj, "left", Int(0)).i
    ensures !Truthy(Get(bbox, "left")) && !Truthy(Get(bbox, "x")) && !Truthy(GetOr(obj, "left", Int(0))) ==>
              NormalizeRow(cc, obj).value.left == 0
    ensures !Truthy(Get(bbox, "height")) && !Truthy(Get(bbox, "h")) && !Truthy(GetOr(obj, "height", Int(0))) ==>
              NormalizeRow(cc, obj).value.height == 0
  {
    NormalizeParts(cc, obj);
  }

  /** `block_num` falls back to `block_id`, then to 0. */
  lemma NormalizeBlockNum(cc: CharClasses, obj: Row)
    requires NormalizeRow(cc, obj).Ok?
    ensures Get(obj, "block_num").Int? && Truthy(Get(obj, "block_num")) ==>
              NormalizeRow(cc, obj).value.blockNum == obj["block_num"].i
    ensures !Truthy(Get(obj, "block_num")) && Get(obj, "block_id").Int? ==>
              NormalizeRow(cc, obj).value.blockNum == obj["block_id"].i
    ensures !Truthy(Get(obj, "block_num")) && !Truthy(Get(obj, "block_id")) ==>
              NormalizeRow(cc, obj).value.blockNum == 0
  {
    NormalizeParts(cc, obj);
  }

  /** The page is read with `int()`, 1 when the row has none; `par_num` and
      `line_num` are read with `int()`, 0 when they are falsy. */
  lemma NormalizeNumbers(cc: CharClasses, obj: Row)
    requires NormalizeRow(cc, obj).Ok?
    ensures "page" in obj && obj["page"].Int? ==> NormalizeRow(cc, obj).value.page == obj["page"].i
    ensures "page" in obj && obj["page"].Str? && IsIntLiteral(Strip(cc, obj["page"].s)) ==>
              NormalizeRow(cc, obj).value.page == LiteralValue(Strip(cc, obj["page"].s))
    ensures Get(obj, "par_num").Int? ==> NormalizeRow(cc, obj).value.parNum == Get(obj, "par_num").i
    ensures !Truthy(Get(obj, "par_num")) ==> NormalizeRow(cc, obj).value.parNum == 0
    ensures Get(obj, "line_num").Int? ==> NormalizeRow(cc, obj).value.lineNum == Get(obj, "line_num").i
    ensures !Truthy(Get(obj, "line_num")) ==> NormalizeRow(cc, obj).value.lineNum == 0
  {
    NormalizeParts(cc, obj);
  }

  /** The JSON form of a normalised word, as `normalize_row` returns it. */
  function WordAsRow(w: Word): Row {
    map["page" := Int(w.page), "text" := Str(w.text),
        "conf" := (match w.conf case Some(c) => Int(c) case None => Null),
        "left" := Int(w.left), "top" := Int(w.top), "width" := Int(w.width), "height" := Int(w.height),
        "block_num" := Int(w.blockNum), "par_num" := Int(w.parNum), "line_num" := Int(w.lineNum)]
  }

  /** Normalising is idempotent: a normalised word, read back as a row,
      normalises to itself. */
  lemma NormalizeIdempotent(cc: CharClasses, obj: Row)
    requires NormalizeRow(cc, obj).Ok?
    ensures NormalizeRow(cc, WordAsRow(NormalizeRow(cc, obj).value)) == NormalizeRow(cc, obj)
  {
    var w := NormalizeRow(cc, obj).value;
    WordRowFields(cc, w);
    NormalizeParts(cc, WordAsRow(w));
  }

  lemma WordRowFields(cc: CharClasses, w: Word)
    requires Strip(cc, w.text) == w.text
    ensures var row := WordAsRow(w);
            && PageField(cc, row) == Ok(w.page)
            && TextField(cc, row) == Ok(w.text)
            && Geometry(cc, row) == Ok(Box(w.left, w.top, w.width, w.height))
            && BlockNumField(cc, row) == Ok(w.blockNum)
            && NumField(cc, row, "par_num") == Ok(w.parNum)
            && NumField(cc, row, "line_num") == Ok(w.lineNum)
            && Confidence(cc, Get(row, "conf")) == w.conf
  {
    WordRowText(cc, w);
    WordRowNums(cc, w);
    WordRowCoords(cc, w);
  }

  lemma WordRowText(cc: CharClasses, w: Word)
    requires Strip(cc, w.text) == w.text
    ensures var row := WordAsRow(w);
            && PageField(cc, row) == Ok(w.page)
            && TextField(cc, row) == Ok(w.text)
            && Confidence(cc, Get(row, "conf")) == w.conf
  {
    var row := WordAsRow(w);
    assert PageField(cc, row) == Ok(w.page) by {
      assert row["page"] == Int(w.page);
    }
    assert TextField(cc, row) == Ok(w.text) by {
      assert row["text"] == Str(w.text);
      assert "ocr_text" !in row;
    }
    assert Confidence(cc, Get(row, "conf")) == w.conf by {
      assert Get(row, "conf") == row["conf"];
    }
  }

  lemma WordRowNums(cc: CharClasses, w: Word)
    ensures var row := WordAsRow(w);
            && BlockNumField(cc, row) == Ok(w.blockNum)
            && NumField(cc, row, "par_num") == Ok(w.parNum)
            && NumField(cc, row, "line_num") == Ok(w.lineNum)
  {
    var row := WordAsRow(w);
    assert "block_id" !in row;
    assert row["block_num"] == Int(w.blockNum);
  }

  lemma WordRowCoords(cc: CharClasses, w: Word)
    ensures var row := WordAsRow(w);
            Geometry(cc, row) == Ok(Box(w.left, w.top, w.width, w.height))
  {
    var row := WordAsRow(w);
    assert HasDirectBox(row);
    assert DirectCoord(cc, row, "left") == Ok(w.left);
    assert DirectCoord(cc, row, "top") == Ok(w.top);
    assert DirectCoord(cc, row, "width") == Ok(w.width);
    assert DirectCoord(cc, row, "height") == Ok(w.height);
  }

  /** The row `page_to_blocks` in ocr_extract.py writes for one Tesseract word. */
  function TesseractRow(page: int, blockId: int, left: int, top: int, width: int, height: int,
                        conf: Option<int>, text: string): Row {
    map["page" := Int(page), "block_id" := Int(blockId),
        "bbox" := Object(map["left" := Int(left), "top" := Int(top), "width" := Int(width), "height" := Int(height)]),
        "conf" := (match conf case Some(c) => Int(c) case None => Null),
        "text" := Str(text)]
  }

  /** Rows from the Tesseract producer always normalise, take their box from
      `bbox` and their block number from `block_id`, and have no paragraph or
      line number (so their words are grouped by the fallback clustering). */
  lemma NormalizeTesseractRow(cc: CharClasses, page: int, blockId: int, left: int, top: int,
                              width: int, height: int, conf: Option<int>, text: string)
    ensures NormalizeRow(cc, TesseractRow(page, blockId, left, top, width, height, conf, text))
            == Ok(Word(page, Strip(cc, text), conf, left, top, width, height, blockId, 0, 0))
  {
    var row := TesseractRow(page, blockId, left, top, width, height, conf, text);
    TesseractFields(cc, page, blockId, left, top, width, height, conf, text);
    TesseractGeometry(cc, page, blockId, left, top, width, height, conf, text);
    NormalizeParts(cc, row);
  }

  lemma TesseractFields(cc: CharClasses, page: int, blockId: int, left: int, top: int,
                        width: int, height: int, conf: Option<int>, text: string)
    ensures var row := TesseractRow(page, blockId, left, top, width, height, conf, text);
            && PageField(cc, row) == Ok(page)
            && TextField(cc, row) == Ok(Strip(cc, text))
            && BlockNumField(cc, row) == Ok(blockId)
            && NumField(cc, row, "par_num") == Ok(0)
            && NumField(cc, row, "line_num") == Ok(0)
            && Confidence(cc, Get(row, "conf")) == conf
  {
    TesseractText(cc, page, blockId, left, top, width, height, conf, text);
    TesseractNums(cc, page, blockId, left, top, width, height, conf, text);
  }

  lemma TesseractText(cc: CharClasses, page: int, blockId: int, left: int, top: int,
                      width: int, height: int, conf: Option<int>, text: string)
    ensures var row := TesseractRow(page, blockId, left, top, width, height, conf, text);
            && PageField(cc, row) == Ok(page)
            && TextField(cc, row) == Ok(Strip(cc, text))
            && Confidence(cc, Get(row, "conf")) == conf
  {
    var row := TesseractRow(page, blockId, left, top, width, height, conf, text);
    assert "ocr_text" !in row;
  }

  lemma TesseractNums(cc: CharClasses, page: int, blockId: int, left: int, top: int,
                      width: int, height: int, conf: Option<int>, text: string)
    ensures var row := TesseractRow(page, blockId, left, top, width, height, conf, text);
            && BlockNumField(cc, row) == Ok(blockId)
            && NumField(cc, row, "par_num") == Ok(0)
            && NumField(cc, row, "line_num") == Ok(0)
  {
    var row := TesseractRow(page, blockId, left, top, width, height, conf, text);
    assert "block_num" !in row && "par_num" !in row && "line_num" !in row;
  }

  lemma TesseractGeometry(cc: CharClasses, page: int, blockId: int, left: int, top: int,
                          width: int, height: int, conf: Option<int>, text: string)
    ensures Geometry(cc, TesseractRow(page, blockId, left, top, width, height, conf, text))
            == Ok(Box(left, top, width, height))
  {
    var row := TesseractRow(page, blockId, left, top, width, height, conf, text);
    var bbox := map["left" := Int(left), "top" := Int(top), "width" := Int(width), "height" := Int(height)];
    assert !HasDirectBox(row) by {
      assert "left" !in row;
    }
    assert Get(row, "bbox") == Object(bbox);
    NestedCoord(cc, row, bbox, "left", "x", left);
    NestedCoord(cc, row, bbox, "top", "y", top);
    NestedCoord(cc, row, bbox, "width", "w", width);
    NestedCoord(cc, row, bbox, "height", "h", height);
    NestedGeometry(cc, row, bbox, left, top, width, height);
  }

  lemma NestedGeometry(cc: CharClasses, obj: Row, bbox: map<string, Value>, l: int, t: int, w: int, h: int)
    requires !HasDirectBox(obj) && Get(obj, "bbox") == Object(bbox)
    requires BoxCoord(cc, obj, bbox, "left", "x") == Ok(l) && BoxCoord(cc, obj, bbox, "top", "y") == Ok(t)
    requires BoxCoord(cc, obj, bbox, "width", "w") == Ok(w) && BoxCoord(cc, obj, bbox, "height", "h") == Ok(h)
    ensures Geometry(cc, obj) == Ok(Box(l, t, w, h))
  {
    assert Or(Get(obj, "bbox"), Object(map[])) == Object(bbox);
  }

  /** A coordinate given in `bbox` as an integer, with no alias beside it in
      `bbox` and no key of that name on the row, is the one read. */
  lemma NestedCoord(cc: CharClasses, obj: Row, bbox: map<string, Value>, name: string, alias: string, v: int)
    requires name in bbox && bbox[name] == Int(v)
    requires alias !in bbox && name !in obj
    ensures BoxCoord(cc, obj, bbox, name, alias) == Ok(v)
  {
  }
}
