/**
 * buildData (app.js:81-99): the parsed rows become ingredient names (the
 * header row after its first cell), feature names (the first cell of every
 * later row) and one vector per ingredient (its column, read as numbers).
 */
module Matrix {
  import opened Wrappers
  import opened Host
  import Csv

  datatype Dataset = Dataset(ingredients: seq<string>, features: seq<string>, vectors: seq<seq<real>>)

  /** buildData throws `new Error("CSV missing data rows")`. */
  datatype LoadError = MissingDataRows

  // ---------------------------------------------------------------------------
  // String.prototype.trim

  /** WhiteSpace and LineTerminator code points of ECMAScript, which `trim` removes. */
  const JsWhitespace: set<char> := {
    '\t', '\n', '\U{000B}', '\U{000C}', '\r', ' ', '\U{00A0}', '\U{1680}',
    '\U{2000}', '\U{2001}', '\U{2002}', '\U{2003}', '\U{2004}', '\U{2005}',
    '\U{2006}', '\U{2007}', '\U{2008}', '\U{2009}', '\U{200A}',
    '\U{2028}', '\U{2029}', '\U{202F}', '\U{205F}', '\U{3000}', '\U{FEFF}'
  }

  predicate IsJsWhitespace(c: char)
  {
    c in JsWhitespace
  }

  /** The first position from `i` on that does not hold whitespace (or |s|). */
  function SkipLeading(s: string, i: nat): (n: nat)
    requires i <= |s|
    ensures i <= n <= |s|
    ensures forall k :: i <= k < n ==> IsJsWhitespace(s[k])
    ensures n == |s| || !IsJsWhitespace(s[n])
    decreases |s| - i
  {
    if i < |s| && IsJsWhitespace(s[i]) then SkipLeading(s, i + 1) else i
  }

  /** The end of `s[lo..e]` once its trailing whitespace is dropped. */
  function SkipTrailing(s: string, lo: nat, e: nat): (n: nat)
    requires lo <= e <= |s|
    ensures lo <= n <= e
    ensures forall k :: n <= k < e ==> IsJsWhitespace(s[k])
    ensures n == lo || !IsJsWhitespace(s[n - 1])
  {
    if lo < e && IsJsWhitespace(s[e - 1]) then SkipTrailing(s, lo, e - 1) else e
  }

  /** `String.prototype.trim` */
  function Trim(s: string): string
  {
    var start := SkipLeading(s, 0);
    s[start..SkipTrailing(s, start, |s|)]
  }

  /**
   * Trim removes leading and trailing whitespace and nothing else: its result
   * is the slice of `s` that starts and ends with a non-whitespace character.
   */
  lemma TrimRemovesOuterWhitespace(s: string)
    ensures var r, i := Trim(s), SkipLeading(s, 0);
      && i + |r| <= |s| && r == s[i..i + |r|]
      && (forall k :: 0 <= k < i ==> IsJsWhitespace(s[k]))
      && (forall k :: i + |r| <= k < |s| ==> IsJsWhitespace(s[k]))
      && (r == [] || (!IsJsWhitespace(r[0]) && !IsJsWhitespace(r[|r| - 1])))
  {
    var i := SkipLeading(s, 0);
    var e := SkipTrailing(s, i, |s|);
    var r := s[i..e];
    assert Trim(s) == r && |r| == e - i;
    if r != [] {
      assert r[0] == s[i] && r[|r| - 1] == s[e - 1];
    }
  }

  // ---------------------------------------------------------------------------
  // Cells and rows

  /** `rows.filter((row) => row.length > 0)` */
  function NonEmptyRows(rows: seq<seq<string>>): (r: seq<seq<string>>)
    ensures forall k :: 0 <= k < |r| ==> |r[k]| > 0
    ensures forall x :: x in r <==> x in rows && |x| > 0
    ensures (forall k :: 0 <= k < |rows| ==> |rows[k]| > 0) ==> r == rows
  {
    if rows == [] then []
    else if |rows[0]| > 0 then [rows[0]] + NonEmptyRows(rows[1..])
    else NonEmptyRows(rows[1..])
  }

  /** `(row[0] || "").trim()` */
  function FeatureName(row: seq<string>): string
  {
    if |row| > 0 then Trim(row[0]) else ""
  }

  /** `rows[i][col] ?? ""`, parsed; NaN and non-finite values become 0. */
  function CellValue(rt: Runtime, row: seq<string>, col: nat): real
  {
    var raw := if col < |row| then row[col] else "";
    match rt.parseFloat(raw)
    case Some(v) => v
    case None => 0.0
  }

  /** `v` holds column `col` of `rows`: one value per row after the header. */
  ghost predicate IsColumn(v: seq<real>, rows: seq<seq<string>>, col: nat, rt: Runtime)
  {
    && |v| + 1 == |rows|
    && forall f :: 0 <= f < |v| ==> v[f] == CellValue(rt, rows[f + 1], col)
  }

  /**
   * What buildData returns for `rows`: one name per header cell after the
   * first, one feature per later row, and vectors[c][f] the value in row f + 1,
   * column c + 1.
   */
  ghost predicate Tabulates(d: Dataset, rows: seq<seq<string>>, rt: Runtime)
  {
    && |rows| > 0
    && |d.ingredients| + 1 == |rows[0]|
    && (forall c :: 0 <= c < |d.ingredients| ==> d.ingredients[c] == Trim(rows[0][c + 1]))
    && |d.features| + 1 == |rows|
    && (forall f :: 0 <= f < |d.features| ==> d.features[f] == FeatureName(rows[f + 1]))
    && |d.vectors| == |d.ingredients|
    && (forall c :: 0 <= c < |d.vectors| ==> IsColumn(d.vectors[c], rows, c + 1, rt))
  }

  // IngredientNames and FeatureNames spell out element by element what their
  // `seq` comprehension means; that is a proof aid for BuildData, not a property.

  /** `rows[0].slice(1).map((value) => value.trim())` */
  function IngredientNames(header: seq<string>): (names: seq<string>)
    requires |header| > 0
    ensures |names| == |header| - 1
    ensures forall c :: 0 <= c < |names| ==> names[c] == Trim(header[c + 1])
  {
    seq(|header| - 1, c requires 0 <= c < |header| - 1 => Trim(header[c + 1]))
  }

  /** `rows.slice(1).map((row) => (row[0] || "").trim())` */
  function FeatureNames(rows: seq<seq<string>>): (names: seq<string>)
    requires |rows| > 0
    ensures |names| == |rows| - 1
    ensures forall f :: 0 <= f < |names| ==> names[f] == FeatureName(rows[f + 1])
  {
    seq(|rows| - 1, f requires 0 <= f < |rows| - 1 => FeatureName(rows[f + 1]))
  }

  /** The vector of column `colIndex + 1`, one value per data row. */
  method ColumnVector(rows: seq<seq<string>>, colIndex: nat, rt: Runtime) returns (vec: seq<real>)
    requires |rows| > 0
    ensures IsColumn(vec, rows, colIndex + 1, rt)
  {
    vec := [];
    var i := 1;
    while i < |rows|
      invariant 1 <= i <= |rows|
      invariant |vec| == i - 1
      invariant forall f :: 0 <= f < |vec| ==> vec[f] == CellValue(rt, rows[f + 1], colIndex + 1)
    {
      var raw := if colIndex + 1 < |rows[i]| then rows[i][colIndex + 1] else "";
      var value := rt.parseFloat(raw);
      vec := vec + [if value.Some? then value.value else 0.0];
      i := i + 1;
    }
  }

  /** `ingredients.map((_, colIndex) => ...)`: the vectors of columns 1 to `count`. */
  method Columns(rows: seq<seq<string>>, count: nat, rt: Runtime) returns (vectors: seq<seq<real>>)
    requires |rows| > 0
    ensures |vectors| == count
    ensures forall c :: 0 <= c < count ==> IsColumn(vectors[c], rows, c + 1, rt)
  {
    vectors := [];
    var colIndex := 0;
    while colIndex < count
      invariant 0 <= colIndex <= count
      invariant |vectors| == colIndex
      invariant forall c :: 0 <= c < colIndex ==> IsColumn(vectors[c], rows, c + 1, rt)
    {
      var vec := ColumnVector(rows, colIndex, rt);
      vectors := vectors + [vec];
      colIndex := colIndex + 1;
    }
  }

  method BuildData(text: string, rt: Runtime) returns (res: Result<Dataset, LoadError>)
    ensures res.Failure? <==> |Csv.Parse(text)| < 2
    ensures res.Failure? ==> res.error == MissingDataRows
    ensures res.Success? ==> Tabulates(res.value, Csv.Parse(text), rt)
    ensures res.Success? ==> forall c, f ::
      (0 <= c < |res.value.vectors| && 0 <= f < |res.value.features| && c + 1 >= |Csv.Parse(text)[f + 1]|) ==>
      res.value.vectors[c][f] == 0.0
  {
    var parsed := Csv.ParseCsv(text);
    var rows := NonEmptyRows(parsed);
    assert rows == Csv.Parse(text);
    if |rows| < 2 {
      return Failure(MissingDataRows);
    }
    var ingredients := IngredientNames(rows[0]);
    var features := FeatureNames(rows);
    var vectors := Columns(rows, |ingredients|, rt);
    var d := Dataset(ingredients, features, vectors);
    assert Tabulates(d, rows, rt);
    forall c, f | 0 <= c < |vectors| && 0 <= f < |features| && c + 1 >= |rows[f + 1]|
      ensures vectors[c][f] == 0.0
    {
      assert IsColumn(vectors[c], rows, c + 1, rt);
      assert rt.parseFloat("") == None;
    }
    res := Success(d);
  }
}
