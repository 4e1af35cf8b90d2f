/**
 * `scrape_loto6_selenium.py`: take columns 1 to 8 of a results table by
 * position, name them, write the six number columns as one space-separated
 * `本数字` string, and keep the first 100 rows as they come.
 *
 * The numbers are turned into text column by column, as pandas does it: a
 * column of integers with one empty cell is held as floating point, so every
 * number in that column is written with a `.0` and the gap as `nan`.
 */
module ScrapeSelenium {
  import opened Wrappers
  import opened Text
  import opened Calendar
  import opened Frames
  import opened Loto6Draws

  /** The names given to input columns 1 to 8. */
  const Renamed: seq<string> := ["抽せん日", "数字1", "数字2", "数字3", "数字4", "数字5", "数字6", "ボーナス数字"]
  const OutputColumns: seq<string> := ["抽せん日", "本数字", "ボーナス数字"]
  /** How many leading rows are kept. */
  const Keep: nat := 100

  /** `iloc` asked for column 8 of a table with fewer columns: an `IndexError`. */
  datatype ScrapeError = TooFewColumns(count: nat)

  /** `df.iloc[:, [1, 2, 3, 4, 5, 6, 7, 8]]` with the columns renamed. */
  function Positional(f: Frame): Result<Frame, ScrapeError>
    requires Rectangular(f)
  {
    if |f.header| < 9 then Err(TooFewColumns(|f.header|))
    else Ok(Frame(Renamed, seq(|f.rows|, i requires 0 <= i < |f.rows| => f.rows[i][1..9])))
  }

  /**
   * Positional selection fails exactly when the table has fewer than nine
   * columns; otherwise it keeps every row and, under the new names, the
   * cells of input columns 1 to 8 in order: column 0 and any column past
   * 8 are dropped.
   */
  lemma PositionalSpec(f: Frame)
    requires Rectangular(f)
    ensures Positional(f).Err? <==> |f.header| < 9
    ensures Positional(f).Ok? ==>
      Positional(f).value.header == Renamed && |Positional(f).value.rows| == |f.rows| &&
      Rectangular(Positional(f).value) &&
      forall i, k :: 0 <= i < |f.rows| && 0 <= k < 8 ==> Positional(f).value.rows[i][k] == f.rows[i][k + 1]
  {
  }

  /** The cells of column `k`. */
  function Column(rows: seq<seq<Cell>>, k: nat): seq<Cell>
    requires forall i :: 0 <= i < |rows| ==> k < |rows[i]|
  {
    seq(|rows|, i requires 0 <= i < |rows| => rows[i][k])
  }

  /** A column of integers with at least one gap, which pandas holds as floating point. */
  predicate FloatColumn(col: seq<Cell>)
  {
    (exists i :: 0 <= i < |col| && col[i].Blank?) && forall i :: 0 <= i < |col| ==> col[i].Blank? || col[i].Number?
  }

  /** `str()` of one cell, given whether its column is held as floating point. */
  function CellString(c: Cell, float: bool): string
  {
    match c
    case Blank => "nan"
    case Number(n) => IntToString(n) + (if float then ".0" else "")
    case Str(s) => s
    case When(d) => DateLabel(d) + " 00:00:00"
  }

  /** `astype(str)` of column `k`, whose cells are rendered the same way throughout. */
  function StrColumn(rows: seq<seq<Cell>>, k: nat): seq<string>
    requires forall i :: 0 <= i < |rows| ==> k < |rows[i]|
  {
    var col := Column(rows, k);
    seq(|col|, i requires 0 <= i < |col| => CellString(col[i], FloatColumn(col)))
  }

  /** The six number renderings of row `i`, in column order. */
  function NumberParts(rows: seq<seq<Cell>>, i: nat): seq<string>
    requires i < |rows| && forall r :: 0 <= r < |rows| ==> |rows[r]| == |Renamed|
  {
    seq(6, m requires 0 <= m < 6 => StrColumn(rows, m + 1)[i])
  }

  /** `本数字` of row `i`: `" ".join` of the six renderings. */
  function NumbersString(rows: seq<seq<Cell>>, i: nat): string
    requires i < |rows| && forall r :: 0 <= r < |rows| ==> |rows[r]| == |Renamed|
  {
    Join(NumberParts(rows, i), ' ')
  }

  /** The whole script between reading and writing the file. */
  function Scrape(f: Frame): Result<Frame, ScrapeError>
    requires Rectangular(f)
  {
    match Positional(f)
    case Err(e) => Err(e)
    case Ok(sel) =>
      var n := Min(Keep, |sel.rows|);
      Ok(Frame(OutputColumns, seq(n, i requires 0 <= i < n => [sel.rows[i][0], Str(NumbersString(sel.rows, i)), sel.rows[i][7]])))
  }

  /**
   * The script fails exactly when the table has fewer than nine columns.
   * Otherwise the output has the columns `抽せん日`, `本数字`, `ボーナス数字`
   * and is the first `min(100, n)` rows in their input order, each with the
   * date cell of input column 1 and the bonus cell of input column 8
   * unchanged.
   */
  lemma ScrapeShape(f: Frame)
    requires Rectangular(f)
    ensures Scrape(f).Err? <==> |f.header| < 9
    ensures Scrape(f).Ok? ==>
      Scrape(f).value.header == OutputColumns && |Scrape(f).value.rows| == Min(Keep, |f.rows|) &&
      Rectangular(Scrape(f).value) &&
      forall i :: 0 <= i < |Scrape(f).value.rows| ==>
        Scrape(f).value.rows[i][0] == f.rows[i][1] && Scrape(f).value.rows[i][2] == f.rows[i][8]
  {
  }

  /** Every cell of the six number columns is an integer or a gap. */
  predicate IntegerColumns(f: Frame)
    requires Rectangular(f) && |f.header| >= 9
  {
    forall i, k :: 0 <= i < |f.rows| && 2 <= k < 8 ==> f.rows[i][k].Number? || f.rows[i][k].Blank?
  }

  /** Some row has a gap in input column `k`. */
  predicate HasGap(f: Frame, k: nat)
    requires Rectangular(f) && k < |f.header|
  {
    exists i :: 0 <= i < |f.rows| && f.rows[i][k].Blank?
  }

  /**
   * With integer number columns, the `本数字` string of a kept row reads
   * back through the app's parser exactly when none of the six columns has
   * a gap in any row of the file, and then as the row's six numbers in
   * column order; one gap anywhere in a column spoils that column's number
   * in every row.
   */
  lemma ScrapeNumbers(f: Frame, i: nat)
    requires Rectangular(f) && |f.header| >= 9 && IntegerColumns(f)
    requires i < Min(Keep, |f.rows|)
    ensures Scrape(f).Ok? && i < |Scrape(f).value.rows| && Scrape(f).value.rows[i][1].Str?
    ensures ParseDraw(Scrape(f).value.rows[i][1].s).Ok? <==> forall k :: 2 <= k < 8 ==> !HasGap(f, k)
    ensures ParseDraw(Scrape(f).value.rows[i][1].s).Ok? ==>
      forall m :: 0 <= m < 6 ==> Some(ParseDraw(Scrape(f).value.rows[i][1].s).value[m]) == AsInt(f.rows[i][m + 2])
  {
    var rows := Positional(f).value.rows;
    assert Scrape(f).value.rows[i][1] == Str(NumbersString(rows, i));
    ScrapeParts(f, i);
    ReadNumbers(f, i, NumbersString(rows, i));
  }

  /** Six single-space fields that read back exactly when their columns have no gap make a draw exactly then. */
  lemma ReadNumbers(f: Frame, i: nat, text: string)
    requires Rectangular(f) && |f.header| >= 9 && i < |f.rows|
    requires |SplitOn(text, ' ')| == 6
    requires forall m :: 0 <= m < 6 ==>
      (ParseInt(SplitOn(text, ' ')[m]).Some? <==> !HasGap(f, m + 2)) &&
      (ParseInt(SplitOn(text, ' ')[m]).Some? ==>
        ParseInt(SplitOn(text, ' ')[m]) == AsInt(f.rows[i][m + 2]) && InInt64(ParseInt(SplitOn(text, ' ')[m]).value))
    ensures ParseDraw(text).Ok? <==> forall k :: 2 <= k < 8 ==> !HasGap(f, k)
    ensures ParseDraw(text).Ok? ==> forall m :: 0 <= m < 6 ==> Some(ParseDraw(text).value[m]) == AsInt(f.rows[i][m + 2])
  {
    var parts := SplitOn(text, ' ');
    ParseDrawSpec(text);
    if forall k :: 2 <= k < 8 ==> !HasGap(f, k) {
      forall m | 0 <= m < 6 ensures ParseInt(parts[m]).Some? {
        assert !HasGap(f, m + 2);
      }
    } else {
      var k :| 2 <= k < 8 && HasGap(f, k);
      assert ParseInt(parts[k - 2]).None?;
    }
  }

  /** The `本数字` string of a kept row splits at single spaces into its six renderings. */
  lemma ScrapeParts(f: Frame, i: nat)
    requires Rectangular(f) && |f.header| >= 9 && IntegerColumns(f)
    requires i < Min(Keep, |f.rows|)
    ensures var parts := NumberParts(Positional(f).value.rows, i);
      SplitOn(NumbersString(Positional(f).value.rows, i), ' ') == parts &&
      forall m :: 0 <= m < 6 ==>
        (ParseInt(parts[m]).Some? <==> !HasGap(f, m + 2)) &&
        (ParseInt(parts[m]).Some? ==> ParseInt(parts[m]) == AsInt(f.rows[i][m + 2]) && InInt64(ParseInt(parts[m]).value))
  {
    var parts := NumberParts(Positional(f).value.rows, i);
    forall m | 0 <= m < 6
      ensures ' ' !in parts[m]
      ensures ParseInt(parts[m]).Some? <==> !HasGap(f, m + 2)
      ensures ParseInt(parts[m]).Some? ==> ParseInt(parts[m]) == AsInt(f.rows[i][m + 2]) && InInt64(ParseInt(parts[m]).value)
    {
      PartSpec(f, i, m);
    }
    SplitJoin(parts, ' ');
  }

  /** A number column is held as floating point exactly when it has a gap. */
  lemma FloatColumnGap(f: Frame, m: nat)
    requires Rectangular(f) && |f.header| >= 9 && IntegerColumns(f) && m < 6
    ensures FloatColumn(Column(Positional(f).value.rows, m + 1)) <==> HasGap(f, m + 2)
  {
    var rows := Positional(f).value.rows;
    var col := Column(rows, m + 1);
    assert |col| == |f.rows|;
    assert forall r :: 0 <= r < |col| ==> col[r] == f.rows[r][m + 2];
    if HasGap(f, m + 2) {
      var r :| 0 <= r < |f.rows| && f.rows[r][m + 2].Blank?;
      assert col[r].Blank?;
    }
  }

  /** One of the six renderings: free of spaces, and an integer exactly when its column has no gap. */
  lemma PartSpec(f: Frame, i: nat, m: nat)
    requires Rectangular(f) && |f.header| >= 9 && IntegerColumns(f)
    requires i < |f.rows| && m < 6
    ensures
      var part := NumberParts(Positional(f).value.rows, i)[m];
      ' ' !in part &&
      (ParseInt(part).Some? <==> !HasGap(f, m + 2)) &&
      (ParseInt(part).Some? ==> ParseInt(part) == AsInt(f.rows[i][m + 2]) && InInt64(ParseInt(part).value))
  {
    var rows := Positional(f).value.rows;
    var col := Column(rows, m + 1);
    assert NumberParts(rows, i)[m] == CellString(f.rows[i][m + 2], FloatColumn(col));
    FloatColumnGap(f, m);
    RenderInteger(f.rows[i][m + 2], FloatColumn(col));
  }

  /**
   * An integer cell renders without spaces, and reads back as itself
   * unless its column is floating point; a gap, which only a floating
   * point column has, never reads back.
   */
  lemma RenderInteger(c: Cell, float: bool)
    requires c.Number? || (c.Blank? && float)
    ensures ' ' !in CellString(c, float)
    ensures ParseInt(CellString(c, float)).Some? <==> !float
    ensures !float ==> ParseInt(CellString(c, float)) == AsInt(c)
  {
    if c.Blank? {
      AsciiSymbol('n');
      ParseIntRejects(CellString(c, float), 0);
    } else if float {
      assert CellString(c, float) == IntToString(c.n) + ".0";
      FloatRendering(c.n);
    } else {
      assert CellString(c, float) == IntToString(c.n);
      IntRoundTrip(c.n);
    }
  }

  /** `12.0` and its like do not read back as an integer. */
  lemma FloatRendering(x: int)
    ensures ' ' !in IntToString(x) + ".0"
    ensures ParseInt(IntToString(x) + ".0").None?
  {
    IntRoundTrip(x);
    var t := IntToString(x) + ".0";
    assert t[|t| - 2] == '.';
    AsciiSymbol('.');
    ParseIntRejects(t, |t| - 2);
    assert ' ' !in ".0";
  }
}
