/**
 * `generate_pdf_report.py`: normalise the column names of the full results
 * table, check that the date and number columns are there, drop the rows
 * whose date does not parse, pick the month of the latest date, and lay out
 * one text line per draw of that month, 34 lines to a page.
 *
 * The canvas itself is not modelled: a report is the file name, the title
 * and the list of lines with the page and height each is drawn at.
 */
module PdfReport {
  import opened Wrappers
  import opened Text
  import opened Calendar
  import opened Frames
  import opened Loto6Draws

  /** Legacy column names and the names the report reads instead. */
  const RenameMap: seq<(string, string)> := [
    ("抽選日", "抽せん日"), ("数字１", "数字1"), ("数字２", "数字2"), ("数字３", "数字3"),
    ("数字４", "数字4"), ("数字５", "数字5"), ("数字６", "数字6"), ("数字B", "ボーナス1")
  ]
  /** The columns checked for, in the order they are checked: the date, then the six numbers. */
  const Required: seq<string> := ["抽せん日", "数字1", "数字2", "数字3", "数字4", "数字5", "数字6"]
  const BonusColumn: string := "ボーナス1"

  /** The height of the first line of a page, the spacing of lines, and the height below which a new page starts. */
  const Top: int := 770
  const Spacing: int := 20
  const Bottom: int := 100
  /** Lines per page that these three constants allow. */
  const PerPage: nat := 34

  // ---------------------------------------------------------------------------
  // Column names

  function RenameWith(map_: seq<(string, string)>, name: string): string
  {
    if map_ == [] then name else if map_[0].0 == name then map_[0].1 else RenameWith(map_[1..], name)
  }

  /** `{k: v for k, v in rename_dict.items() if k in df.columns}` applied by `rename`. */
  function Rename(name: string): string
  {
    RenameWith(RenameMap, name)
  }

  /** Strip every name, then rename the legacy ones. */
  function NormaliseHeader(header: seq<string>): seq<string>
  {
    seq(|header|, i requires 0 <= i < |header| => Rename(Strip(header[i])))
  }

  lemma {:induction false} RenameWithSpec(map_: seq<(string, string)>, name: string)
    ensures forall k :: 0 <= k < |map_| && map_[k].0 == name && (forall j :: 0 <= j < k ==> map_[j].0 != name) ==>
      RenameWith(map_, name) == map_[k].1
    ensures (forall k :: 0 <= k < |map_| ==> map_[k].0 != name) ==> RenameWith(map_, name) == name
  {
    if map_ != [] && map_[0].0 != name {
      RenameWithSpec(map_[1..], name);
      forall k | 0 < k < |map_| && map_[k].0 == name && (forall j :: 0 <= j < k ==> map_[j].0 != name)
        ensures RenameWith(map_, name) == map_[k].1
      {
        assert map_[1..][k - 1] == map_[k];
        forall j | 0 <= j < k - 1 ensures map_[1..][j].0 != name {
          assert map_[1..][j] == map_[j + 1];
        }
      }
      forall k | 0 <= k < |map_| - 1 ensures map_[1..][k].0 != name ==> map_[1..][k] == map_[k + 1] {
      }
    }
  }

  /**
   * Every column name is stripped of surrounding white space; a stripped
   * name that is a legacy name becomes its canonical name, and any other
   * stripped name is kept.
   */
  lemma NormaliseHeaderSpec(header: seq<string>)
    ensures |NormaliseHeader(header)| == |header|
    ensures forall i, k :: 0 <= i < |header| && 0 <= k < |RenameMap| && Strip(header[i]) == RenameMap[k].0 ==>
      NormaliseHeader(header)[i] == RenameMap[k].1
    ensures forall i :: 0 <= i < |header| && (forall k :: 0 <= k < |RenameMap| ==> Strip(header[i]) != RenameMap[k].0) ==>
      NormaliseHeader(header)[i] == Strip(header[i])
  {
    RenameMapKeys();
    forall i | 0 <= i < |header| {
      RenameWithSpec(RenameMap, Strip(header[i]));
    }
  }

  /** The legacy names are all different, and none of them is a canonical name. */
  lemma RenameMapKeys()
    ensures forall k, j :: 0 <= k < j < |RenameMap| ==> RenameMap[k].0 != RenameMap[j].0
    ensures forall k, j :: 0 <= k < |RenameMap| && 0 <= j < |RenameMap| ==> RenameMap[k].1 != RenameMap[j].0
  {
  }

  /** After normalisation no legacy name is left. */
  lemma NoLegacyLeft(header: seq<string>)
    ensures forall i, k :: 0 <= i < |header| && 0 <= k < |RenameMap| ==> NormaliseHeader(header)[i] != RenameMap[k].0
  {
    forall i | 0 <= i < |header| {
      RenamedNotLegacy(Strip(header[i]));
    }
  }

  lemma RenamedNotLegacy(name: string)
    ensures forall k :: 0 <= k < |RenameMap| ==> Rename(name) != RenameMap[k].0
  {
    RenameWithSpec(RenameMap, name);
    if j :| 0 <= j < |RenameMap| && RenameMap[j].0 == name {
      var first := FirstKey(RenameMap, name, j);
      assert Rename(name) == RenameMap[first].1;
      RenameMapKeys();
    }
  }

  /** The first position whose key is `name`, given that position `j` has it. */
  lemma FirstKey(map_: seq<(string, string)>, name: string, j: nat) returns (first: nat)
    requires j < |map_| && map_[j].0 == name
    ensures first <= j && map_[first].0 == name && forall i :: 0 <= i < first ==> map_[i].0 != name
  {
    first := j;
    var i := 0;
    while i < j
      invariant 0 <= i <= j
      invariant forall m :: 0 <= m < i ==> map_[m].0 != name
    {
      if map_[i].0 == name {
        return i;
      }
      i := i + 1;
    }
  }

  // ---------------------------------------------------------------------------
  // The required-column check

  /** The first name of `names` that is not a column. */
  function FirstAbsent(header: seq<string>, names: seq<string>): Option<string>
  {
    if names == [] then None
    else if names[0] !in header then Some(names[0])
    else FirstAbsent(header, names[1..])
  }

  /** Nothing is absent exactly when every name is a column; otherwise the first absent name, in the listed order, is reported. */
  lemma {:induction false} FirstAbsentSpec(header: seq<string>, names: seq<string>)
    ensures FirstAbsent(header, names).None? <==> forall k :: 0 <= k < |names| ==> names[k] in header
    ensures FirstAbsent(header, names).Some? ==>
      exists k :: 0 <= k < |names| && names[k] == FirstAbsent(header, names).value &&
        names[k] !in header && forall j :: 0 <= j < k ==> names[j] in header
  {
    if names != [] && names[0] in header {
      FirstAbsentSpec(header, names[1..]);
      if FirstAbsent(header, names).Some? {
        var k :| 0 <= k < |names[1..]| && names[1..][k] == FirstAbsent(header, names).value &&
          names[1..][k] !in header && forall j :: 0 <= j < k ==> names[1..][j] in header;
        forall j | 0 <= j < k + 1 ensures names[j] in header {
          if j > 0 {
            assert names[j] == names[1..][j - 1];
          }
        }
        assert names[k + 1] == names[1..][k];
      }
      forall k | 0 <= k < |names| - 1 ensures names[1..][k] == names[k + 1] {
      }
    }
  }

  /** The loop over `required` that raises at the first column not found. */
  method CheckRequired(header: seq<string>, required: seq<string>) returns (missing: Option<string>)
    ensures missing == FirstAbsent(header, required)
  {
    var k := 0;
    while k < |required|
      invariant 0 <= k <= |required|
      invariant FirstAbsent(header, required) == FirstAbsent(header, required[k..])
    {
      assert required[k..][1..] == required[k + 1..];
      if required[k] !in header {
        return Some(required[k]);
      }
      k := k + 1;
    }
    return None;
  }

  // ---------------------------------------------------------------------------
  // Dates and the latest month

  /** `dropna(subset=["抽せん日"])`: the rows whose date cell parses, each with its date, in order. */
  function Dated(rows: seq<seq<Cell>>, di: nat): (r: seq<(Day, seq<Cell>)>)
    requires forall r :: 0 <= r < |rows| ==> di < |rows[r]|
    ensures forall i :: 0 <= i < |r| ==> r[i].1 in rows
  {
    if rows == [] then []
    else
      (match ToDate(rows[0][di]) case Some(d) => [(d, rows[0])] case None => [])
      + Dated(rows[1..], di)
  }

  /** Exactly the rows with a parseable date are kept, each paired with that date. */
  lemma {:induction false} DatedSpec(rows: seq<seq<Cell>>, di: nat)
    requires forall r :: 0 <= r < |rows| ==> di < |rows[r]|
    ensures forall x :: x in Dated(rows, di) ==> x.1 in rows && ToDate(x.1[di]) == Some(x.0)
    ensures forall r :: 0 <= r < |rows| && ToDate(rows[r][di]).Some? ==> (ToDate(rows[r][di]).value, rows[r]) in Dated(rows, di)
    ensures Dated(rows, di) == [] <==> forall r :: 0 <= r < |rows| ==> ToDate(rows[r][di]).None?
  {
    if rows != [] {
      DatedSpec(rows[1..], di);
      forall r | 1 <= r < |rows| ensures rows[r] == rows[1..][r - 1] {
      }
    }
  }

  /** `df["抽せん日"].max()`. */
  function LatestDay(dated: seq<(Day, seq<Cell>)>): (r: Day)
    requires dated != []
    ensures exists i :: 0 <= i < |dated| && dated[i].0 == r
    ensures forall i :: 0 <= i < |dated| ==> DateKey(dated[i].0) <= DateKey(r)
  {
    if |dated| == 1 then dated[0].0
    else
      var rest := LatestDay(dated[1..]);
      assert forall i :: 1 <= i < |dated| ==> dated[i] == dated[1..][i - 1];
      if DateKey(dated[0].0) >= DateKey(rest) then dated[0].0 else rest
  }

  /** The rows whose `%Y-%m` is `month`, in order. */
  function InMonth(dated: seq<(Day, seq<Cell>)>, month: string): seq<(Day, seq<Cell>)>
  {
    if dated == [] then []
    else (if MonthLabel(MonthOf(dated[0].0)) == month then [dated[0]] else []) + InMonth(dated[1..], month)
  }

  lemma {:induction false} InMonthMembers(dated: seq<(Day, seq<Cell>)>, month: string)
    ensures forall x :: x in InMonth(dated, month) <==> x in dated && MonthLabel(MonthOf(x.0)) == month
  {
    if dated != [] {
      InMonthMembers(dated[1..], month);
    }
  }

  /** The `YYYY-MM` of the latest date. */
  function LatestMonth(dated: seq<(Day, seq<Cell>)>): string
    requires dated != []
  {
    MonthLabel(MonthOf(LatestDay(dated)))
  }

  /**
   * The rows selected are exactly the dated rows in the month of the latest
   * date, there is at least one, and no dated row lies in a later month.
   */
  lemma LatestMonthSpec(dated: seq<(Day, seq<Cell>)>)
    requires dated != []
    ensures forall x :: x in InMonth(dated, LatestMonth(dated)) <==> x in dated && MonthOf(x.0) == MonthOf(LatestDay(dated))
    ensures InMonth(dated, LatestMonth(dated)) != []
    ensures forall i :: 0 <= i < |dated| ==> MonthIndex(MonthOf(dated[i].0)) <= MonthIndex(MonthOf(LatestDay(dated)))
  {
    var top := LatestDay(dated);
    InMonthMembers(dated, LatestMonth(dated));
    forall x | x in dated
      ensures MonthLabel(MonthOf(x.0)) == LatestMonth(dated) <==> MonthOf(x.0) == MonthOf(top)
    {
      MonthLabelOrder(MonthOf(x.0), MonthOf(top));
    }
    var i :| 0 <= i < |dated| && dated[i].0 == top;
    assert dated[i] in InMonth(dated, LatestMonth(dated));
    LatestMonthBound(dated);
  }

  lemma LatestMonthBound(dated: seq<(Day, seq<Cell>)>)
    requires dated != []
    ensures forall i :: 0 <= i < |dated| ==> MonthIndex(MonthOf(dated[i].0)) <= MonthIndex(MonthOf(LatestDay(dated)))
  {
    forall j | 0 <= j < |dated| ensures MonthIndex(MonthOf(dated[j].0)) <= MonthIndex(MonthOf(LatestDay(dated))) {
      DateKeyOrder(dated[j].0, LatestDay(dated));
    }
  }

  // ---------------------------------------------------------------------------
  // One line per draw

  /** `f"{date_str}： {numbers} （B:{bonus}）"`. */
  function LineText(d: Day, numbers: seq<int>, bonus: string): string
  {
    DateLabel(d) + "： " + DrawString(numbers) + " （B:" + bonus + "）"
  }

  /**
   * A line begins with the ten characters of the date and the separator,
   * ends with the bonus part, and what lies between reads back, with the
   * app's whitespace parser, as the six numbers in order; the app's
   * `astype(int)` parser reads it back as well exactly when all six fit in
   * `int64`.
   */
  lemma LineTextParts(d: Day, numbers: seq<int>, bonus: string)
    requires |numbers| == 6
    ensures var line := LineText(d, numbers, bonus);
      var tail := " （B:" + bonus + "）";
      |line| >= 12 + |tail| &&
      line[..10] == DateLabel(d) && line[10..12] == "： " && line[|line| - |tail|..] == tail &&
      line[12..|line| - |tail|] == DrawString(numbers)
    ensures ParseWords(DrawString(numbers)) == Some(numbers)
    ensures ParseDraw(DrawString(numbers)).Ok? <==> forall k :: 0 <= k < 6 ==> InInt64(numbers[k])
    ensures ParseDraw(DrawString(numbers)).Ok? ==> ParseDraw(DrawString(numbers)) == Ok(numbers)
  {
    var head := DateLabel(d) + "： ";
    assert |DateLabel(d)| == 10 && head[..10] == DateLabel(d) && head[10..] == "： ";
    LineTextSplit(d, numbers, bonus);
    ThreeParts(head, DrawString(numbers), " （B:" + bonus + "）");
    DrawStringRoundTrip(numbers);
  }

  lemma LineTextSplit(d: Day, numbers: seq<int>, bonus: string)
    ensures LineText(d, numbers, bonus) == (DateLabel(d) + "： ") + DrawString(numbers) + (" （B:" + bonus + "）")
  {
  }

  /** The three pieces of a concatenation are its slices. */
  lemma ThreeParts(a: string, b: string, c: string)
    ensures (a + b + c)[..|a|] == a && (a + b + c)[|a|..|a| + |b|] == b && (a + b + c)[|a| + |b|..] == c
  {
  }

  datatype ReportError = MissingColumn(name: string) | NoValidDate | BadNumber

  /** Every required column is present. */
  predicate HasRequired(header: seq<string>)
  {
    forall k :: 0 <= k < |Required| ==> Required[k] in header
  }

  /** Every row has one cell per column of `header`. */
  predicate Fits(header: seq<string>, rows: seq<seq<Cell>>)
  {
    forall r :: 0 <= r < |rows| ==> |rows[r]| == |header|
  }

  /** `str(int(x))` of the bonus cell, or empty when the column is absent or the cell is missing. */
  function BonusText(header: seq<string>, row: seq<Cell>): Result<string, ReportError>
    requires |row| == |header|
  {
    match IndexOf(header, BonusColumn)
    case None => Ok("")
    case Some(j) =>
      if row[j].Blank? then Ok("")
      else match AsInt(row[j])
        case None => Err(BadNumber)
        case Some(b) => Ok(IntToString(b))
  }

  /** The line of one dated row, or the error `int()` raises on a number cell. */
  function RowLine(header: seq<string>, d: Day, row: seq<Cell>): (r: Result<string, ReportError>)
    requires |row| == |header| && HasRequired(header)
    ensures r.Err? ==> r.error == BadNumber
  {
    var cells := seq(6, m requires 0 <= m < 6 => NumberCell(header, row, m));
    match AsInts(cells)
    case None => Err(BadNumber)
    case Some(numbers) =>
      match BonusText(header, row)
      case Err(e) => Err(e)
      case Ok(bonus) => Ok(LineText(d, numbers, bonus))
  }

  /** The cell of the `m`-th number column, `row["数字{m+1}"]`. */
  function NumberCell(header: seq<string>, row: seq<Cell>, m: nat): Cell
    requires |row| == |header| && HasRequired(header) && m < 6
  {
    assert Required[m + 1] in header;
    row[IndexOf(header, Required[m + 1]).value]
  }

  /**
   * The bonus part is empty when the column is absent or the cell missing;
   * otherwise it fails exactly when the cell is not an integer, and reads
   * back as the cell's integer.
   */
  lemma BonusTextSpec(header: seq<string>, row: seq<Cell>)
    requires |row| == |header|
    ensures BonusColumn !in header ==> BonusText(header, row) == Ok("")
    ensures BonusColumn in header ==>
      var c := row[IndexOf(header, BonusColumn).value];
      (c.Blank? ==> BonusText(header, row) == Ok("")) &&
      (!c.Blank? ==>
        (BonusText(header, row).Err? <==> AsInt(c).None?) &&
        (BonusText(header, row).Ok? ==> ParseInt(BonusText(header, row).value) == AsInt(c)))
  {
    if BonusColumn in header {
      var c := row[IndexOf(header, BonusColumn).value];
      if AsInt(c).Some? {
        IntRoundTrip(AsInt(c).value);
      }
    }
  }

  /**
   * A row's line fails exactly when one of its six number cells is not an
   * integer or its bonus cell cannot be read; a finished line starts with
   * the date, ends with the bonus part, and its middle reads back, with the
   * app's whitespace parser, as the six number cells in column order, and
   * with its `astype(int)` parser as well exactly when all six fit in
   * `int64`.
   */
  lemma RowLineSpec(header: seq<string>, d: Day, row: seq<Cell>)
    requires |row| == |header| && HasRequired(header)
    ensures RowLine(header, d, row).Ok? <==>
      (forall m :: 0 <= m < 6 ==> AsInt(NumberCell(header, row, m)).Some?) && BonusText(header, row).Ok?
    ensures RowLine(header, d, row).Ok? ==>
      var line := RowLine(header, d, row).value;
      var tail := " （B:" + BonusText(header, row).value + "）";
      |line| >= 12 + |tail| && line[..10] == DateLabel(d) && line[10..12] == "： " &&
      line[|line| - |tail|..] == tail &&
      var mid := line[12..|line| - |tail|];
      ParseWords(mid).Some? && |ParseWords(mid).value| == 6 &&
      (forall m :: 0 <= m < 6 ==> Some(ParseWords(mid).value[m]) == AsInt(NumberCell(header, row, m))) &&
      (ParseDraw(mid).Ok? <==> forall m :: 0 <= m < 6 ==> InInt64(ParseWords(mid).value[m])) &&
      (ParseDraw(mid).Ok? ==> ParseDraw(mid).value == ParseWords(mid).value)
  {
    var cells := seq(6, m requires 0 <= m < 6 => NumberCell(header, row, m));
    assert forall m :: 0 <= m < 6 ==> cells[m] == NumberCell(header, row, m);
    if AsInts(cells).Some? && BonusText(header, row).Ok? {
      LineTextParts(d, AsInts(cells).value, BonusText(header, row).value);
    }
  }

  /** The loop body over every selected row; the first error ends the loop. */
  function RowLines(header: seq<string>, chosen: seq<(Day, seq<Cell>)>): (r: Result<seq<string>, ReportError>)
    requires HasRequired(header)
    requires forall i :: 0 <= i < |chosen| ==> |chosen[i].1| == |header|
    ensures r.Err? ==> r.error == BadNumber
  {
    var lines := seq(|chosen|, i requires 0 <= i < |chosen| => RowLine(header, chosen[i].0, chosen[i].1));
    FirstErrorSpec(lines);
    FirstError(lines)
  }

  /** The loop fails exactly when some row's line fails, and otherwise gives each row's line in order. */
  lemma {:induction false} RowLinesSpec(header: seq<string>, chosen: seq<(Day, seq<Cell>)>)
    requires HasRequired(header)
    requires forall i :: 0 <= i < |chosen| ==> |chosen[i].1| == |header|
    ensures RowLines(header, chosen).Ok? ==>
      |RowLines(header, chosen).value| == |chosen| &&
      forall i :: 0 <= i < |chosen| ==> RowLine(header, chosen[i].0, chosen[i].1) == Ok(RowLines(header, chosen).value[i])
    ensures RowLines(header, chosen).Err? <==> exists i :: 0 <= i < |chosen| && RowLine(header, chosen[i].0, chosen[i].1).Err?
  {
    var lines := seq(|chosen|, i requires 0 <= i < |chosen| => RowLine(header, chosen[i].0, chosen[i].1));
    FirstErrorSpec(lines);
  }

  // ---------------------------------------------------------------------------
  // Layout

  datatype Placed = Placed(page: nat, y: int, text: string)

  /** Where the k-th line lands: the pages fill from the top, 34 lines each. */
  function Placement(lines: seq<string>): seq<Placed>
  {
    seq(|lines|, k requires 0 <= k < |lines| => Placed(k / PerPage, Top - Spacing * (k % PerPage), lines[k]))
  }

  /** The drawing loop: draw at `y`, move down, and start a new page below the bottom margin. */
  method Layout(lines: seq<string>) returns (placed: seq<Placed>)
    ensures placed == Placement(lines)
  {
    placed := [];
    var page: nat := 0;
    var y := Top;
    var k := 0;
    while k < |lines|
      invariant 0 <= k <= |lines|
      invariant page == k / PerPage && y == Top - Spacing * (k % PerPage)
      invariant placed == Placement(lines)[..k]
    {
      placed := placed + [Placed(page, y, lines[k])];
      y := y - Spacing;
      if y < Bottom {
        page := page + 1;
        y := Top;
      }
      k := k + 1;
    }
  }

  /**
   * Every line is drawn between heights 110 and 770; the first line of each
   * page is at the top, each further line is 20 lower on the same page,
   * and a new page starts after every 34th line.
   */
  lemma PlacementSpec(lines: seq<string>)
    ensures forall k :: 0 <= k < |lines| ==> Top - Spacing * (PerPage - 1) <= Placement(lines)[k].y <= Top
    ensures forall k :: 0 <= k < |lines| ==> Placement(lines)[k].text == lines[k]
    ensures forall k :: 0 < k < |lines| ==>
      if k % PerPage == 0 then
        Placement(lines)[k].page == Placement(lines)[k - 1].page + 1 && Placement(lines)[k].y == Top
      else
        Placement(lines)[k].page == Placement(lines)[k - 1].page &&
        Placement(lines)[k].y == Placement(lines)[k - 1].y - Spacing
    ensures |lines| > 0 ==> Placement(lines)[0] == Placed(0, Top, lines[0])
  {
  }

  // ---------------------------------------------------------------------------
  // The whole script

  datatype Report = Report(fileName: string, title: string, lines: seq<Placed>)

  /** The position of the date column. */
  function DateIndex(header: seq<string>): (r: nat)
    requires HasRequired(header)
    ensures r < |header| && header[r] == Required[0]
  {
    assert Required[0] in header;
    IndexOf(header, Required[0]).value
  }

  /** The rows drawn: the dated rows of the latest month, or none when no date parses. */
  function Selection(header: seq<string>, rows: seq<seq<Cell>>): (r: seq<(Day, seq<Cell>)>)
    requires Fits(header, rows) && HasRequired(header)
    ensures forall i :: 0 <= i < |r| ==> |r[i].1| == |header|
  {
    var dated := Dated(rows, DateIndex(header));
    if dated == [] then []
    else
      var chosen := InMonth(dated, LatestMonth(dated));
      InMonthMembers(dated, LatestMonth(dated));
      assert forall i :: 0 <= i < |chosen| ==> chosen[i] in chosen;
      chosen
  }

  /** The report once every required column is known to be present. */
  function Drawn(header: seq<string>, rows: seq<seq<Cell>>): (r: Result<Report, ReportError>)
    requires Fits(header, rows) && HasRequired(header)
    ensures r.Err? ==> r.error.NoValidDate? || r.error.BadNumber?
    ensures r == Err(NoValidDate) <==> Dated(rows, DateIndex(header)) == []
  {
    var dated := Dated(rows, DateIndex(header));
    if dated == [] then Err(NoValidDate)
    else
      var latest := LatestMonth(dated);
      match RowLines(header, Selection(header, rows))
      case Err(e) => Err(e)
      case Ok(lines) => Ok(Report(latest + "_report.pdf", "ロト6レポート：" + latest + " 月分", Placement(lines)))
  }

  /** The report from a normalised header and the rows. */
  function ReportFrom(header: seq<string>, rows: seq<seq<Cell>>): Result<Report, ReportError>
    requires Fits(header, rows)
  {
    match FirstAbsent(header, Required)
    case Some(c) => Err(MissingColumn(c))
    case None =>
      FirstAbsentSpec(header, Required);
      Drawn(header, rows)
  }

  /** Everything between reading the file and saving the canvas. */
  function MakeReport(f: Frame): Result<Report, ReportError>
    requires Rectangular(f)
  {
    ReportFrom(NormaliseHeader(f.header), f.rows)
  }

  /**
   * The report fails on a missing column exactly when a required column is
   * absent, and then names the first absent one in the listed order.
   */
  lemma ReportMissing(header: seq<string>, rows: seq<seq<Cell>>)
    requires Fits(header, rows)
    ensures ReportFrom(header, rows).Err? && ReportFrom(header, rows).error.MissingColumn? <==> !HasRequired(header)
    ensures ReportFrom(header, rows).Err? && ReportFrom(header, rows).error.MissingColumn? ==>
      exists k :: 0 <= k < |Required| && Required[k] == ReportFrom(header, rows).error.name &&
        Required[k] !in header && forall j :: 0 <= j < k ==> Required[j] in header
  {
    FirstAbsentSpec(header, Required);
  }

  /** With every required column present, the report fails for want of dates exactly when no row's date parses. */
  lemma ReportNoDate(header: seq<string>, rows: seq<seq<Cell>>)
    requires Fits(header, rows) && HasRequired(header)
    ensures ReportFrom(header, rows) == Err(NoValidDate) <==>
      forall r :: 0 <= r < |rows| ==> ToDate(rows[r][DateIndex(header)]).None?
  {
    FirstAbsentSpec(header, Required);
    DatedSpec(rows, DateIndex(header));
  }

  /**
   * A finished report is named after the latest month, and holds one line
   * per dated row of that month and no other, in the order of the rows,
   * each line being that row's line, laid out as `Placement` places it.
   */
  lemma ReportOutput(header: seq<string>, rows: seq<seq<Cell>>)
    requires Fits(header, rows) && ReportFrom(header, rows).Ok?
    ensures HasRequired(header)
    ensures
      var dated := Dated(rows, DateIndex(header));
      var chosen := Selection(header, rows);
      var r := ReportFrom(header, rows).value;
      dated != [] &&
      r.fileName == LatestMonth(dated) + "_report.pdf" &&
      (forall x :: x in chosen <==> x in dated && MonthOf(x.0) == MonthOf(LatestDay(dated))) &&
      RowLines(header, chosen).Ok? && r.lines == Placement(RowLines(header, chosen).value)
  {
    FirstAbsentSpec(header, Required);
    var dated := Dated(rows, DateIndex(header));
    LatestMonthSpec(dated);
  }
}
