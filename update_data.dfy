/**
 * `update_loto6_data.py`: from the full results table, keep the date, the
 * six numbers and the bonus number, write the six numbers as one
 * space-separated `本数字` string and the bonus as a `ボーナス数字` string,
 * and keep the 100 latest draws by date, latest first.
 */
module UpdateData {
  import opened Wrappers
  import opened Text
  import opened Calendar
  import opened Counting
  import opened Frames
  import opened Loto6Draws

  const InputColumns: seq<string> := ["抽選日", "数字１", "数字２", "数字３", "数字４", "数字５", "数字６", "数字B"]
  const OutputColumns: seq<string> := ["抽選日", "本数字", "ボーナス数字"]
  /** How many of the latest draws are kept. */
  const Keep: nat := 100

  /**
   * A `KeyError` naming the absent input columns, or a number cell
   * `astype(int)` cannot convert: `int()` rejects it (`ValueError`) or its
   * value does not fit in `int64` (`OverflowError`).
   */
  datatype UpdateError = MissingColumns(names: seq<string>) | BadNumber

  /** A selected row after conversion: its date (`None` for `NaT`), its six numbers and its bonus number. */
  datatype Record = Record(date: Option<Day>, numbers: Draw, bonus: int)

  function ToRecord(row: seq<Cell>): Option<Record>
    requires |row| == |InputColumns|
  {
    match (AsInts64(row[1..7]), AsInt64(row[7]))
    case (Some(ns), Some(b)) => Some(Record(ToDate(row[0]), ns, b))
    case _ => None
  }

  /** The column-wise conversions over every row: one cell that does not convert makes the whole step raise. */
  function ToRecords(rows: seq<seq<Cell>>): (r: Option<seq<Record>>)
    requires forall i :: 0 <= i < |rows| ==> |rows[i]| == |InputColumns|
    ensures r.Some? <==> forall i :: 0 <= i < |rows| ==> ToRecord(rows[i]).Some?
    ensures r.Some? ==> |r.value| == |rows| && forall i :: 0 <= i < |rows| ==> ToRecord(rows[i]) == Some(r.value[i])
  {
    if rows == [] then Some([])
    else match (ToRecord(rows[0]), ToRecords(rows[1..]))
      case (Some(x), Some(rest)) => Some([x] + rest)
      case _ => None
  }

  /** The sort key of `sort_values("抽選日", ascending=False)`: later dates rank higher, `NaT` lowest. */
  function Rank(r: Record): int
  {
    match r.date
    case None => 0
    case Some(d) => DateKey(d)
  }

  /** A higher rank is a later date, and every date ranks above `NaT`. */
  lemma RankOrder(a: Record, b: Record)
    ensures Rank(a) > Rank(b) <==>
      a.date.Some? && (b.date.None? || Before(b.date.value, a.date.value))
    ensures Rank(a) == Rank(b) <==> a.date == b.date
  {
    match (a.date, b.date)
    case (Some(x), Some(y)) => DateKeyOrder(x, y);
    case _ =>
  }

  /** `sort_values(...)` followed by `head(100)`. */
  function Latest(recs: seq<Record>): seq<Record>
  {
    Head(SortDesc(recs, Rank), Keep)
  }

  /** The rows `head(100)` leaves behind. */
  function Dropped(recs: seq<Record>): seq<Record>
  {
    SortDesc(recs, Rank)[Min(Keep, |recs|)..]
  }

  /** Cutting a non-increasing sequence leaves both parts non-increasing and the front part no lower than the back. */
  lemma SplitNonIncreasing<T>(s: seq<T>, key: T -> int, n: nat)
    requires NonIncreasing(s, key) && n <= |s|
    ensures NonIncreasing(s[..n], key)
    ensures forall i, j :: 0 <= i < n && 0 <= j < |s| - n ==> key(s[..n][i]) >= key(s[n..][j])
  {
    forall i, j | 0 <= i < n && 0 <= j < |s| - n
      ensures key(s[..n][i]) >= key(s[n..][j])
    {
      assert s[..n][i] == s[i] && s[n..][j] == s[n + j];
    }
  }

  /**
   * The kept rows are the `min(100, n)` latest, latest first with `NaT`
   * last, and no dropped row is later than a kept one.
   */
  lemma LatestOrder(recs: seq<Record>)
    ensures |Latest(recs)| == Min(Keep, |recs|)
    ensures NonIncreasing(Latest(recs), Rank)
    ensures forall i, j :: 0 <= i < |Latest(recs)| && 0 <= j < |Dropped(recs)| ==>
      Rank(Latest(recs)[i]) >= Rank(Dropped(recs)[j])
  {
    SortDescCorrect(recs, Rank);
    SplitNonIncreasing(SortDesc(recs, Rank), Rank, Min(Keep, |recs|));
  }

  /** Kept and dropped rows together are the input rows, each as often as it occurs there. */
  lemma LatestPermutation(recs: seq<Record>)
    ensures multiset(Latest(recs)) + multiset(Dropped(recs)) == multiset(recs)
  {
    var s := SortDesc(recs, Rank);
    var n := Min(Keep, |recs|);
    SortDescPermutation(recs, Rank);
    assert s == s[..n] + s[n..];
  }

  function DateCell(date: Option<Day>): Cell
  {
    match date
    case None => Blank
    case Some(d) => When(d)
  }

  /** One output row: the date, `本数字` and `ボーナス数字`. */
  function Render(r: Record): seq<Cell>
  {
    [DateCell(r.date), Str(DrawString(r.numbers)), Str(IntToString(r.bonus))]
  }

  /** Column selection and the integer conversions, before any row is reordered. */
  function Convert(f: Frame): Result<seq<Record>, UpdateError>
    requires Rectangular(f)
  {
    match Select(f, InputColumns)
    case Err(missing) => Err(MissingColumns(missing))
    case Ok(sel) =>
      SelectSpec(f, InputColumns);
      match ToRecords(sel.rows)
      case None => Err(BadNumber)
      case Some(recs) => Ok(recs)
  }

  /** The whole script between reading and writing the file. */
  function Update(f: Frame): Result<Frame, UpdateError>
    requires Rectangular(f)
  {
    match Convert(f)
    case Err(e) => Err(e)
    case Ok(recs) =>
      var kept := Latest(recs);
      Ok(Frame(OutputColumns, seq(|kept|, i requires 0 <= i < |kept| => Render(kept[i]))))
  }

  /**
   * The script fails with a `KeyError` exactly when an input column is
   * absent, naming every absent one. Nothing is written.
   */
  lemma UpdateMissingColumns(f: Frame)
    requires Rectangular(f)
    ensures Update(f).Err? && Update(f).error.MissingColumns? <==>
      exists k :: 0 <= k < |InputColumns| && InputColumns[k] !in f.header
    ensures Update(f).Err? && Update(f).error.MissingColumns? ==>
      forall x :: x in Update(f).error.names <==> x in InputColumns && x !in f.header
  {
    SelectSpec(f, InputColumns);
  }

  /**
   * With every input column present, the script fails exactly when some
   * row holds a number or bonus cell that `astype(int)` cannot convert.
   * Nothing is written.
   */
  lemma UpdateBadNumber(f: Frame)
    requires Rectangular(f)
    requires forall k :: 0 <= k < |InputColumns| ==> InputColumns[k] in f.header
    ensures Update(f) == Err(BadNumber) <==>
      exists i, c, j :: 0 <= i < |f.rows| && 1 <= c < |InputColumns| &&
        IndexOf(f.header, InputColumns[c]) == Some(j) && AsInt64(f.rows[i][j]).None?
  {
    SelectSpec(f, InputColumns);
    var sel := Select(f, InputColumns).value;
    if ToRecords(sel.rows).None? {
      var i :| 0 <= i < |sel.rows| && ToRecord(sel.rows[i]).None?;
      BadCell(f, i);
    } else {
      forall i, c, j | 0 <= i < |f.rows| && 1 <= c < |InputColumns| &&
        IndexOf(f.header, InputColumns[c]) == Some(j)
        ensures AsInt64(f.rows[i][j]).Some?
      {
        GoodCell(f, i, c, j);
      }
    }
  }

  lemma BadCell(f: Frame, i: nat)
    requires Rectangular(f) && Select(f, InputColumns).Ok? && i < |f.rows|
    requires |Select(f, InputColumns).value.rows[i]| == |InputColumns|
    requires ToRecord(Select(f, InputColumns).value.rows[i]).None?
    ensures
      exists c, j :: 1 <= c < |InputColumns| &&
        IndexOf(f.header, InputColumns[c]) == Some(j) && AsInt64(f.rows[i][j]).None?
  {
    SelectSpec(f, InputColumns);
    var row := Select(f, InputColumns).value.rows[i];
    var c: int;
    if AsInts64(row[1..7]).None? {
      var m :| 0 <= m < 6 && AsInt64(row[1..7][m]).None?;
      c := m + 1;
    } else {
      c := 7;
    }
    var j := IndexOf(f.header, InputColumns[c]).value;
    assert row[c] == f.rows[i][j];
  }

  lemma GoodCell(f: Frame, i: nat, c: nat, j: nat)
    requires Rectangular(f) && Select(f, InputColumns).Ok? && i < |f.rows|
    requires |Select(f, InputColumns).value.rows[i]| == |InputColumns|
    requires ToRecord(Select(f, InputColumns).value.rows[i]).Some?
    requires 1 <= c < |InputColumns| && IndexOf(f.header, InputColumns[c]) == Some(j)
    ensures AsInt64(f.rows[i][j]).Some?
  {
    SelectSpec(f, InputColumns);
    var row := Select(f, InputColumns).value.rows[i];
    assert row[c] == f.rows[i][j];
    if c < 7 {
      assert row[c] == row[1..7][c - 1];
    }
  }

  /** Every converted record comes from the row at the same position, one record per row. */
  lemma ConvertRows(f: Frame)
    requires Rectangular(f) && Convert(f).Ok?
    ensures Select(f, InputColumns).Ok?
    ensures |Convert(f).value| == |f.rows|
    ensures forall i :: 0 <= i < |f.rows| ==>
      |Select(f, InputColumns).value.rows[i]| == |InputColumns| &&
      ToRecord(Select(f, InputColumns).value.rows[i]) == Some(Convert(f).value[i])
  {
    SelectSpec(f, InputColumns);
  }

  /** Every record holds six numbers, one per number column, each an `int64`. */
  predicate SixNumbers(recs: seq<Record>)
  {
    forall i :: 0 <= i < |recs| ==> Converted(recs[i])
  }

  /** What `astype(int)` leaves in a record: six numbers, each an `int64`. */
  predicate Converted(r: Record)
  {
    |r.numbers| == 6 && forall k :: 0 <= k < 6 ==> InInt64(r.numbers[k])
  }

  lemma ConvertSix(f: Frame)
    requires Rectangular(f) && Convert(f).Ok?
    ensures SixNumbers(Convert(f).value)
  {
    ConvertRows(f);
  }

  lemma LatestSix(recs: seq<Record>)
    requires SixNumbers(recs)
    ensures SixNumbers(Latest(recs))
  {
    var s := SortDesc(recs, Rank);
    SortDescMembers(recs, Rank);
    forall i | 0 <= i < |Latest(recs)| ensures Converted(Latest(recs)[i]) {
      assert Latest(recs)[i] == s[i];
      assert s[i] in s;
      assert s[i] in recs;
    }
  }

  /**
   * On success the output has the columns `抽選日`, `本数字`, `ボーナス数字`
   * and one row per kept draw, in the order of `Latest`: the date as read
   * (`NaT` written empty), a `本数字` string that the app's own parsers read
   * back as the six numbers in column order, and a bonus string that reads
   * back as the bonus number.
   */
  lemma UpdateOutput(f: Frame)
    requires Rectangular(f) && Update(f).Ok?
    ensures Convert(f).Ok?
    ensures var kept := Latest(Convert(f).value);
      var g := Update(f).value;
      g.header == OutputColumns && |g.rows| == |kept| == Min(Keep, |f.rows|) && Rectangular(g) &&
      forall i :: 0 <= i < |kept| ==>
        g.rows[i][0] == DateCell(kept[i].date) &&
        g.rows[i][1].Str? && ParseDraw(g.rows[i][1].s) == Ok(kept[i].numbers) &&
        ParseWords(g.rows[i][1].s) == Some(kept[i].numbers) &&
        g.rows[i][2].Str? && ParseInt(g.rows[i][2].s) == Some(kept[i].bonus)
  {
    var recs := Convert(f).value;
    var kept := Latest(recs);
    LatestOrder(recs);
    ConvertRows(f);
    var g := Update(f).value;
    ConvertSix(f);
    LatestSix(recs);
    forall i | 0 <= i < |kept|
      ensures ParseDraw(g.rows[i][1].s) == Ok(kept[i].numbers) &&
        ParseWords(g.rows[i][1].s) == Some(kept[i].numbers) &&
        ParseInt(g.rows[i][2].s) == Some(kept[i].bonus)
    {
      assert g.rows[i] == Render(kept[i]);
      RenderRoundTrip(kept[i]);
    }
  }

  /** The strings written for a converted record read back as its numbers and its bonus. */
  lemma RenderRoundTrip(r: Record)
    requires Converted(r)
    ensures ParseDraw(Render(r)[1].s) == Ok(r.numbers) && ParseWords(Render(r)[1].s) == Some(r.numbers)
    ensures ParseInt(Render(r)[2].s) == Some(r.bonus)
  {
    DrawStringRoundTrip(r.numbers);
    IntRoundTrip(r.bonus);
  }
}
