/**
 * The tables the data scripts read and write, as pandas holds them once a
 * CSV file is read: a header of column names and rows of cells. Reading and
 * writing the files is not part of the model; a date cell arrives already
 * parsed, because pandas' date parser is not modelled.
 */
module Frames {
  import opened Wrappers
  import opened Text
  import opened Calendar

  /** A calendar date pandas can hold as a timestamp. */
  type Day = d: Date | ValidDate(d) witness Date(2000, 1, 1)

  /** One cell: missing (`NaN`), an integer of an `int64` column, text, or a parsed date. */
  datatype Cell = Blank | Number(n: Int64) | Str(s: string) | When(d: Day)

  datatype Frame = Frame(header: seq<string>, rows: seq<seq<Cell>>)

  /** Every row has one cell per column, as in any pandas frame. */
  predicate Rectangular(f: Frame)
  {
    forall i :: 0 <= i < |f.rows| ==> |f.rows[i]| == |f.header|
  }

  /** The position of the first column called `name`, as label lookup finds it. */
  function IndexOf(header: seq<string>, name: string): (r: Option<nat>)
    ensures r.Some? ==> r.value < |header| && header[r.value] == name && name !in header[..r.value]
    ensures r.None? <==> name !in header
  {
    if header == [] then None
    else if header[0] == name then Some(0)
    else match IndexOf(header[1..], name)
      case None => None
      case Some(i) =>
        assert header[..i + 1] == [header[0]] + header[1..][..i];
        Some(i + 1)
  }

  /** The requested names that are not columns, in the order requested. */
  function Absent(header: seq<string>, names: seq<string>): (r: seq<string>)
    ensures forall x :: x in r <==> x in names && x !in header
  {
    if names == [] then []
    else (if names[0] in header then [] else [names[0]]) + Absent(header, names[1..])
  }

  /** The cells of `row` under the columns `names`, in that order. */
  function Project(row: seq<Cell>, header: seq<string>, names: seq<string>): seq<Cell>
    requires |row| == |header| && forall k :: 0 <= k < |names| ==> names[k] in header
  {
    seq(|names|, k requires 0 <= k < |names| => row[IndexOf(header, names[k]).value])
  }

  /** `df[names]`: the named columns in the order asked for, or a `KeyError` listing the absent ones. */
  function Select(f: Frame, names: seq<string>): Result<Frame, seq<string>>
    requires Rectangular(f)
  {
    var missing := Absent(f.header, names);
    if missing != [] then Err(missing)
    else
      assert forall k :: 0 <= k < |names| ==> names[k] in names;
      Ok(Frame(names, seq(|f.rows|, i requires 0 <= i < |f.rows| => Project(f.rows[i], f.header, names))))
  }

  /**
   * Selection fails exactly when a requested column is absent and then
   * names every absent one; otherwise the new frame has the requested
   * header, the same rows, and under each requested name the cell of the
   * first column of that name.
   */
  lemma SelectSpec(f: Frame, names: seq<string>)
    requires Rectangular(f)
    ensures Select(f, names).Err? <==> exists k :: 0 <= k < |names| && names[k] !in f.header
    ensures Select(f, names).Err? ==>
      forall x :: x in Select(f, names).error <==> x in names && x !in f.header
    ensures Select(f, names).Ok? ==>
      Select(f, names).value.header == names && |Select(f, names).value.rows| == |f.rows| &&
      Rectangular(Select(f, names).value)
    ensures Select(f, names).Ok? ==>
      forall k :: 0 <= k < |names| ==> IndexOf(f.header, names[k]).Some?
    ensures Select(f, names).Ok? ==>
      forall i, k, j :: 0 <= i < |f.rows| && 0 <= k < |names| && IndexOf(f.header, names[k]) == Some(j) ==>
        Select(f, names).value.rows[i][k] == f.rows[i][j]
  {
    var missing := Absent(f.header, names);
    if missing != [] {
      var x := missing[0];
      assert x in missing;
      var k :| 0 <= k < |names| && names[k] == x;
    } else {
      forall k | 0 <= k < |names| ensures IndexOf(f.header, names[k]).Some? {
        assert names[k] in names;
      }
      forall i, k, j | 0 <= i < |f.rows| && 0 <= k < |names| && IndexOf(f.header, names[k]) == Some(j)
        ensures Select(f, names).value.rows[i][k] == f.rows[i][j]
      {
        SelectCell(f, names, i, k);
      }
    }
  }

  lemma SelectCell(f: Frame, names: seq<string>, i: nat, k: nat)
    requires Rectangular(f) && Select(f, names).Ok? && i < |f.rows| && k < |names|
    ensures IndexOf(f.header, names[k]).Some?
    ensures Select(f, names).value.rows[i][k] == f.rows[i][IndexOf(f.header, names[k]).value]
  {
    assert names[k] in names;
    assert Select(f, names).value.rows[i] == Project(f.rows[i], f.header, names);
  }

  /** `int(x)` of one cell: a missing cell or a date does not convert, text converts as `int()` reads it. */
  function AsInt(c: Cell): Option<int>
  {
    match c
    case Number(n) => Some(n)
    case Str(s) => ParseInt(s)
    case _ => None
  }

  /** `int(x)` of several cells: all of them, or nothing when one does not convert. */
  function AsInts(cs: seq<Cell>): (r: Option<seq<int>>)
    ensures r.Some? <==> forall i :: 0 <= i < |cs| ==> AsInt(cs[i]).Some?
    ensures r.Some? ==> |r.value| == |cs| && forall i :: 0 <= i < |cs| ==> AsInt(cs[i]) == Some(r.value[i])
  {
    if cs == [] then Some([])
    else match (AsInt(cs[0]), AsInts(cs[1..]))
      case (Some(x), Some(rest)) => Some([x] + rest)
      case _ => None
  }

  /**
   * `astype(int)` of one cell: numpy reads the cell with `int()` and raises
   * `OverflowError` when the value does not fit in `int64`.
   */
  function AsInt64(c: Cell): (r: Option<int>)
    ensures r.Some? <==> AsInt(c).Some? && InInt64(AsInt(c).value)
    ensures r.Some? ==> r == AsInt(c)
  {
    match AsInt(c)
    case Some(v) => if InInt64(v) then Some(v) else None
    case None => None
  }

  /** `astype(int)` of several cells: all of them, or nothing when one does not convert. */
  function AsInts64(cs: seq<Cell>): (r: Option<seq<int>>)
    ensures r.Some? <==> forall i :: 0 <= i < |cs| ==> AsInt64(cs[i]).Some?
    ensures r.Some? ==> |r.value| == |cs| && forall i :: 0 <= i < |cs| ==> AsInt64(cs[i]) == Some(r.value[i])
  {
    if cs == [] then Some([])
    else match (AsInt64(cs[0]), AsInts64(cs[1..]))
      case (Some(x), Some(rest)) => Some([x] + rest)
      case _ => None
  }

  /** `pd.to_datetime(x, errors="coerce")`: a date stays, anything else becomes `NaT`. */
  function ToDate(c: Cell): Option<Day>
  {
    match c
    case When(d) => Some(d)
    case _ => None
  }

  function Min(a: int, b: int): int
  {
    if a <= b then a else b
  }

  /** `head(n)`. */
  function Head<T>(s: seq<T>, n: nat): seq<T>
  {
    s[..Min(n, |s|)]
  }
}
