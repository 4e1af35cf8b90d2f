/**
 * The draw history of `loto6_app.py` and the statistics computed from it as
 * plain expressions: the parsing of each `本数字` string into six integers,
 * the frequency table, the numbers that never appeared and the odd/even
 * tallies.
 */
module Loto6Draws {
  import opened Wrappers
  import opened Text
  import opened Counting

  /** The numbers of one draw, in the order the draw string lists them. */
  type Draw = seq<int>

  /** Draws as the CSV lists them, newest first. */
  type History = seq<Draw>

  /** The smallest and largest number a ball can carry. */
  const MinBall := 1
  const MaxBall := 43

  /** A number the lottery can draw. */
  predicate IsBall(n: int)
  {
    MinBall <= n <= MaxBall
  }

  /** `range(1, 44)`: the numbers 1 .. 43 in increasing order. */
  function AllBalls(): (r: seq<int>)
    ensures |r| == MaxBall - MinBall + 1 && forall i :: 0 <= i < |r| ==> r[i] == MinBall + i
  {
    seq(MaxBall - MinBall + 1, i => MinBall + i)
  }

  /** The list holds every ball once, in increasing order. */
  lemma AllBallsMembers(n: int)
    requires IsBall(n)
    ensures StrictlyAscending(AllBalls()) && Distinct(AllBalls()) && n in AllBalls()
  {
    assert AllBalls()[n - MinBall] == n;
  }

  /** Every draw has the six numbers the history is read with. */
  predicate WellFormed(h: History)
  {
    forall i :: 0 <= i < |h| ==> |h[i]| == 6
  }

  // ---------------------------------------------------------------------------
  // Parsing the draw strings

  /**
   * Why a draw string could not become six integers: the wrong number of
   * fields, a field `int()` rejects (`ValueError`), or a value outside
   * `int64` (`OverflowError`).
   */
  datatype ParseError = WrongFieldCount(fields: nat) | NotAnInteger | OutOfRange

  /** `int(t)` for each of the tokens; `None` when one of them is not an integer. */
  function ParseInts(ts: seq<string>): (r: Option<seq<int>>)
    ensures r.Some? ==> |r.value| == |ts|
  {
    if ts == [] then Some([])
    else
      var x := ParseInt(ts[0]);
      var rest := ParseInts(ts[1..]);
      if x.Some? && rest.Some? then Some([x.value] + rest.value) else None
  }

  /** The tokens convert exactly when each of them does, and then to their values in order. */
  lemma ParseIntsSpec(ts: seq<string>)
    ensures ParseInts(ts).Some? <==> forall i :: 0 <= i < |ts| ==> ParseInt(ts[i]).Some?
    ensures ParseInts(ts).Some? ==> forall i :: 0 <= i < |ts| ==> ParseInt(ts[i]) == Some(ParseInts(ts).value[i])
  {
    if ParseInts(ts).Some? {
      forall i | 0 <= i < |ts| ensures ParseInt(ts[i]) == Some(ParseInts(ts).value[i]) {
        ParseIntsAt(ts, i);
      }
    } else {
      var i := ParseIntsFailure(ts);
    }
  }

  /** The value at position `i` is what `int()` makes of the `i`-th token. */
  lemma {:induction false} ParseIntsAt(ts: seq<string>, i: nat)
    requires ParseInts(ts).Some? && i < |ts|
    ensures ParseInt(ts[i]) == Some(ParseInts(ts).value[i])
  {
    var tail := ts[1..];
    if i > 0 {
      ParseIntsAt(tail, i - 1);
      assert ts[i] == tail[i - 1];
    }
  }

  /** When the tokens do not convert, some token is not an integer. */
  lemma {:induction false} ParseIntsFailure(ts: seq<string>) returns (i: nat)
    requires ParseInts(ts).None?
    ensures i < |ts| && ParseInt(ts[i]).None?
  {
    var tail := ts[1..];
    if ParseInt(ts[0]).Some? {
      var j := ParseIntsFailure(tail);
      i := j + 1;
      assert ts[i] == tail[j];
    } else {
      i := 0;
    }
  }

  /**
   * One row of `df["本数字"].str.split(" ", expand=True).astype(int)`: the
   * string is cut at every single space; the row must give exactly the six
   * `num1` .. `num6` columns, and `astype(int)` reads each field with
   * `int()` into an `int64`.
   */
  function ParseDraw(s: string): (r: Result<Draw, ParseError>)
    ensures r.Ok? ==> |r.value| == 6
  {
    var fields := SplitOn(s, ' ');
    if |fields| != 6 then Err(WrongFieldCount(|fields|))
    else match ParseInts(fields)
      case None => Err(NotAnInteger)
      case Some(d) => if forall i :: 0 <= i < 6 ==> InInt64(d[i]) then Ok(d) else Err(OutOfRange)
  }

  /**
   * A draw string parses exactly when it has six single-space fields that
   * `int()` reads and whose values fit in `int64`; the draw is those values
   * in field order.
   */
  lemma ParseDrawSpec(s: string)
    ensures ParseDraw(s).Ok? <==> (|SplitOn(s, ' ')| == 6 &&
      forall i :: 0 <= i < 6 ==> ParseInt(SplitOn(s, ' ')[i]).Some? && InInt64(ParseInt(SplitOn(s, ' ')[i]).value))
    ensures ParseDraw(s).Ok? ==> forall i :: 0 <= i < 6 ==> ParseInt(SplitOn(s, ' ')[i]) == Some(ParseDraw(s).value[i])
  {
    ParseIntsSpec(SplitOn(s, ' '));
  }

  /**
   * Why the column could not be read: it has no rows, so the split yields
   * no columns to assign to `num1` .. `num6` (pandas raises `ValueError`),
   * or the row at this index does not parse.
   */
  datatype ColumnError = NoRows | BadRow(index: nat)

  /**
   * The whole column: the history when there are rows and every one of
   * them parses; otherwise the app stops at line 45.
   */
  function ParseHistory(rows: seq<string>): (r: Result<History, ColumnError>)
    ensures r == Err(NoRows) <==> rows == []
    ensures r.Ok? ==> |r.value| == |rows| > 0 && forall i :: 0 <= i < |rows| ==> ParseDraw(rows[i]) == Ok(r.value[i])
    ensures r.Ok? ==> WellFormed(r.value)
    ensures r.Err? && r.error.BadRow? ==>
      r.error.index < |rows| && ParseDraw(rows[r.error.index]).Err? &&
      forall i :: 0 <= i < r.error.index ==> ParseDraw(rows[i]).Ok?
  {
    if rows == [] then Err(NoRows)
    else
      ParseRowsSpec(rows);
      match ParseRows(rows)
      case Ok(h) => Ok(h)
      case Err(k) => Err(BadRow(k))
  }

  /** The rows one by one: the draws, or the index of the first row that does not parse. */
  function ParseRows(rows: seq<string>): (r: Result<History, nat>)
    ensures r.Ok? ==> |r.value| == |rows|
    ensures r.Err? ==> r.error < |rows|
  {
    if rows == [] then Ok([])
    else
      var head := ParseDraw(rows[0]);
      if head.Err? then Err(0)
      else match ParseRows(rows[1..])
        case Err(k) => Err(k + 1)
        case Ok(rest) => Ok([head.value] + rest)
  }

  /** Each draw is its row parsed, and a failure is the first row that does not parse. */
  lemma ParseRowsSpec(rows: seq<string>)
    ensures ParseRows(rows).Ok? ==>
      WellFormed(ParseRows(rows).value) &&
      forall i :: 0 <= i < |rows| ==> ParseDraw(rows[i]) == Ok(ParseRows(rows).value[i])
    ensures ParseRows(rows).Err? ==>
      ParseDraw(rows[ParseRows(rows).error]).Err? &&
      forall i :: 0 <= i < ParseRows(rows).error ==> ParseDraw(rows[i]).Ok?
  {
    if ParseRows(rows).Ok? {
      forall i | 0 <= i < |rows| ensures ParseDraw(rows[i]) == Ok(ParseRows(rows).value[i]) {
        ParseRowsAt(rows, i);
      }
    } else {
      forall i | 0 <= i <= ParseRows(rows).error
        ensures ParseDraw(rows[i]).Ok? <==> i < ParseRows(rows).error
      {
        ParseRowsBefore(rows, i);
      }
    }
  }

  lemma {:induction false} ParseRowsAt(rows: seq<string>, i: nat)
    requires ParseRows(rows).Ok? && i < |rows|
    ensures ParseDraw(rows[i]) == Ok(ParseRows(rows).value[i])
  {
    var tail := rows[1..];
    if i > 0 {
      ParseRowsAt(tail, i - 1);
      assert rows[i] == tail[i - 1];
    }
  }

  lemma {:induction false} ParseRowsBefore(rows: seq<string>, i: nat)
    requires ParseRows(rows).Err? && i <= ParseRows(rows).error
    ensures ParseDraw(rows[i]).Ok? <==> i < ParseRows(rows).error
  {
    var tail := rows[1..];
    if i > 0 {
      ParseRowsBefore(tail, i - 1);
      assert rows[i] == tail[i - 1];
    }
  }

  /** `list(map(int, s.split()))`, the parsing used by the later loops of the app. */
  function ParseWords(s: string): Option<Draw>
  {
    ParseInts(SplitWhitespace(s))
  }

  /** `str` of each number. */
  function Renderings(d: Draw): (r: seq<string>)
    ensures |r| == |d| && forall i :: 0 <= i < |d| ==> r[i] == IntToString(d[i])
  {
    if d == [] then [] else [IntToString(d[0])] + Renderings(d[1..])
  }

  /** The `本数字` format: the decimal renderings joined by single spaces. */
  function DrawString(d: Draw): string
  {
    Join(Renderings(d), ' ')
  }

  /**
   * The format and the parser fit together: the string written for six
   * numbers reads back by the whitespace split as those six numbers in the
   * same order, and by the single-space split and `astype(int)` as well
   * exactly when all six fit in `int64`.
   */
  lemma DrawStringRoundTrip(d: Draw)
    requires |d| == 6
    ensures ParseWords(DrawString(d)) == Some(d)
    ensures ParseDraw(DrawString(d)).Ok? <==> forall i :: 0 <= i < 6 ==> InInt64(d[i])
    ensures ParseDraw(DrawString(d)).Ok? ==> ParseDraw(DrawString(d)) == Ok(d)
  {
    var ts := Renderings(d);
    RenderingsRead(d);
    SplitWhitespaceJoin(ts);
    ParseIntsExact(ts, d);
    ParseDrawFields(DrawString(d), d);
  }

  /** Each rendering is a token that `int()` reads back as its number. */
  lemma RenderingsRead(d: Draw)
    ensures forall i :: 0 <= i < |d| ==>
      ParseInt(Renderings(d)[i]) == Some(d[i]) && Renderings(d)[i] != "" && NoSpace(Renderings(d)[i])
  {
    forall i | 0 <= i < |d|
      ensures ParseInt(Renderings(d)[i]) == Some(d[i]) && Renderings(d)[i] != "" && NoSpace(Renderings(d)[i])
    {
      IntRoundTrip(d[i]);
    }
  }

  /** When the six fields read as `d`, the draw parses exactly when all of `d` fits in `int64`, and then as `d`. */
  lemma ParseDrawFields(s: string, d: Draw)
    requires |d| == 6 && |SplitOn(s, ' ')| == 6
    requires forall i :: 0 <= i < 6 ==> ParseInt(SplitOn(s, ' ')[i]) == Some(d[i])
    ensures ParseDraw(s).Ok? <==> forall i :: 0 <= i < 6 ==> InInt64(d[i])
    ensures ParseDraw(s).Ok? ==> ParseDraw(s) == Ok(d)
  {
    ParseIntsExact(SplitOn(s, ' '), d);
  }

  lemma {:induction false} ParseIntsExact(ts: seq<string>, d: seq<int>)
    requires |ts| == |d| && forall i :: 0 <= i < |ts| ==> ParseInt(ts[i]) == Some(d[i])
    ensures ParseInts(ts) == Some(d)
  {
    if ts != [] {
      ParseIntsExact(ts[1..], d[1..]);
      assert [d[0]] + d[1..] == d;
    }
  }

  /**
   * A string that passes the single-space parse of line 45 reads the same
   * under the whitespace split of the later loops, so all of them see the
   * same draw: each field is a number with only white space around it,
   * which `split()` cuts away as `int()` skips it.
   */
  lemma ParseDrawWords(s: string)
    requires ParseDraw(s).Ok?
    ensures ParseWords(s) == Some(ParseDraw(s).value)
  {
    ParseDrawSpec(s);
    var fields := SplitOn(s, ' ');
    var cores := Trims(fields);
    forall i | 0 <= i < |fields|
      ensures Trim(fields[i]) != [] && NoSpace(Trim(fields[i])) && ParseInt(cores[i]) == ParseInt(fields[i])
    {
      var _ := ParseIntCore(fields[i]);
    }
    JoinSplit(s, ' ');
    SplitWhitespaceJoinTrimmed(fields);
    ParseIntsExact(cores, ParseDraw(s).value);
  }

  // ---------------------------------------------------------------------------
  // Frequency

  /** `df[number_cols].values.ravel()`: row by row, each row's numbers in column order. */
  function AllNumbers(h: History): (r: seq<int>)
    ensures WellFormed(h) ==> |r| == 6 * |h|
  {
    if h == [] then [] else h[0] + AllNumbers(h[1..])
  }

  /** Adding a draw at the end adds its numbers at the end. */
  lemma {:induction false} AllNumbersSnoc(h: History, d: Draw)
    ensures AllNumbers(h + [d]) == AllNumbers(h) + d
  {
    if h == [] {
      assert [d][1..] == [];
    } else {
      assert (h + [d])[1..] == h[1..] + [d];
      AllNumbersSnoc(h[1..], d);
    }
  }

  /**
   * `all_numbers.value_counts().sort_values(ascending=False)`: each number
   * seen with how often, most frequent first. pandas does not fix the order
   * of equal counts; this model keeps them in order of first appearance.
   */
  function Frequency(h: History): seq<Entry<int>>
  {
    Ranking(AllNumbers(h))
  }

  /**
   * The frequency table lists each number that occurs, once, with its
   * positive number of occurrences, most frequent first; the counts add up
   * to six per draw.
   */
  lemma FrequencyTable(h: History)
    requires WellFormed(h)
    ensures forall i :: 0 <= i < |Frequency(h)| ==>
      Frequency(h)[i].count == multiset(AllNumbers(h))[Frequency(h)[i].key] > 0
    ensures Distinct(Keys(Frequency(h)))
    ensures forall n :: n in Keys(Frequency(h)) <==> n in AllNumbers(h)
    ensures NonIncreasing(Frequency(h), CountOf)
    ensures SumCounts(Frequency(h)) == 6 * |h|
  {
    RankingTable(AllNumbers(h));
  }

  // ---------------------------------------------------------------------------
  // Numbers that never appeared

  /** The numbers of `lo .. hi - 1`, in increasing order, that are not in `seen`. */
  function RangeWithout(lo: int, hi: int, seen: seq<int>): (r: seq<int>)
    ensures forall i :: 0 <= i < |r| ==> lo <= r[i] < hi && r[i] !in seen
    ensures forall n :: lo <= n < hi && n !in seen ==> n in r
    ensures StrictlyAscending(r)
    decreases hi - lo
  {
    if lo >= hi then []
    else if lo in seen then RangeWithout(lo + 1, hi, seen)
    else
      var rest := RangeWithout(lo + 1, hi, seen);
      ConsStrictlyAscending(lo, rest);
      [lo] + rest
  }

  /** `sorted(set(range(1, 44)) - set(freq.index))`. */
  function Unused(h: History): seq<int>
  {
    RangeWithout(MinBall, MaxBall + 1, Keys(Frequency(h)))
  }

  /**
   * The unused numbers are in strictly increasing order and are exactly the
   * numbers 1 .. 43 missing from the frequency table; when every drawn
   * number is a valid ball, the two lists together cover exactly 1 .. 43.
   */
  lemma UnusedPartition(h: History)
    requires WellFormed(h)
    ensures StrictlyAscending(Unused(h))
    ensures forall n :: n in Unused(h) <==> MinBall <= n <= MaxBall && n !in Keys(Frequency(h))
    ensures (forall i :: 0 <= i < |AllNumbers(h)| ==> MinBall <= AllNumbers(h)[i] <= MaxBall) ==>
      forall n :: n in Unused(h) || n in Keys(Frequency(h)) <==> MinBall <= n <= MaxBall
  {
    FrequencyTable(h);
  }

  // ---------------------------------------------------------------------------
  // Odd and even

  /**
   * How many numbers are odd: `n % 2 == 1`. Python's `%` with divisor 2
   * gives 0 or 1 for every integer, as Dafny's does.
   */
  function OddCount(s: seq<int>): nat
  {
    if s == [] then 0 else (if s[0] % 2 == 1 then 1 else 0) + OddCount(s[1..])
  }

  function EvenCount(s: seq<int>): nat
  {
    if s == [] then 0 else (if s[0] % 2 == 0 then 1 else 0) + EvenCount(s[1..])
  }

  /** Every number is odd or even and not both, so the two tallies add up to the count of numbers. */
  lemma {:induction false} ParityPartition(s: seq<int>)
    ensures OddCount(s) + EvenCount(s) == |s|
  {
    if s != [] {
      ParityPartition(s[1..]);
    }
  }

  /** The odd and even tallies of the history add up to six per draw, the frequency table's total. */
  lemma ParityTotals(h: History)
    requires WellFormed(h)
    ensures OddCount(AllNumbers(h)) + EvenCount(AllNumbers(h)) == 6 * |h| == SumCounts(Frequency(h))
  {
    ParityPartition(AllNumbers(h));
    FrequencyTable(h);
  }
}
