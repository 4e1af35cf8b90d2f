/**
 * The twelve `YYYY-MM` labels offered by the report picker of
 * `loto6_app.py`: the current month and the eleven months before it,
 * newest first, then sorted in reverse string order.
 */
module Loto6Months {
  import opened Text
  import opened Calendar

  /**
   * The picker's labels for a current month `m`: label `i` is `m` moved
   * back `i` months.
   */
  function Labels(m: YearMonth): (r: seq<string>)
    requires ValidMonth(m) && m.year >= 1001
    ensures |r| == 12
  {
    seq(12, i requires 0 <= i < 12 => MonthLabel(MonthsBack(m, i)))
  }

  /**
   * Builds the label list as the script does: the first day of the current
   * month, then `i = 1 .. 11` months before it. pandas only represents
   * timestamps between 1677 and 2262, which bounds `today`.
   */
  method MonthLabels(today: Date) returns (r: seq<string>)
    requires ValidDate(today) && 1678 <= today.year <= 2261
    ensures r == Labels(MonthOf(today))
  {
    var m := MonthOf(today);
    MonthIndexInjective(MonthAt(MonthIndex(m)), m);
    r := [MonthLabel(m)];
    var i := 1;
    while i < 12
      invariant 1 <= i <= 12
      invariant r == Labels(m)[..i]
    {
      r := r + [MonthLabel(MonthsBack(m, i))];
      i := i + 1;
    }
  }

  /**
   * The first label is the current month and each later label is exactly
   * one calendar month before the previous one (December of the previous
   * year after January).
   */
  lemma LabelsStepBack(m: YearMonth)
    requires ValidMonth(m) && m.year >= 1001
    ensures Labels(m)[0] == MonthLabel(m)
    ensures forall i :: 0 <= i < 11 ==> Labels(m)[i + 1] == MonthLabel(PrevMonth(MonthsBack(m, i)))
  {
    MonthsBackStep(m, 0);
    forall i | 0 <= i < 11
      ensures Labels(m)[i + 1] == MonthLabel(PrevMonth(MonthsBack(m, i)))
    {
      MonthsBackStep(m, i);
    }
  }

  /**
   * The labels are in strictly descending string order, which is also
   * strictly descending chronological order; in particular they are twelve
   * different labels.
   */
  lemma {:induction false} LabelsDescending(m: YearMonth)
    requires ValidMonth(m) && m.year >= 1001
    ensures StrictlyDescending(Labels(m))
    ensures forall i, j :: 0 <= i < j < 12 ==> Labels(m)[i] != Labels(m)[j]
  {
    var r := Labels(m);
    forall i, j | 0 <= i < j < 12
      ensures LexLess(r[j], r[i]) && r[i] != r[j]
    {
      MonthLabelOrder(MonthsBack(m, j), MonthsBack(m, i));
      LexLessIrreflexive(r[i]);
    }
  }

  predicate StrictlyDescending(s: seq<string>)
  {
    forall i, j :: 0 <= i < j < |s| ==> LexLess(s[j], s[i])
  }

  /** `x` placed before the first element that is not larger than it. */
  function InsertStringDesc(x: string, s: seq<string>): (r: seq<string>)
    ensures |r| == |s| + 1
  {
    if s == [] || !LexLess(x, s[0]) then [x] + s else [s[0]] + InsertStringDesc(x, s[1..])
  }

  /** `sorted(s, reverse=True)` on strings, as an insertion sort. */
  function SortStringsDesc(s: seq<string>): (r: seq<string>)
    ensures |r| == |s|
  {
    if s == [] then [] else InsertStringDesc(s[0], SortStringsDesc(s[1..]))
  }

  /** Sorting a list that is already strictly descending leaves it as it is. */
  lemma {:induction false} SortStringsDescIdentity(s: seq<string>)
    requires StrictlyDescending(s)
    ensures SortStringsDesc(s) == s
  {
    if s != [] {
      assert StrictlyDescending(s[1..]) by {
        forall i, j | 0 <= i < j < |s[1..]|
          ensures LexLess(s[1..][j], s[1..][i])
        {
          assert s[1..][i] == s[i + 1] && s[1..][j] == s[j + 1];
        }
      }
      SortStringsDescIdentity(s[1..]);
      if |s| > 1 {
        assert LexLess(s[1], s[0]);
        LexLessAsymmetric(s[1], s[0]);
      }
      assert s == [s[0]] + s[1..];
    }
  }

  /**
   * The order of the picker: sorting the labels in reverse order does not
   * move any of them, so the picker shows the current month first and then
   * each earlier month in turn.
   */
  lemma PickerOrder(m: YearMonth)
    requires ValidMonth(m) && m.year >= 1001
    ensures SortStringsDesc(Labels(m)) == Labels(m)
  {
    LabelsDescending(m);
    SortStringsDescIdentity(Labels(m));
  }
}
