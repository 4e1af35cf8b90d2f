/**
 * Calendar dates as the scripts receive them from pandas (already parsed),
 * the `strftime` renderings `%Y-%m` and `%Y-%m-%d`, and month arithmetic
 * (`pd.DateOffset(months=i)` applied to the first day of a month).
 */
module Calendar {
  import opened Text

  datatype Date = Date(year: int, month: int, day: int)

  predicate IsLeapYear(y: int)
  {
    y % 4 == 0 && (y % 100 != 0 || y % 400 == 0)
  }

  function DaysInMonth(y: int, m: int): int
  {
    if m == 2 then (if IsLeapYear(y) then 29 else 28)
    else if m == 4 || m == 6 || m == 9 || m == 11 then 30
    else 31
  }

  /** A date pandas can hold; its year always has four digits. */
  predicate ValidDate(d: Date)
  {
    1000 <= d.year <= 9999 && 1 <= d.month <= 12 && 1 <= d.day <= DaysInMonth(d.year, d.month)
  }

  datatype YearMonth = YearMonth(year: int, month: int)

  predicate ValidMonth(ym: YearMonth)
  {
    1000 <= ym.year <= 9999 && 1 <= ym.month <= 12
  }

  function MonthOf(d: Date): YearMonth
  {
    YearMonth(d.year, d.month)
  }

  /** Months counted from January of year 0: consecutive months have consecutive indices. */
  function MonthIndex(ym: YearMonth): int
  {
    ym.year * 12 + ym.month - 1
  }

  function MonthAt(k: nat): (ym: YearMonth)
    ensures MonthIndex(ym) == k && 1 <= ym.month <= 12
    ensures 12000 <= k < 120000 ==> ValidMonth(ym)
  {
    YearMonth(k / 12, k % 12 + 1)
  }

  /** The month before `ym`: December of the previous year before January. */
  function PrevMonth(ym: YearMonth): YearMonth
  {
    if ym.month == 1 then YearMonth(ym.year - 1, 12) else YearMonth(ym.year, ym.month - 1)
  }

  /** `first_of_month - pd.DateOffset(months=i)`, as a month. */
  function MonthsBack(ym: YearMonth, i: nat): YearMonth
    requires ValidMonth(ym) && i <= MonthIndex(ym)
  {
    MonthAt(MonthIndex(ym) - i)
  }

  /**
   * Going back `i + 1` months is going back `i` months and then one more,
   * wrapping from January to December of the previous year; going back 0
   * months stays put.
   */
  lemma MonthsBackStep(ym: YearMonth, i: nat)
    requires ValidMonth(ym) && i + 1 <= MonthIndex(ym)
    ensures MonthsBack(ym, 0) == ym
    ensures MonthsBack(ym, i + 1) == PrevMonth(MonthsBack(ym, i))
  {
    var k := MonthIndex(ym) - i;
    var a := MonthAt(k);
    var b := MonthAt(k - 1);
    assert MonthIndex(PrevMonth(a)) == k - 1;
    MonthIndexInjective(b, PrevMonth(a));
    MonthIndexInjective(MonthAt(MonthIndex(ym)), ym);
  }

  lemma MonthIndexInjective(a: YearMonth, b: YearMonth)
    requires 1 <= a.month <= 12 && 1 <= b.month <= 12
    requires MonthIndex(a) == MonthIndex(b)
    ensures a == b
  {
    assert a.year == b.year by {
      assert a.year < b.year ==> MonthIndex(a) < MonthIndex(b);
      assert b.year < a.year ==> MonthIndex(b) < MonthIndex(a);
    }
  }

  /** `strftime("%Y-%m")`. */
  function MonthLabel(ym: YearMonth): string
    requires ValidMonth(ym)
  {
    Pad(ym.year, 4) + "-" + Pad(ym.month, 2)
  }

  /** `strftime("%Y-%m-%d")`. */
  function DateLabel(d: Date): string
    requires ValidDate(d)
  {
    MonthLabel(MonthOf(d)) + "-" + Pad(d.day, 2)
  }

  /** `YYYY-MM` labels compare as strings exactly as the months compare in time. */
  lemma MonthLabelOrder(a: YearMonth, b: YearMonth)
    requires ValidMonth(a) && ValidMonth(b)
    ensures LexLess(MonthLabel(a), MonthLabel(b)) <==> MonthIndex(a) < MonthIndex(b)
    ensures MonthLabel(a) == MonthLabel(b) <==> a == b
  {
    PadOrder(a.year, b.year, 4);
    PadOrder(a.month, b.month, 2);
    var ya, yb := Pad(a.year, 4) + "-", Pad(b.year, 4) + "-";
    LexLessAppend(Pad(a.year, 4), Pad(b.year, 4), "-", "-");
    LexLessIrreflexive("-");
    LexLessAppend(ya, yb, Pad(a.month, 2), Pad(b.month, 2));
    if ya == yb {
      assert Pad(a.year, 4) == ya[..4] && Pad(b.year, 4) == yb[..4];
    }
    if MonthLabel(a) == MonthLabel(b) {
      assert ya == MonthLabel(a)[..5] && yb == MonthLabel(b)[..5];
      assert Pad(a.month, 2) == MonthLabel(a)[5..] && Pad(b.month, 2) == MonthLabel(b)[5..];
    }
  }

  /** An integer that orders valid dates chronologically. */
  function DateKey(d: Date): int
  {
    d.year * 10000 + d.month * 100 + d.day
  }

  /** Chronological order: by year, then month, then day. */
  predicate Before(a: Date, b: Date)
  {
    a.year < b.year || (a.year == b.year && (a.month < b.month || (a.month == b.month && a.day < b.day)))
  }

  lemma DateKeyOrder(a: Date, b: Date)
    requires ValidDate(a) && ValidDate(b)
    ensures DateKey(a) < DateKey(b) <==> Before(a, b)
    ensures DateKey(a) == DateKey(b) <==> a == b
  {
  }
}
