/**
 * Per-draw shape statistics of `loto6_app.py`: `count_consecutive` with the
 * histogram of its values, and the table of how often each number appears
 * at each listed position (`get_position_counts`).
 */
module Loto6Positions {
  import opened Counting
  import opened Loto6Draws

  // ---------------------------------------------------------------------------
  // Consecutive numbers

  /** How many neighbouring elements of `s` differ by exactly one. */
  function Adjacent(s: seq<int>): (r: nat)
    ensures |s| <= 1 ==> r == 0
    ensures |s| >= 1 ==> r <= |s| - 1
  {
    if |s| < 2 then 0 else (if s[1] - s[0] == 1 then 1 else 0) + Adjacent(s[1..])
  }

  /** `count_consecutive(row)`: adjacent pairs one apart once the draw is sorted. */
  function CountConsecutive(row: Draw): (r: nat)
    ensures row == [] ==> r == 0
    ensures row != [] ==> r <= |row| - 1
  {
    Adjacent(Sort(row))
  }

  /** The count depends only on which numbers were drawn, not on the order they are listed in. */
  lemma ConsecutiveOrderFree(a: Draw, b: Draw)
    requires multiset(a) == multiset(b)
    ensures CountConsecutive(a) == CountConsecutive(b)
  {
    SortPermutationInvariant(a, b);
  }

  /** How many elements of `s` have their successor in `t`. */
  function SuccIn(s: seq<int>, t: seq<int>): nat
  {
    if s == [] then 0 else (if s[0] + 1 in t then 1 else 0) + SuccIn(s[1..], t)
  }

  /**
   * An order-free reading of `count_consecutive`: for a draw of distinct
   * numbers it is the number of drawn numbers whose successor is drawn too.
   */
  lemma ConsecutiveSuccessors(row: Draw)
    requires Distinct(row)
    ensures CountConsecutive(row) == SuccIn(row, row)
  {
    var s := Sort(row);
    SortDistinct(row);
    AdjacentSucc(s);
    SuccInSame(s, s, row);
    SuccInSort(row, row);
  }

  lemma {:induction false} SuccInInsert(x: int, s: seq<int>, t: seq<int>)
    ensures SuccIn(InsertAsc(x, s), t) == (if x + 1 in t then 1 else 0) + SuccIn(s, t)
  {
    if s != [] && x > s[0] {
      SuccInInsert(x, s[1..], t);
      assert ([s[0]] + InsertAsc(x, s[1..]))[1..] == InsertAsc(x, s[1..]);
    } else {
      assert ([x] + s)[1..] == s;
    }
  }

  lemma {:induction false} SuccInSort(s: seq<int>, t: seq<int>)
    ensures SuccIn(Sort(s), t) == SuccIn(s, t)
  {
    if s != [] {
      SuccInSort(s[1..], t);
      SuccInInsert(s[0], Sort(s[1..]), t);
    }
  }

  lemma {:induction false} SuccInSame(s: seq<int>, t1: seq<int>, t2: seq<int>)
    requires forall i :: 0 <= i < |s| ==> (s[i] + 1 in t1 <==> s[i] + 1 in t2)
    ensures SuccIn(s, t1) == SuccIn(s, t2)
  {
    if s != [] {
      assert s[0] + 1 in t1 <==> s[0] + 1 in t2;
      SuccInSame(s[1..], t1, t2);
    }
  }

  lemma {:induction false} AdjacentSucc(s: seq<int>)
    requires StrictlyAscending(s)
    ensures Adjacent(s) == SuccIn(s, s)
  {
    if s != [] {
      StrictlyAscendingTail(s);
      AdjacentSucc(s[1..]);
      TailSuccessors(s);
      SuccInSame(s[1..], s, s[1..]);
      HeadSuccessor(s);
    }
  }

  /** In a strictly increasing list, an element after the first has its successor in the tail exactly when in the whole. */
  lemma TailSuccessors(s: seq<int>)
    requires StrictlyAscending(s) && s != []
    ensures forall i :: 0 <= i < |s[1..]| ==> (s[1..][i] + 1 in s <==> s[1..][i] + 1 in s[1..])
  {
    assert s == [s[0]] + s[1..];
    forall i | 0 <= i < |s[1..]|
      ensures s[1..][i] + 1 in s <==> s[1..][i] + 1 in s[1..]
    {
      assert s[0] < s[i + 1];
    }
  }

  /** In a strictly increasing list, the successor of the first element is present only as the second. */
  lemma HeadSuccessor(s: seq<int>)
    requires StrictlyAscending(s) && s != []
    ensures s[0] + 1 in s <==> |s| >= 2 && s[1] == s[0] + 1
  {
    if s[0] + 1 in s {
      var j :| 0 <= j < |s| && s[j] == s[0] + 1;
      assert j > 0;
      assert s[1] <= s[j];
    }
  }

  /** `df["連続数"]`: the consecutive count of every draw, in row order. */
  function ConsecutiveValues(h: History): (r: seq<int>)
    ensures |r| == |h| && forall i :: 0 <= i < |h| ==> r[i] == CountConsecutive(h[i])
  {
    if h == [] then [] else [CountConsecutive(h[0])] + ConsecutiveValues(h[1..])
  }

  /** `value_counts().sort_index()`: each value that occurs, in increasing order, with its count. */
  function ConsecutiveHistogram(h: History): seq<Entry<int>>
  {
    var vals := ConsecutiveValues(h);
    CountsAt(Sort(Dedup(vals)), vals)
  }

  /**
   * The histogram lists the values that occur, in strictly increasing order,
   * each with a positive count; every value lies in 0 .. 5 for six-number
   * draws; and the counts add up to the number of draws.
   */
  lemma HistogramTotal(h: History)
    ensures StrictlyAscending(Keys(ConsecutiveHistogram(h)))
    ensures forall i :: 0 <= i < |ConsecutiveHistogram(h)| ==> ConsecutiveHistogram(h)[i].count > 0
    ensures WellFormed(h) ==> forall i :: 0 <= i < |ConsecutiveHistogram(h)| ==> 0 <= ConsecutiveHistogram(h)[i].key <= 5
    ensures SumCounts(ConsecutiveHistogram(h)) == |h|
  {
    var keys := Sort(Dedup(ConsecutiveValues(h)));
    SortDistinct(Dedup(ConsecutiveValues(h)));
    KeysCountsAt(keys, ConsecutiveValues(h));
    HistogramSum(h);
    forall i | 0 <= i < |ConsecutiveHistogram(h)|
      ensures ConsecutiveHistogram(h)[i].count > 0
      ensures WellFormed(h) ==> 0 <= ConsecutiveHistogram(h)[i].key <= 5
    {
      HistogramEntry(h, i);
    }
  }

  lemma HistogramSum(h: History)
    ensures SumCounts(ConsecutiveHistogram(h)) == |h|
  {
    var vals := ConsecutiveValues(h);
    var keys := Sort(Dedup(vals));
    SortDistinct(Dedup(vals));
    DedupMembers(vals);
    forall i | 0 <= i < |vals|
      ensures vals[i] in keys
    {
      assert vals[i] in vals;
    }
    CountsAtTotal(keys, vals);
  }

  /** One entry of the histogram: a value some draw has, with a positive count. */
  lemma HistogramEntry(h: History, i: nat)
    requires i < |ConsecutiveHistogram(h)|
    ensures ConsecutiveHistogram(h)[i].count > 0
    ensures WellFormed(h) ==> 0 <= ConsecutiveHistogram(h)[i].key <= 5
  {
    var vals := ConsecutiveValues(h);
    var keys := Sort(Dedup(vals));
    assert ConsecutiveHistogram(h)[i] == Entry(keys[i], multiset(vals)[keys[i]]);
    assert keys[i] in Dedup(vals);
    var j :| 0 <= j < |vals| && vals[j] == keys[i];
    assert vals[j] == CountConsecutive(h[j]);
    assert |h[j]| == 6 ==> vals[j] <= 5;
  }

  // ---------------------------------------------------------------------------
  // Position table

  /** `df[f"num{k + 1}"]`: the `k`-th listed number of every draw, in row order. */
  function Column(h: History, k: nat): (r: seq<int>)
    requires WellFormed(h) && k < 6
    ensures |r| == |h| && forall i :: 0 <= i < |h| ==> r[i] == h[i][k]
  {
    if h == [] then [] else [h[0][k]] + Column(h[1..], k)
  }

  /** Every number drawn, once each, in increasing order: the rows of the table. */
  function PositionIndex(h: History): seq<int>
  {
    Sort(Dedup(AllNumbers(h)))
  }

  /**
   * The position table, one column per listed position: for each number of
   * the index, how many draws list it at that position, zero when none does.
   */
  function PositionTable(h: History): (r: seq<seq<Entry<int>>>)
    requires WellFormed(h)
    ensures |r| == 6
  {
    seq(6, k requires 0 <= k < 6 => CountsAt(PositionIndex(h), Column(h, k)))
  }

  lemma {:induction false} InAllNumbers(h: History, i: nat, k: nat)
    requires i < |h| && k < |h[i]|
    ensures h[i][k] in AllNumbers(h)
  {
    if i > 0 {
      InAllNumbers(h[1..], i - 1, k);
    }
  }

  /**
   * The index is strictly increasing and holds exactly the numbers drawn,
   * and each column of the table accounts for every draw once.
   */
  lemma PositionColumnTotals(h: History)
    requires WellFormed(h)
    ensures StrictlyAscending(PositionIndex(h))
    ensures forall n :: n in PositionIndex(h) <==> n in AllNumbers(h)
    ensures forall k :: 0 <= k < 6 ==> SumCounts(PositionTable(h)[k]) == |h|
  {
    var idx := PositionIndex(h);
    SortDistinct(Dedup(AllNumbers(h)));
    DedupMembers(AllNumbers(h));
    forall k | 0 <= k < 6
      ensures SumCounts(PositionTable(h)[k]) == |h|
    {
      var col := Column(h, k);
      forall i | 0 <= i < |col|
        ensures col[i] in idx
      {
        InAllNumbers(h, i, k);
      }
      CountsAtTotal(idx, col);
    }
  }

  /** How often `n` is listed at any of the first `k` positions. */
  function AcrossColumns(h: History, n: int, k: nat): nat
    requires WellFormed(h) && k <= 6
  {
    if k == 0 then 0 else AcrossColumns(h, n, k - 1) + multiset(Column(h, k - 1))[n]
  }

  /**
   * The table's row for a number adds up to that number's frequency: the
   * six positions together see every occurrence of it once.
   */
  lemma {:induction false} PositionRowTotals(h: History, n: int)
    requires WellFormed(h)
    ensures AcrossColumns(h, n, 6) == multiset(AllNumbers(h))[n]
  {
    if h == [] {
      AcrossColumnsEmpty(h, n, 6);
    } else {
      var d, t := h[0], h[1..];
      assert WellFormed(t) by {
        forall i | 0 <= i < |t|
          ensures |t[i]| == 6
        {
          assert t[i] == h[i + 1];
        }
      }
      AcrossColumnsCons(h, n, 6);
      PositionRowTotals(t, n);
      assert d[..6] == d;
    }
  }

  lemma {:induction false} AcrossColumnsEmpty(h: History, n: int, k: nat)
    requires h == [] && k <= 6
    ensures AcrossColumns(h, n, k) == 0
  {
    if k > 0 {
      AcrossColumnsEmpty(h, n, k - 1);
    }
  }

  lemma {:induction false} AcrossColumnsCons(h: History, n: int, k: nat)
    requires WellFormed(h) && h != [] && k <= 6
    requires WellFormed(h[1..])
    ensures AcrossColumns(h, n, k) == multiset(h[0][..k])[n] + AcrossColumns(h[1..], n, k)
  {
    if k > 0 {
      var d := h[0];
      AcrossColumnsCons(h, n, k - 1);
      ColumnCons(h, k - 1, n);
      PrefixSnoc(d, k, n);
    }
  }

  lemma ColumnCons(h: History, k: nat, n: int)
    requires WellFormed(h) && h != [] && k < 6
    requires WellFormed(h[1..])
    ensures multiset(Column(h, k))[n] == (if h[0][k] == n then 1 else 0) + multiset(Column(h[1..], k))[n]
  {
    assert Column(h, k) == [h[0][k]] + Column(h[1..], k);
  }

  lemma PrefixSnoc(d: seq<int>, k: nat, n: int)
    requires 0 < k <= |d|
    ensures multiset(d[..k])[n] == multiset(d[..k - 1])[n] + if d[k - 1] == n then 1 else 0
  {
    assert d[..k] == d[..k - 1] + [d[k - 1]];
  }

  // ---------------------------------------------------------------------------
  // The table as the code builds it

  /**
   * The table as `get_position_counts` builds it: the first assignment into
   * the empty frame fixes the index to the numbers seen at position 1, and
   * each later column is aligned to that index, so numbers never listed
   * first are dropped from every column.
   */
  function PositionTableAsWritten(h: History): (r: seq<seq<Entry<int>>>)
    requires WellFormed(h)
    ensures |r| == 6
  {
    var idx := Sort(Dedup(Column(h, 0)));
    seq(6, k requires 0 <= k < 6 => CountsAt(idx, Column(h, k)))
  }

  /** Only the first column of the table as built is complete. */
  lemma PositionFirstColumnAsWritten(h: History)
    requires WellFormed(h)
    ensures SumCounts(PositionTableAsWritten(h)[0]) == |h|
  {
    var col := Column(h, 0);
    var idx := Sort(Dedup(col));
    SortDistinct(Dedup(col));
    DedupMembers(col);
    forall i | 0 <= i < |col|
      ensures col[i] in idx
    {
      assert col[i] in col;
    }
    CountsAtTotal(idx, col);
  }

  /** One draw 1 2 3 4 5 6: the table as built has nothing in its sixth column. */
  lemma PositionTableAsWrittenLosesRows()
    ensures SumCounts(PositionTableAsWritten([[1, 2, 3, 4, 5, 6]])[5]) == 0
    ensures SumCounts(PositionTable([[1, 2, 3, 4, 5, 6]])[5]) == 1
  {
    var h: History := [[1, 2, 3, 4, 5, 6]];
    assert Column(h, 0) == [1];
    assert Column(h, 5) == [6];
    assert Dedup([1]) == [1];
    assert Sort([1]) == [1];
    assert multiset([6])[1] == 0;
    PositionColumnTotals(h);
  }
}
