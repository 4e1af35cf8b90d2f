/**
 * The running totals of `loto6_app.py`: walking the draws in file order,
 * each number 1 .. 43 keeps how many draws so far contained it, and
 * records that total after every draw.
 */
module Loto6Cumulative {
  import opened Counting
  import opened Loto6Draws

  /** How many of the draws contain `n` (a draw counts once however often it lists `n`). */
  function RowsContaining(h: History, n: int): (r: nat)
    ensures r <= |h|
  {
    if h == [] then 0 else RowsContaining(h[..|h| - 1], n) + if n in h[|h| - 1] then 1 else 0
  }

  /** The series plotted for `n`: its total after each draw. */
  function Running(h: History, n: int): (r: seq<nat>)
    ensures |r| == |h|
  {
    seq(|h|, j requires 0 <= j < |h| => RowsContaining(h[..j + 1], n))
  }

  lemma RunningSnoc(h: History, r: nat, n: int)
    requires r < |h|
    ensures RowsContaining(h[..r + 1], n) == RowsContaining(h[..r], n) + if n in h[r] then 1 else 0
    ensures Running(h[..r + 1], n) == Running(h[..r], n) + [RowsContaining(h[..r + 1], n)]
  {
    assert h[..r + 1][..r] == h[..r];
    assert h[..r + 1][..r + 1] == h[..r + 1];
    var a, b := Running(h[..r + 1], n), Running(h[..r], n);
    forall j | 0 <= j < r
      ensures a[j] == b[j]
    {
      assert h[..r + 1][..j + 1] == h[..r][..j + 1];
    }
  }

  /**
   * The loop over the rows: every row moves each number's total and
   * series one step on.
   */
  method CumulativeCounts(h: History) returns (numberCounts: map<int, seq<nat>>, cumulative: map<int, nat>)
    ensures forall n :: n in numberCounts <==> IsBall(n)
    ensures forall n :: n in cumulative <==> IsBall(n)
    ensures forall n :: IsBall(n) ==> numberCounts[n] == Running(h, n) && cumulative[n] == RowsContaining(h, n)
  {
    numberCounts := map n | MinBall <= n <= MaxBall && IsBall(n) :: [];
    cumulative := map n | MinBall <= n <= MaxBall && IsBall(n) :: 0;
    var r := 0;
    while r < |h|
      invariant 0 <= r <= |h|
      invariant forall n :: n in numberCounts <==> IsBall(n)
      invariant forall n :: n in cumulative <==> IsBall(n)
      invariant forall n :: IsBall(n) ==>
        numberCounts[n] == Running(h[..r], n) && cumulative[n] == RowsContaining(h[..r], n)
    {
      var nc, cu := AddRow(h[r], numberCounts, cumulative);
      forall n | IsBall(n)
        ensures nc[n] == Running(h[..r + 1], n) && cu[n] == RowsContaining(h[..r + 1], n)
      {
        RunningSnoc(h, r, n);
      }
      numberCounts, cumulative := nc, cu;
      r := r + 1;
    }
    assert h[..|h|] == h;
  }

  /**
   * The inner loop over the numbers 1 .. 43 for one row: a number's total
   * goes up by one when the row contains it, and every number appends its
   * total to its series.
   */
  method AddRow(numbers: Draw, numberCounts: map<int, seq<nat>>, cumulative: map<int, nat>)
    returns (nc: map<int, seq<nat>>, cu: map<int, nat>)
    requires forall n :: IsBall(n) ==> n in numberCounts && n in cumulative
    ensures forall n :: n in nc <==> n in numberCounts
    ensures forall n :: n in cu <==> n in cumulative
    ensures forall n :: IsBall(n) ==>
      cu[n] == cumulative[n] + (if n in numbers then 1 else 0) && nc[n] == numberCounts[n] + [cu[n]]
  {
    nc, cu := numberCounts, cumulative;
    var i := MinBall;
    while i <= MaxBall
      invariant MinBall <= i <= MaxBall + 1
      invariant forall n :: n in nc <==> n in numberCounts
      invariant forall n :: n in cu <==> n in cumulative
      invariant forall n :: IsBall(n) && n < i ==>
        cu[n] == cumulative[n] + (if n in numbers then 1 else 0) && nc[n] == numberCounts[n] + [cu[n]]
      invariant forall n :: IsBall(n) && i <= n ==> cu[n] == cumulative[n] && nc[n] == numberCounts[n]
    {
      if i in numbers {
        cu := cu[i := cu[i] + 1];
      }
      nc := nc[i := nc[i] + [cu[i]]];
      i := i + 1;
    }
  }

  /**
   * The shape of a series: it starts from the first draw, rises by exactly
   * one at a draw that contains `n` and stays put at one that does not,
   * and ends at the number of draws containing `n`.
   */
  lemma RunningSteps(h: History, n: int)
    ensures forall j :: 0 <= j < |h| ==>
      Running(h, n)[j] == (if j == 0 then 0 else Running(h, n)[j - 1]) + if n in h[j] then 1 else 0
    ensures h != [] ==> Running(h, n)[|h| - 1] == RowsContaining(h, n)
  {
    forall j | 0 <= j < |h|
      ensures Running(h, n)[j] == (if j == 0 then 0 else Running(h, n)[j - 1]) + if n in h[j] then 1 else 0
    {
      RunningSnoc(h, j, n);
      assert h[..0] == [];
    }
    if h != [] {
      assert h[..|h|] == h;
    }
  }

  /** A series never goes down. */
  lemma {:induction false} RunningMonotone(h: History, n: int)
    ensures forall i, j :: 0 <= i <= j < |h| ==> Running(h, n)[i] <= Running(h, n)[j]
  {
    RunningSteps(h, n);
    forall i, j | 0 <= i <= j < |h|
      ensures Running(h, n)[i] <= Running(h, n)[j]
    {
      var k := i;
      while k < j
        invariant i <= k <= j
        invariant Running(h, n)[i] <= Running(h, n)[k]
      {
        k := k + 1;
      }
    }
  }

  /**
   * When no draw lists a number twice, a number's final total is its
   * frequency over all the draws.
   */
  lemma {:induction false} RowsContainingFrequency(h: History, n: int)
    requires forall i :: 0 <= i < |h| ==> Distinct(h[i])
    ensures RowsContaining(h, n) == multiset(AllNumbers(h))[n]
  {
    if h != [] {
      var init, last := h[..|h| - 1], h[|h| - 1];
      RowsContainingFrequency(init, n);
      AllNumbersSnoc(init, last);
      assert init + [last] == h;
      MultiplicityOne(last, n);
    }
  }

}
