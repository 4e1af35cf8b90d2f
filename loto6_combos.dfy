/**
 * The pair and triple counters of `loto6_app.py`: every draw, sorted,
 * contributes all its 2- and 3-element combinations to a `Counter`, and the
 * app lists the counters' `most_common(top_n)`.
 */
module Loto6Combos {
  import opened Wrappers
  import opened Counting
  import opened Loto6Draws

  /** `[x] + c` for every combination `c`, in order. */
  function PrependAll(x: int, cs: seq<seq<int>>): (r: seq<seq<int>>)
    ensures |r| == |cs| && forall i :: 0 <= i < |cs| ==> r[i] == [x] + cs[i]
  {
    if cs == [] then [] else [[x] + cs[0]] + PrependAll(x, cs[1..])
  }

  /**
   * `itertools.combinations(s, k)`: the `k`-element selections of `s` in
   * lexicographic order of positions, each keeping the order of `s`.
   */
  function Combinations(s: seq<int>, k: nat): seq<seq<int>>
  {
    if k == 0 then [[]]
    else if s == [] then []
    else PrependAll(s[0], Combinations(s[1..], k - 1)) + Combinations(s[1..], k)
  }

  /** The binomial coefficient, by Pascal's rule. */
  function Binom(n: nat, k: nat): nat
  {
    if k == 0 then 1 else if n == 0 then 0 else Binom(n - 1, k - 1) + Binom(n - 1, k)
  }

  /** There are `Binom(|s|, k)` combinations. */
  lemma {:induction false} CombinationsCount(s: seq<int>, k: nat)
    ensures |Combinations(s, k)| == Binom(|s|, k)
  {
    if k > 0 && s != [] {
      CombinationsCount(s[1..], k - 1);
      CombinationsCount(s[1..], k);
    }
  }

  /** Six numbers have 15 pairs and 20 triples. */
  lemma BinomSix()
    ensures Binom(6, 2) == 15 && Binom(6, 3) == 20
  {
    assert Binom(4, 1) == 4 && Binom(5, 1) == 5;
    assert Binom(4, 2) == 6 && Binom(5, 2) == 10;
  }

  /** Every element of `c` is one of `s`. */
  predicate AllIn(c: seq<int>, s: seq<int>)
  {
    forall i :: 0 <= i < |c| ==> c[i] in s
  }

  /** Each combination has `k` elements, all taken from `s`. */
  lemma {:induction false} CombinationsMembers(s: seq<int>, k: nat)
    ensures forall j :: 0 <= j < |Combinations(s, k)| ==>
      |Combinations(s, k)[j]| == k && AllIn(Combinations(s, k)[j], s)
  {
    if k > 0 && s != [] {
      var rest := s[1..];
      var a, b := Combinations(rest, k - 1), Combinations(rest, k);
      var p := PrependAll(s[0], a);
      CombinationsMembers(rest, k - 1);
      CombinationsMembers(rest, k);
      var r := Combinations(s, k);
      assert r == p + b;
      forall j | 0 <= j < |r|
        ensures |r[j]| == k && AllIn(r[j], s)
      {
        if j < |p| {
          assert r[j] == [s[0]] + a[j];
          AllInTail(a[j], s);
        } else {
          assert r[j] == b[j - |p|];
          AllInTail(b[j - |p|], s);
        }
      }
    }
  }

  lemma AllInTail(c: seq<int>, s: seq<int>)
    requires s != [] && AllIn(c, s[1..])
    ensures AllIn(c, s) && AllIn([s[0]] + c, s)
  {
    forall i | 0 <= i < |c|
      ensures c[i] in s
    {
      var j :| 0 <= j < |s[1..]| && s[1..][j] == c[i];
      assert s[j + 1] == c[i];
    }
    var c' := [s[0]] + c;
    forall i | 0 <= i < |c'|
      ensures c'[i] in s
    {
      if i > 0 {
        assert c'[i] == c[i - 1];
      }
    }
  }

  /** Combinations of a strictly increasing sequence are strictly increasing. */
  lemma {:induction false} CombinationsStrict(s: seq<int>, k: nat)
    requires StrictlyAscending(s)
    ensures forall j :: 0 <= j < |Combinations(s, k)| ==> StrictlyAscending(Combinations(s, k)[j])
  {
    if k > 0 && s != [] {
      var rest := s[1..];
      var a, b := Combinations(rest, k - 1), Combinations(rest, k);
      var p := PrependAll(s[0], a);
      assert StrictlyAscending(rest) by {
        forall i, j | 0 <= i < j < |rest| ensures rest[i] < rest[j] {
          assert rest[i] == s[i + 1] && rest[j] == s[j + 1];
        }
      }
      CombinationsStrict(rest, k - 1);
      CombinationsStrict(rest, k);
      CombinationsMembers(rest, k - 1);
      var r := Combinations(s, k);
      assert r == p + b;
      forall j | 0 <= j < |r|
        ensures StrictlyAscending(r[j])
      {
        if j < |p| {
          HeadBelow(s, a[j]);
          assert r[j] == [s[0]] + a[j];
        } else {
          assert r[j] == b[j - |p|];
        }
      }
    }
  }

  /** The first element of a strictly increasing `s` is below everything after it. */
  lemma HeadBelow(s: seq<int>, t: seq<int>)
    requires StrictlyAscending(s) && s != [] && AllIn(t, s[1..]) && StrictlyAscending(t)
    ensures StrictlyAscending([s[0]] + t)
  {
    forall i | 0 <= i < |t|
      ensures s[0] < t[i]
    {
      var j :| 0 <= j < |s[1..]| && s[1..][j] == t[i];
      assert s[1..][j] == s[j + 1];
    }
  }

  /** The first element of an increasing `s` is at most everything after it. */
  lemma HeadAtMost(s: seq<int>, t: seq<int>)
    requires Ascending(s) && s != [] && AllIn(t, s[1..]) && Ascending(t)
    ensures Ascending([s[0]] + t)
  {
    forall i | 0 <= i < |t|
      ensures s[0] <= t[i]
    {
      var j :| 0 <= j < |s[1..]| && s[1..][j] == t[i];
      assert s[1..][j] == s[j + 1];
    }
  }

  /** Combinations of an increasing sequence are increasing. */
  lemma {:induction false} CombinationsAscending(s: seq<int>, k: nat)
    requires Ascending(s)
    ensures forall j :: 0 <= j < |Combinations(s, k)| ==> Ascending(Combinations(s, k)[j])
  {
    if k > 0 && s != [] {
      var rest := s[1..];
      var a, b := Combinations(rest, k - 1), Combinations(rest, k);
      var p := PrependAll(s[0], a);
      assert Ascending(rest) by {
        forall i, j | 0 <= i < j < |rest| ensures rest[i] <= rest[j] {
          assert rest[i] == s[i + 1] && rest[j] == s[j + 1];
        }
      }
      CombinationsAscending(rest, k - 1);
      CombinationsAscending(rest, k);
      CombinationsMembers(rest, k - 1);
      var r := Combinations(s, k);
      assert r == p + b;
      forall j | 0 <= j < |r|
        ensures Ascending(r[j])
      {
        if j < |p| {
          HeadAtMost(s, a[j]);
          assert r[j] == [s[0]] + a[j];
        } else {
          assert r[j] == b[j - |p|];
        }
      }
    }
  }

  // ---------------------------------------------------------------------------
  // The counters

  /** Everything the loop feeds one counter: the `k`-combinations of each sorted draw, draw by draw. */
  function ComboStream(h: History, k: nat): (r: seq<seq<int>>)
  {
    if h == [] then [] else ComboStream(h[..|h| - 1], k) + Combinations(Sort(h[|h| - 1]), k)
  }

  lemma ComboStreamSnoc(h: History, r: nat, k: nat)
    requires r < |h|
    ensures ComboStream(h[..r + 1], k) == ComboStream(h[..r], k) + Combinations(Sort(h[r]), k)
  {
    assert h[..r + 1][..r] == h[..r];
  }

  /** `pair_counter` and `triple_counter`, updated in place draw by draw. */
  method CountCombinations(h: History) returns (pairs: Counter<seq<int>>, triples: Counter<seq<int>>)
    ensures fresh(pairs) && fresh(triples) && pairs != triples
    ensures pairs.Valid() && triples.Valid()
    ensures pairs.entries == Tally(ComboStream(h, 2))
    ensures triples.entries == Tally(ComboStream(h, 3))
  {
    pairs := new Counter();
    triples := new Counter();
    var r := 0;
    while r < |h|
      invariant 0 <= r <= |h|
      invariant fresh(pairs) && fresh(triples) && pairs != triples
      invariant pairs.Valid() && triples.Valid()
      invariant pairs.entries == Tally(ComboStream(h[..r], 2))
      invariant triples.entries == Tally(ComboStream(h[..r], 3))
    {
      var sorted := Sort(h[r]);
      CountDraw(pairs, ComboStream(h[..r], 2), Combinations(sorted, 2));
      CountDraw(triples, ComboStream(h[..r], 3), Combinations(sorted, 3));
      ComboStreamSnoc(h, r, 2);
      ComboStreamSnoc(h, r, 3);
      r := r + 1;
    }
    assert h[..|h|] == h;
  }

  /** One `counter.update(combinations(...))` call, seen as extending the tallied stream. */
  method CountDraw(c: Counter<seq<int>>, ghost before: seq<seq<int>>, combos: seq<seq<int>>)
    requires c.Valid() && c.entries == Tally(before)
    modifies c
    ensures c.Valid() && c.entries == Tally(before + combos)
  {
    c.Update(combos);
    UpdateTally(before, combos);
  }

  /** A history of draws of `m` numbers feeds `Binom(m, k)` combinations per draw. */
  lemma {:induction false} ComboStreamLength(h: History, k: nat, m: nat)
    requires forall i :: 0 <= i < |h| ==> |h[i]| == m
    ensures |ComboStream(h, k)| == Binom(m, k) * |h|
  {
    if h != [] {
      var init := h[..|h| - 1];
      assert forall i :: 0 <= i < |init| ==> |init[i]| == m by {
        forall i | 0 <= i < |init| ensures |init[i]| == m {
          assert init[i] == h[i];
        }
      }
      var last := Sort(h[|h| - 1]);
      ComboStreamLength(init, k, m);
      CombinationsCount(last, k);
      assert |last| == m;
      var b := Binom(m, k);
      assert ComboStream(h, k) == ComboStream(init, k) + Combinations(last, k);
      assert |ComboStream(h, k)| == b * |init| + b;
      MulSucc(b, |init|);
    }
  }

  lemma MulSucc(b: nat, n: nat)
    ensures b * (n + 1) == b * n + b
  {
  }

  /**
   * The counters' totals: 15 pairs and 20 triples per draw.
   */
  lemma ComboTotals(h: History)
    requires WellFormed(h)
    ensures SumCounts(Tally(ComboStream(h, 2))) == 15 * |h|
    ensures SumCounts(Tally(ComboStream(h, 3))) == 20 * |h|
  {
    TallyContents(ComboStream(h, 2));
    TallyContents(ComboStream(h, 3));
    ComboStreamLength(h, 2, 6);
    ComboStreamLength(h, 3, 6);
    BinomSix();
  }

  /**
   * Every combination fed to a counter is a `k`-combination of one sorted
   * draw: it has `k` elements, in increasing order, each of them drawn.
   */
  lemma {:induction false} ComboKeys(h: History, k: nat)
    ensures forall j :: 0 <= j < |ComboStream(h, k)| ==>
      |ComboStream(h, k)[j]| == k && Ascending(ComboStream(h, k)[j]) && AllIn(ComboStream(h, k)[j], AllNumbers(h))
  {
    if h != [] {
      var init, last := h[..|h| - 1], h[|h| - 1];
      var a, b := ComboStream(init, k), Combinations(Sort(last), k);
      ComboKeys(init, k);
      SortCorrect(last);
      CombinationsMembers(Sort(last), k);
      CombinationsAscending(Sort(last), k);
      AllNumbersSnoc(init, last);
      assert init + [last] == h;
      var s := ComboStream(h, k);
      assert s == a + b;
      forall j | 0 <= j < |s|
        ensures |s[j]| == k && Ascending(s[j]) && AllIn(s[j], AllNumbers(h))
      {
        if j < |a| {
          assert s[j] == a[j];
          AllInAppend(a[j], AllNumbers(init), last);
        } else {
          assert s[j] == b[j - |a|];
          AllInSorted(b[j - |a|], last);
          AllInPrepend(b[j - |a|], AllNumbers(init), last);
        }
      }
    }
  }

  lemma AllInAppend(c: seq<int>, s: seq<int>, t: seq<int>)
    requires AllIn(c, s)
    ensures AllIn(c, s + t)
  {
  }

  lemma AllInPrepend(c: seq<int>, s: seq<int>, t: seq<int>)
    requires AllIn(c, t)
    ensures AllIn(c, s + t)
  {
  }

  lemma AllInSorted(c: seq<int>, d: seq<int>)
    requires AllIn(c, Sort(d))
    ensures AllIn(c, d)
  {
  }

  /** When no draw repeats a number, every combination fed to a counter is strictly increasing. */
  lemma {:induction false} ComboKeysStrict(h: History, k: nat)
    requires forall i :: 0 <= i < |h| ==> Distinct(h[i])
    ensures forall j :: 0 <= j < |ComboStream(h, k)| ==> StrictlyAscending(ComboStream(h, k)[j])
  {
    if h != [] {
      var init, last := h[..|h| - 1], h[|h| - 1];
      assert forall i :: 0 <= i < |init| ==> Distinct(init[i]) by {
        forall i | 0 <= i < |init| ensures Distinct(init[i]) {
          assert init[i] == h[i];
        }
      }
      ComboKeysStrict(init, k);
      SortDistinct(last);
      CombinationsStrict(Sort(last), k);
      var a, b := ComboStream(init, k), Combinations(Sort(last), k);
      var s := ComboStream(h, k);
      forall j | 0 <= j < |s|
        ensures StrictlyAscending(s[j])
      {
        if j < |a| {
          assert s[j] == a[j];
        } else {
          assert s[j] == b[j - |a|];
        }
      }
    }
  }

  /**
   * `most_common(n)` on a counter: at most `n` entries, most frequent first,
   * each with its number of occurrences, and no left-out combination beats
   * a listed one.
   */
  lemma TopCombinations(h: History, k: nat, n: nat)
    ensures |MostCommon(Tally(ComboStream(h, k)), n)| <= n
    ensures NonIncreasing(MostCommon(Tally(ComboStream(h, k)), n), CountOf)
    ensures forall e :: e in MostCommon(Tally(ComboStream(h, k)), n) ==> e.count == multiset(ComboStream(h, k))[e.key] > 0
    ensures forall e, i ::
      e in Tally(ComboStream(h, k)) && e !in MostCommon(Tally(ComboStream(h, k)), n) && 0 <= i < |MostCommon(Tally(ComboStream(h, k)), n)|
      ==> e.count <= MostCommon(Tally(ComboStream(h, k)), n)[i].count
  {
    var t := Tally(ComboStream(h, k));
    var top := MostCommon(t, n);
    MostCommonSorted(t, n);
    MostCommonTop(t, n);
    TallyCounts(ComboStream(h, k));
    forall e | e in top
      ensures e.count == multiset(ComboStream(h, k))[e.key] > 0
    {
      assert multiset(top)[e] > 0;
      assert e in t;
    }
  }

  /** `pair_counter.most_common(1)[0][0]`; there is none when no draw was counted. */
  function TopPair(h: History): Option<seq<int>>
  {
    var top := MostCommon(Tally(ComboStream(h, 2)), 1);
    if top == [] then None else Some(top[0].key)
  }

  /** There is a top pair exactly when at least one draw was counted. */
  lemma TopPairExists(h: History)
    requires WellFormed(h)
    ensures TopPair(h).Some? <==> h != []
  {
    var s := ComboStream(h, 2);
    var t := Tally(s);
    ComboStreamLength(h, 2, 6);
    BinomSix();
    TallyContents(s);
    MostCommonSorted(t, 1);
    if h != [] {
      DedupMembers(s);
      assert s[0] in s;
    } else {
      assert s == [];
    }
  }

  /** The top pair is a counted pair: it occurs in the stream the pair counter was fed. */
  lemma TopPairCounted(h: History)
    requires TopPair(h).Some?
    ensures TopPair(h).value in ComboStream(h, 2)
    ensures MostCommon(Tally(ComboStream(h, 2)), 1)[0] in Tally(ComboStream(h, 2))
  {
    var t := Tally(ComboStream(h, 2));
    var top := MostCommon(t, 1);
    MostCommonSorted(t, 1);
    assert multiset(top)[top[0]] > 0;
    TallyLookup(ComboStream(h, 2), top[0].key);
  }

  /** The top pair is a sorted pair of drawn numbers. */
  lemma TopPairShape(h: History)
    requires TopPair(h).Some?
    ensures |TopPair(h).value| == 2
    ensures TopPair(h).value[0] <= TopPair(h).value[1]
    ensures (forall i :: 0 <= i < |h| ==> Distinct(h[i])) ==> TopPair(h).value[0] < TopPair(h).value[1]
    ensures TopPair(h).value[0] in AllNumbers(h) && TopPair(h).value[1] in AllNumbers(h)
  {
    TopPairCounted(h);
    CountedPairShape(h, TopPair(h).value);
  }

  /** A counted pair is a sorted pair of drawn numbers. */
  lemma CountedPairShape(h: History, p: seq<int>)
    requires p in ComboStream(h, 2)
    ensures |p| == 2 && p[0] <= p[1]
    ensures (forall i :: 0 <= i < |h| ==> Distinct(h[i])) ==> p[0] < p[1]
    ensures p[0] in AllNumbers(h) && p[1] in AllNumbers(h)
  {
    var s := ComboStream(h, 2);
    var jp :| 0 <= jp < |s| && s[jp] == p;
    ComboKeys(h, 2);
    assert AllIn(p, AllNumbers(h));
    if forall i :: 0 <= i < |h| ==> Distinct(h[i]) {
      ComboKeysStrict(h, 2);
    }
  }

  /** No pair was counted more often than the top pair. */
  lemma TopPairBest(h: History)
    requires TopPair(h).Some?
    ensures forall j :: 0 <= j < |ComboStream(h, 2)| ==>
      multiset(ComboStream(h, 2))[ComboStream(h, 2)[j]] <= multiset(ComboStream(h, 2))[TopPair(h).value]
  {
    var s := ComboStream(h, 2);
    var t := Tally(s);
    var top := MostCommon(t, 1);
    TopCombinations(h, 2, 1);
    TopPairCounted(h);
    forall j | 0 <= j < |s|
      ensures multiset(s)[s[j]] <= multiset(s)[top[0].key]
    {
      TallyLookup(s, s[j]);
      var i :| 0 <= i < |t| && t[i] == Entry(s[j], multiset(s)[s[j]]);
      if t[i] != top[0] {
        assert t[i] !in top;
      }
    }
  }
}
