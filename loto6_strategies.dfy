/**
 * The five number-suggestion strategies of `loto6_app.py`. Each one draws
 * at random with `random.sample` (and one with `random.randint`); the random
 * choices are parameters here, so every property below holds for every
 * possible draw.
 */
module Loto6Strategies {
  import opened Wrappers
  import opened Counting
  import opened Loto6Draws
  import opened Loto6Combos

  /** Why a strategy suggested nothing. */
  datatype StrategyError =
    | SampleLargerThanPopulation  // `random.sample` raises `ValueError`
    | NoPairCounted               // `most_common(1)[0]` raises `IndexError`

  // ---------------------------------------------------------------------------
  // random.sample

  /**
   * A sample of `|picks|` members of `pool` without replacement: each pick
   * chooses, by position, one of the members not chosen yet.
   */
  function Pick(pool: seq<int>, picks: seq<nat>): (r: seq<int>)
    requires |picks| <= |pool|
    ensures |r| == |picks|
    ensures multiset(r) <= multiset(pool)
  {
    if picks == [] then []
    else
      var j := picks[0] % |pool|;
      assert pool == pool[..j] + [pool[j]] + pool[j + 1..];
      [pool[j]] + Pick(pool[..j] + pool[j + 1..], picks[1..])
  }

  /** From a pool without repeats, a sample has no repeats and only members of the pool. */
  lemma PickDistinct(pool: seq<int>, picks: seq<nat>)
    requires |picks| <= |pool| && Distinct(pool)
    ensures Distinct(Pick(pool, picks))
    ensures forall x :: x in Pick(pool, picks) ==> x in pool
  {
    var r := Pick(pool, picks);
    forall x | x in r ensures x in pool {
      assert multiset(r)[x] > 0;
    }
    forall i, j | 0 <= i < j < |r| ensures r[i] != r[j] {
      if r[i] == r[j] {
        MultiplicityTwo(r, i, j);
        MultiplicityOne(pool, r[i]);
      }
    }
  }

  /** Every selection without repeats from the pool is a possible sample. */
  lemma {:induction false} PickReaches(pool: seq<int>, s: seq<int>) returns (picks: seq<nat>)
    requires |s| <= |pool| && multiset(s) <= multiset(pool)
    ensures |picks| == |s| && Pick(pool, picks) == s
    decreases |s|
  {
    if s == [] {
      picks := [];
    } else {
      var j := RemoveFirst(pool, s);
      var more := PickReaches(pool[..j] + pool[j + 1..], s[1..]);
      picks := [j] + more;
      PickFirst(pool, j, more);
      assert s == [s[0]] + s[1..];
    }
  }

  /** The first wanted number sits at some position `j` of the pool, and the others are among the rest. */
  lemma RemoveFirst(pool: seq<int>, s: seq<int>) returns (j: nat)
    requires s != [] && |s| <= |pool| && multiset(s) <= multiset(pool)
    ensures j < |pool| && pool[j] == s[0]
    ensures |s[1..]| <= |pool[..j] + pool[j + 1..]| && multiset(s[1..]) <= multiset(pool[..j] + pool[j + 1..])
  {
    assert s == [s[0]] + s[1..];
    assert multiset(s) == multiset{s[0]} + multiset(s[1..]);
    assert s[0] in multiset(pool);
    j :| 0 <= j < |pool| && pool[j] == s[0];
    var rest := pool[..j] + pool[j + 1..];
    assert pool == pool[..j] + [pool[j]] + pool[j + 1..];
    assert multiset(pool) == multiset(rest) + multiset{s[0]};
    CancelOne(multiset(s[1..]), multiset(rest), s[0]);
  }

  /** Picking position `j` first takes `pool[j]` and samples the rest from the others. */
  lemma PickFirst(pool: seq<int>, j: nat, more: seq<nat>)
    requires j < |pool| && |more| < |pool|
    ensures Pick(pool, [j] + more) == [pool[j]] + Pick(pool[..j] + pool[j + 1..], more)
  {
    var picks := [j] + more;
    assert picks[0] == j && picks[1..] == more;
    ModBelow(j, |pool|);
  }

  lemma ModBelow(j: int, n: int)
    requires 0 <= j < n
    ensures j % n == j
  {
  }

  lemma CancelOne(a: multiset<int>, b: multiset<int>, x: int)
    requires multiset{x} + a <= b + multiset{x}
    ensures a <= b
  {
    forall y ensures a[y] <= b[y] {
      assert (multiset{x} + a)[y] <= (b + multiset{x})[y];
    }
  }

  /** `random.sample(pool, |picks|)`, which refuses a sample larger than the pool. */
  function Sample(pool: seq<int>, picks: seq<nat>): (r: Result<seq<int>, StrategyError>)
    ensures r.Ok? <==> |picks| <= |pool|
    ensures r.Ok? ==> r.value == Pick(pool, picks)
  {
    if |picks| > |pool| then Err(SampleLargerThanPopulation) else Ok(Pick(pool, picks))
  }

  /** Any choice of distinct members of a pool without repeats is a possible outcome of `Sample`. */
  lemma SampleReaches(pool: seq<int>, s: seq<int>) returns (picks: seq<nat>)
    requires Distinct(pool) && Distinct(s) && forall x :: x in s ==> x in pool
    ensures Sample(pool, picks) == Ok(s)
  {
    DistinctCardinality(s);
    DistinctCardinality(pool);
    var a, b := set x | x in s, set x | x in pool;
    assert b == a + (b - a);
    assert |b| == |a| + |b - a|;
    forall x ensures multiset(s)[x] <= multiset(pool)[x] {
      if x in s {
        MultiplicityOne(s, x);
        MultiplicityOne(pool, x);
      }
    }
    picks := PickReaches(pool, s);
  }

  /** What every strategy promises: six numbers in strictly increasing order. */
  predicate Suggestion(s: seq<int>)
  {
    |s| == 6 && StrictlyAscending(s)
  }

  /** Sorting a sample without repeats gives strictly increasing numbers, the same ones. */
  lemma SortedSample(s: seq<int>)
    requires Distinct(s)
    ensures StrictlyAscending(Sort(s)) && |Sort(s)| == |s|
    ensures forall x :: x in Sort(s) <==> x in s
  {
    SortDistinct(s);
  }

  // ---------------------------------------------------------------------------
  // generate_from_frequent

  /** `freq.head(10).index`: the (at most) ten most frequent numbers. */
  function TopTen(h: History): (r: seq<int>)
    ensures |r| == if |Keys(Frequency(h))| < 10 then |Keys(Frequency(h))| else 10
  {
    var k := Keys(Frequency(h));
    k[..if |k| < 10 then |k| else 10]
  }

  function FromFrequent(h: History, picks: seq<nat>): Result<seq<int>, StrategyError>
  {
    match Sample(TopTen(h), picks)
    case Err(e) => Err(e)
    case Ok(s) => Ok(Sort(s))
  }

  /**
   * With six picks, the frequent strategy fails exactly when fewer than six
   * distinct numbers have been drawn; otherwise it suggests six numbers from
   * the ten most frequent.
   */
  lemma FromFrequentSpec(h: History, picks: seq<nat>)
    requires |picks| == 6
    ensures FromFrequent(h, picks).Err? <==> |Keys(Frequency(h))| < 6
    ensures FromFrequent(h, picks).Ok? ==>
      Suggestion(FromFrequent(h, picks).value) &&
      forall x :: x in FromFrequent(h, picks).value ==> x in TopTen(h) && x in AllNumbers(h)
  {
    var top := TopTen(h);
    if |picks| <= |top| {
      TopTenMembers(h);
      PickDistinct(top, picks);
      SortedSample(Pick(top, picks));
    }
  }

  /** The ten most frequent numbers are distinct numbers that have been drawn. */
  lemma TopTenMembers(h: History)
    ensures Distinct(TopTen(h))
    ensures forall x :: x in TopTen(h) ==> x in AllNumbers(h)
  {
    var k := Keys(Frequency(h));
    RankingKeys(AllNumbers(h));
    PrefixDistinct(k, |TopTen(h)|);
  }

  /**
   * Each of the ten most frequent numbers has been drawn at least as often
   * as every drawn number outside them.
   */
  lemma TopTenFrequent(h: History)
    ensures forall x, y :: x in TopTen(h) && y in AllNumbers(h) && y !in TopTen(h) ==>
      multiset(AllNumbers(h))[x] >= multiset(AllNumbers(h))[y]
  {
    forall x, y | x in TopTen(h) && y in AllNumbers(h) && y !in TopTen(h)
      ensures multiset(AllNumbers(h))[x] >= multiset(AllNumbers(h))[y]
    {
      TopTenPair(h, x, y);
    }
  }

  lemma TopTenPair(h: History, x: int, y: int)
    requires x in TopTen(h) && y in AllNumbers(h) && y !in TopTen(h)
    ensures multiset(AllNumbers(h))[x] >= multiset(AllNumbers(h))[y]
  {
    var f := Frequency(h);
    RankingTable(AllNumbers(h));
    var i, j := PrefixDominates(f, |TopTen(h)|, x, y);
  }

  /** In a table sorted by count, a key among the first `n` counts at least as much as a key after them. */
  lemma PrefixDominates(f: seq<Entry<int>>, n: nat, x: int, y: int) returns (i: nat, j: nat)
    requires n <= |f| && NonIncreasing(f, CountOf)
    requires x in Keys(f)[..n] && y in Keys(f) && y !in Keys(f)[..n]
    ensures i < |f| && j < |f| && f[i].key == x && f[j].key == y && f[i].count >= f[j].count
  {
    var k := Keys(f);
    i := InPrefix(k, n, x);
    j := InSuffix(k, n, y);
    assert CountOf(f[i]) >= CountOf(f[j]);
  }

  lemma InPrefix(k: seq<int>, n: nat, x: int) returns (i: nat)
    requires n <= |k| && x in k[..n]
    ensures i < n && k[i] == x
  {
    i :| 0 <= i < n && k[..n][i] == x;
  }

  lemma InSuffix(k: seq<int>, n: nat, y: int) returns (j: nat)
    requires n <= |k| && y in k && y !in k[..n]
    ensures n <= j < |k| && k[j] == y
  {
    assert k == k[..n] + k[n..];
    assert y in k[n..];
    var j' :| 0 <= j' < |k| - n && k[n..][j'] == y;
    j := n + j';
  }

  lemma PrefixDistinct(k: seq<int>, n: nat)
    requires Distinct(k) && n <= |k|
    ensures Distinct(k[..n]) && forall x :: x in k[..n] ==> x in k
  {
    var p := k[..n];
    assert forall i :: 0 <= i < n ==> p[i] == k[i];
  }

  /** Every six distinct numbers among the ten most frequent are a possible suggestion. */
  lemma FromFrequentReaches(h: History, s: seq<int>) returns (picks: seq<nat>)
    requires |s| == 6 && Distinct(s) && forall x :: x in s ==> x in TopTen(h)
    ensures |picks| == 6 && FromFrequent(h, picks) == Ok(Sort(s))
  {
    TopTenMembers(h);
    picks := SampleReaches(TopTen(h), s);
  }

  // ---------------------------------------------------------------------------
  // generate_from_unused

  function FromUnused(h: History, picks: seq<nat>): Result<seq<int>, StrategyError>
  {
    var pool := if |Unused(h)| >= 6 then Unused(h) else AllBalls();
    match Sample(pool, picks)
    case Err(e) => Err(e)
    case Ok(s) => Ok(Sort(s))
  }

  /**
   * The unused strategy always suggests six balls; they are all unused when
   * at least six numbers were never drawn.
   */
  lemma FromUnusedSpec(h: History, picks: seq<nat>)
    requires |picks| == 6
    ensures FromUnused(h, picks).Ok?
    ensures Suggestion(FromUnused(h, picks).value)
    ensures forall x :: x in FromUnused(h, picks).value ==> IsBall(x)
    ensures |Unused(h)| >= 6 ==> forall x :: x in FromUnused(h, picks).value ==> x in Unused(h) && x !in AllNumbers(h)
  {
    var pool := if |Unused(h)| >= 6 then Unused(h) else AllBalls();
    AllBallsMembers(MinBall);
    PickDistinct(pool, picks);
    SortedSample(Pick(pool, picks));
    RankingKeys(AllNumbers(h));
  }

  /**
   * Every six distinct numbers of the strategy's pool are a possible
   * suggestion: unused numbers when at least six are unused, and otherwise
   * any balls.
   */
  lemma FromUnusedReaches(h: History, s: seq<int>) returns (picks: seq<nat>)
    requires |s| == 6 && Distinct(s)
    requires forall x :: x in s ==> if |Unused(h)| >= 6 then x in Unused(h) else IsBall(x)
    ensures |picks| == 6 && FromUnused(h, picks) == Ok(Sort(s))
  {
    var pool := if |Unused(h)| >= 6 then Unused(h) else AllBalls();
    AllBallsMembers(MinBall);
    assert Distinct(pool);
    forall x | x in s ensures x in pool {
      if |Unused(h)| < 6 {
        AllBallsMembers(x);
      }
    }
    picks := SampleReaches(pool, s);
  }

  // ---------------------------------------------------------------------------
  // generate_balanced_odd_even

  /** `[n for n in range(1, 44) if n % 2 == 1]`. */
  function OddBalls(): (r: seq<int>)
    ensures |r| == 22 && forall i :: 0 <= i < |r| ==> r[i] == 2 * i + 1
  {
    seq(22, i => 2 * i + 1)
  }

  /** `[n for n in range(1, 44) if n % 2 == 0]`. */
  function EvenBalls(): (r: seq<int>)
    ensures |r| == 21 && forall i :: 0 <= i < |r| ==> r[i] == 2 * i + 2
  {
    seq(21, i => 2 * i + 2)
  }

  /** The two lists are the comprehensions they stand for: the odd and the even balls, in increasing order. */
  lemma ParityBalls()
    ensures StrictlyAscending(OddBalls()) && StrictlyAscending(EvenBalls())
    ensures forall n :: n in OddBalls() <==> IsBall(n) && n % 2 == 1
    ensures forall n :: n in EvenBalls() <==> IsBall(n) && n % 2 == 0
  {
    forall n | IsBall(n) && n % 2 == 1 ensures n in OddBalls() {
      assert OddBalls()[(n - 1) / 2] == n;
    }
    forall n | IsBall(n) && n % 2 == 0 ensures n in EvenBalls() {
      assert EvenBalls()[(n - 2) / 2] == n;
    }
  }

  function Balanced(oddPicks: seq<nat>, evenPicks: seq<nat>): seq<int>
    requires |oddPicks| == 3 && |evenPicks| == 3
  {
    Sort(Pick(OddBalls(), oddPicks) + Pick(EvenBalls(), evenPicks))
  }

  /** The balanced strategy suggests six balls, exactly three odd and three even. */
  lemma BalancedSpec(oddPicks: seq<nat>, evenPicks: seq<nat>)
    requires |oddPicks| == 3 && |evenPicks| == 3
    ensures Suggestion(Balanced(oddPicks, evenPicks))
    ensures forall x :: x in Balanced(oddPicks, evenPicks) ==> IsBall(x)
    ensures OddCount(Balanced(oddPicks, evenPicks)) == 3 && EvenCount(Balanced(oddPicks, evenPicks)) == 3
  {
    var a, b := Pick(OddBalls(), oddPicks), Pick(EvenBalls(), evenPicks);
    ParityBalls();
    PickDistinct(OddBalls(), oddPicks);
    PickDistinct(EvenBalls(), evenPicks);
    var s := a + b;
    forall i, j | 0 <= i < j < |s| ensures s[i] != s[j] {
      if i < 3 && j >= 3 {
        assert s[i] in a && s[j] in b;
      }
    }
    SortedSample(s);
    ParityCounts(a, 1);
    ParityCounts(b, 0);
    ParityAppend(a, b);
    ParitySort(s);
    ParityPartition(Sort(s));
  }

  /** Every three distinct odd balls and three distinct even balls are a possible suggestion. */
  lemma BalancedReaches(odd: seq<int>, even: seq<int>) returns (oddPicks: seq<nat>, evenPicks: seq<nat>)
    requires |odd| == 3 && |even| == 3 && Distinct(odd) && Distinct(even)
    requires forall x :: x in odd ==> IsBall(x) && x % 2 == 1
    requires forall x :: x in even ==> IsBall(x) && x % 2 == 0
    ensures |oddPicks| == 3 && |evenPicks| == 3 && Balanced(oddPicks, evenPicks) == Sort(odd + even)
  {
    ParityBalls();
    assert Distinct(OddBalls()) && Distinct(EvenBalls());
    oddPicks := SampleReaches(OddBalls(), odd);
    evenPicks := SampleReaches(EvenBalls(), even);
  }

  /** A list of numbers all of one parity: all counted odd, or all counted even. */
  lemma {:induction false} ParityCounts(s: seq<int>, p: int)
    requires p == 0 || p == 1
    requires forall x :: x in s ==> x % 2 == p
    ensures OddCount(s) == if p == 1 then |s| else 0
  {
    if s != [] {
      assert s[0] in s;
      assert forall x :: x in s[1..] ==> x in s;
      ParityCounts(s[1..], p);
    }
  }

  lemma {:induction false} ParityAppend(a: seq<int>, b: seq<int>)
    ensures OddCount(a + b) == OddCount(a) + OddCount(b)
  {
    if a == [] {
      assert a + b == b;
    } else {
      assert (a + b)[1..] == a[1..] + b;
      ParityAppend(a[1..], b);
    }
  }

  lemma {:induction false} ParityInsert(x: int, s: seq<int>)
    ensures OddCount(InsertAsc(x, s)) == OddCount([x] + s)
  {
    if s != [] && x > s[0] {
      ParityInsert(x, s[1..]);
      assert ([x] + s)[1..] == s;
      assert ([x] + s[1..])[1..] == s[1..];
    }
  }

  /** Sorting keeps the number of odd values. */
  lemma {:induction false} ParitySort(s: seq<int>)
    ensures OddCount(Sort(s)) == OddCount(s)
  {
    if s != [] {
      ParitySort(s[1..]);
      ParityInsert(s[0], Sort(s[1..]));
      assert ([s[0]] + Sort(s[1..]))[1..] == Sort(s[1..]);
    }
  }

  // ---------------------------------------------------------------------------
  // generate_with_consecutive and generate_with_common_pair

  /** `[n for n in range(1, 44) if n not in pair]`. */
  function BallsOutside(pair: seq<int>): seq<int>
  {
    RangeWithout(MinBall, MaxBall + 1, pair)
  }

  /** Leaving out the members of a list of `m` numbers leaves at least 43 - m balls. */
  lemma BallsOutsideCount(pair: seq<int>)
    ensures |BallsOutside(pair)| >= MaxBall - MinBall + 1 - |pair|
  {
    RangeWithoutCount(MinBall, MaxBall + 1, pair);
  }

  lemma {:induction false} RangeWithoutCount(lo: int, hi: int, seen: seq<int>)
    requires lo <= hi
    ensures |RangeWithout(lo, hi, seen)| >= hi - lo - |seen|
    decreases |seen|
  {
    if seen == [] {
      RangeWithoutNone(lo, hi, seen);
    } else {
      RangeWithoutCount(lo, hi, seen[1..]);
      RangeWithoutOneMore(lo, hi, seen[0], seen[1..]);
      assert [seen[0]] + seen[1..] == seen;
    }
  }

  lemma {:induction false} RangeWithoutNone(lo: int, hi: int, seen: seq<int>)
    requires lo <= hi && seen == []
    ensures |RangeWithout(lo, hi, seen)| == hi - lo
    decreases hi - lo
  {
    if lo < hi {
      RangeWithoutNone(lo + 1, hi, seen);
    }
  }

  /** One more excluded number removes at most one member. */
  lemma {:induction false} RangeWithoutOneMore(lo: int, hi: int, x: int, rest: seq<int>)
    ensures |RangeWithout(lo, hi, [x] + rest)| + 1 >= |RangeWithout(lo, hi, rest)|
    decreases hi - lo
  {
    if lo < hi {
      if lo == x {
        RangeWithoutBelow(lo + 1, hi, x, rest);
      } else {
        RangeWithoutOneMore(lo + 1, hi, x, rest);
      }
    }
  }

  /** An excluded number below the range makes no difference. */
  lemma {:induction false} RangeWithoutBelow(lo: int, hi: int, x: int, rest: seq<int>)
    requires x < lo
    ensures RangeWithout(lo, hi, [x] + rest) == RangeWithout(lo, hi, rest)
    decreases hi - lo
  {
    if lo < hi {
      RangeWithoutBelow(lo + 1, hi, x, rest);
    }
  }

  function WithConsecutive(base: int, picks: seq<nat>): seq<int>
    requires MinBall <= base <= MaxBall - 1 && |picks| == 4
  {
    var pair := [base, base + 1];
    BallsOutsideCount(pair);
    Sort(pair + Pick(BallsOutside(pair), picks))
  }

  /**
   * For every `randint(1, 42)` value of `base`, the consecutive strategy
   * suggests six balls that include `base` and `base + 1`.
   */
  lemma WithConsecutiveSpec(base: int, picks: seq<nat>)
    requires MinBall <= base <= MaxBall - 1 && |picks| == 4
    ensures Suggestion(WithConsecutive(base, picks))
    ensures base in WithConsecutive(base, picks) && base + 1 in WithConsecutive(base, picks)
    ensures forall x :: x in WithConsecutive(base, picks) ==> IsBall(x)
  {
    var pair := [base, base + 1];
    BallsOutsideCount(pair);
    SuggestAround(pair, picks);
  }

  /** For every base, any four distinct other balls complete a possible suggestion. */
  lemma WithConsecutiveReaches(base: int, s: seq<int>) returns (picks: seq<nat>)
    requires MinBall <= base <= MaxBall - 1
    requires |s| == 4 && Distinct(s) && forall x :: x in s ==> IsBall(x) && x != base && x != base + 1
    ensures |picks| == 4 && WithConsecutive(base, picks) == Sort([base, base + 1] + s)
  {
    picks := OutsideReaches([base, base + 1], s);
  }

  /** Any four distinct balls outside `pair` are a possible sample of the other balls. */
  lemma OutsideReaches(pair: seq<int>, s: seq<int>) returns (picks: seq<nat>)
    requires |s| == 4 && Distinct(s) && forall x :: x in s ==> IsBall(x) && x !in pair
    ensures |picks| == 4 && |picks| <= |BallsOutside(pair)| && Pick(BallsOutside(pair), picks) == s
  {
    assert Distinct(BallsOutside(pair));
    picks := SampleReaches(BallsOutside(pair), s);
  }

  /** Two distinct balls plus four picks among the other balls, sorted, make a suggestion. */
  lemma SuggestAround(pair: seq<int>, picks: seq<nat>)
    requires |pair| == 2 && pair[0] != pair[1] && IsBall(pair[0]) && IsBall(pair[1])
    requires |picks| == 4 && |picks| <= |BallsOutside(pair)|
    ensures Suggestion(Sort(pair + Pick(BallsOutside(pair), picks)))
    ensures forall x :: x in Sort(pair + Pick(BallsOutside(pair), picks)) <==> x in pair || x in Pick(BallsOutside(pair), picks)
    ensures forall x :: x in Sort(pair + Pick(BallsOutside(pair), picks)) ==> IsBall(x)
  {
    var others := Pick(BallsOutside(pair), picks);
    var s := pair + others;
    PickDistinct(BallsOutside(pair), picks);
    forall i, j | 0 <= i < j < |s| ensures s[i] != s[j] {
      if j >= 2 {
        assert s[j] == others[j - 2] && s[j] in others;
        if i >= 2 {
          assert s[i] == others[i - 2];
        }
      }
    }
    SortedSample(s);
  }

  function WithCommonPair(h: History, picks: seq<nat>): Result<seq<int>, StrategyError>
    requires |picks| == 4
  {
    match TopPair(h)
    case None => Err(NoPairCounted)
    case Some(pair) =>
      BallsOutsideCount(pair);
      if |picks| > |BallsOutside(pair)| then Err(SampleLargerThanPopulation)
      else Ok(Sort(pair + Pick(BallsOutside(pair), picks)))
  }

  /**
   * The common-pair strategy fails exactly when no draw was counted; when
   * the draws are six distinct balls each, it suggests six balls that
   * include both numbers of the most common pair.
   */
  lemma WithCommonPairSpec(h: History, picks: seq<nat>)
    requires |picks| == 4 && WellFormed(h)
    requires forall i :: 0 <= i < |h| ==> Distinct(h[i])
    requires forall i, j :: 0 <= i < |h| && 0 <= j < |h[i]| ==> IsBall(h[i][j])
    ensures WithCommonPair(h, picks).Err? <==> h == []
    ensures WithCommonPair(h, picks).Ok? ==>
      Suggestion(WithCommonPair(h, picks).value) &&
      TopPair(h).value[0] in WithCommonPair(h, picks).value &&
      TopPair(h).value[1] in WithCommonPair(h, picks).value &&
      forall x :: x in WithCommonPair(h, picks).value ==> IsBall(x)
  {
    TopPairExists(h);
    if h != [] {
      var pair := TopPair(h).value;
      TopPairShape(h);
      BallsOutsideCount(pair);
      AllNumbersBalls(h, pair[0]);
      AllNumbersBalls(h, pair[1]);
      SuggestAround(pair, picks);
    }
  }

  /** Any four distinct balls outside the most common pair complete a possible suggestion. */
  lemma WithCommonPairReaches(h: History, s: seq<int>) returns (picks: seq<nat>)
    requires TopPair(h).Some?
    requires |s| == 4 && Distinct(s) && forall x :: x in s ==> IsBall(x) && x !in TopPair(h).value
    ensures |picks| == 4 && WithCommonPair(h, picks) == Ok(Sort(TopPair(h).value + s))
  {
    picks := OutsideReaches(TopPair(h).value, s);
  }

  /** Every listed number of a history of balls is a ball. */
  lemma {:induction false} AllNumbersBalls(h: History, x: int)
    requires forall i, j :: 0 <= i < |h| && 0 <= j < |h[i]| ==> IsBall(h[i][j])
    requires x in AllNumbers(h)
    ensures IsBall(x)
  {
    if x !in h[0] {
      AllNumbersBalls(h[1..], x);
    }
  }
}
