/**
 * Counting and ordering as the scripts use them: `collections.Counter`
 * (an insertion-ordered table of counts), `Counter.most_common`, pandas'
 * `sort_values` by one key, and Python's `sorted` on a list of integers.
 */
module Counting {

  predicate Distinct<T(==)>(s: seq<T>)
  {
    forall i, j :: 0 <= i < j < |s| ==> s[i] != s[j]
  }

  /** The elements of `s` in the order of their first occurrence. */
  function Dedup<T(==)>(s: seq<T>): (r: seq<T>)
    ensures Distinct(r)
    ensures forall i :: 0 <= i < |r| ==> r[i] in s
  {
    if s == [] then []
    else if s[|s| - 1] in s[..|s| - 1] then Dedup(s[..|s| - 1])
    else Dedup(s[..|s| - 1]) + [s[|s| - 1]]
  }

  /** The first occurrences hold exactly the elements of `s`. */
  lemma {:induction false} DedupMembers<T>(s: seq<T>)
    ensures forall y :: y in Dedup(s) <==> y in s
  {
    if s != [] {
      var init := s[..|s| - 1];
      DedupMembers(init);
      assert s == init + [s[|s| - 1]];
    }
  }

  /** A non-empty list is its front followed by its last element. */
  lemma InitLast<T>(s: seq<T>)
    requires s != []
    ensures s[..|s| - 1] + [s[|s| - 1]] == s
  {
  }

  // ---------------------------------------------------------------------------
  // Counter

  /** One key of a `Counter` with its count. */
  datatype Entry<K> = Entry(key: K, count: nat)

  function Keys<K>(e: seq<Entry<K>>): (r: seq<K>)
    ensures |r| == |e|
    ensures forall i :: 0 <= i < |e| ==> r[i] == e[i].key
  {
    if e == [] then [] else [e[0].key] + Keys(e[1..])
  }

  function SumCounts<K>(e: seq<Entry<K>>): nat
  {
    if e == [] then 0 else e[0].count + SumCounts(e[1..])
  }

  lemma KeysCons<K>(x: Entry<K>, e: seq<Entry<K>>)
    requires Distinct(Keys(e)) && x.key !in Keys(e)
    ensures Keys([x] + e) == [x.key] + Keys(e)
    ensures Distinct(Keys([x] + e))
  {
    assert Keys([x] + e) == [x.key] + Keys(e);
  }

  lemma KeysTail<K>(e: seq<Entry<K>>)
    requires Distinct(Keys(e)) && e != []
    ensures Keys(e) == [e[0].key] + Keys(e[1..])
    ensures Distinct(Keys(e[1..])) && e[0].key !in Keys(e[1..])
  {
  }

  /** One increment of `key` in a counter whose keys are distinct: the entry is bumped in place, or appended with count 1. */
  function Add<K(==)>(e: seq<Entry<K>>, key: K): (r: seq<Entry<K>>)
    requires Distinct(Keys(e))
    ensures Keys(r) == if key in Keys(e) then Keys(e) else Keys(e) + [key]
    ensures Distinct(Keys(r))
  {
    if e == [] then
      assert Keys([Entry(key, 1)]) == [key];
      [Entry(key, 1)]
    else
      KeysTail(e);
      if e[0].key == key then
        KeysCons(Entry(key, e[0].count + 1), e[1..]);
        [Entry(key, e[0].count + 1)] + e[1..]
      else
        var rest := Add(e[1..], key);
        KeysCons(e[0], rest);
        assert key in Keys(e) <==> key in Keys(e[1..]);
        [e[0]] + rest
  }

  /**
   * An increment bumps exactly the entry of `key` by one and leaves every
   * other entry alone; a new key gets an entry of its own, with count 1, at
   * the end.
   */
  lemma {:induction false} AddSpec<K>(e: seq<Entry<K>>, key: K)
    requires Distinct(Keys(e))
    ensures forall i :: 0 <= i < |e| ==>
      Add(e, key)[i].key == e[i].key && Add(e, key)[i].count == e[i].count + (if e[i].key == key then 1 else 0)
    ensures key !in Keys(e) ==> Add(e, key)[|e|] == Entry(key, 1)
  {
    AddEntries(e, key);
    if key !in Keys(e) {
      AddNew(e, key);
    }
  }

  lemma {:induction false} AddEntries<K>(e: seq<Entry<K>>, key: K)
    requires Distinct(Keys(e))
    ensures forall i :: 0 <= i < |e| ==>
      Add(e, key)[i].key == e[i].key && Add(e, key)[i].count == e[i].count + (if e[i].key == key then 1 else 0)
  {
    if e != [] {
      KeysTail(e);
      var r := Add(e, key);
      if e[0].key == key {
        assert r == [Entry(key, e[0].count + 1)] + e[1..];
        forall i | 1 <= i < |e| ensures e[i].key != key {
          assert Keys(e)[i] == e[i].key;
        }
      } else {
        var rest := Add(e[1..], key);
        AddEntries(e[1..], key);
        assert r == [e[0]] + rest;
        forall i | 1 <= i < |e|
          ensures r[i] == rest[i - 1] && e[i] == e[1..][i - 1]
        {
        }
      }
    }
  }

  lemma {:induction false} AddNew<K>(e: seq<Entry<K>>, key: K)
    requires Distinct(Keys(e)) && key !in Keys(e)
    ensures Add(e, key)[|e|] == Entry(key, 1)
  {
    if e != [] {
      KeysTail(e);
      AddNew(e[1..], key);
      assert Add(e, key) == [e[0]] + Add(e[1..], key);
    }
  }

  /** An increment adds one to the total. */
  lemma {:induction false} AddSum<K>(e: seq<Entry<K>>, key: K)
    requires Distinct(Keys(e))
    ensures SumCounts(Add(e, key)) == SumCounts(e) + 1
  {
    if e == [] {
      SumCountsCons(Entry(key, 1), []);
      assert [Entry(key, 1)] + [] == [Entry(key, 1)];
    } else if e[0].key == key {
      SumCountsCons(Entry(key, e[0].count + 1), e[1..]);
    } else {
      KeysTail(e);
      AddSum(e[1..], key);
      SumCountsCons(e[0], Add(e[1..], key));
    }
  }

  lemma SumCountsCons<K>(x: Entry<K>, e: seq<Entry<K>>)
    ensures SumCounts([x] + e) == x.count + SumCounts(e)
  {
    assert ([x] + e)[1..] == e;
  }

  /** `Counter.update(keys)`: one `Add` per key, in order. */
  function AddAll<K(==)>(e: seq<Entry<K>>, keys: seq<K>): (r: seq<Entry<K>>)
    requires Distinct(Keys(e))
    ensures Distinct(Keys(r))
    ensures SumCounts(r) == SumCounts(e) + |keys|
    decreases |keys|
  {
    if keys == [] then e
    else
      AddSum(e, keys[0]);
      AddAll(Add(e, keys[0]), keys[1..])
  }

  /** `Counter(s)`. */
  function Tally<K(==)>(s: seq<K>): seq<Entry<K>>
  {
    AddAll([], s)
  }

  lemma {:induction false} AddAllAppend<K>(e: seq<Entry<K>>, s: seq<K>, t: seq<K>)
    requires Distinct(Keys(e))
    ensures AddAll(e, s + t) == AddAll(AddAll(e, s), t)
    decreases |s|
  {
    if s != [] {
      assert (s + t)[1..] == s[1..] + t;
      AddAllAppend(Add(e, s[0]), s[1..], t);
    } else {
      assert s + t == t;
    }
  }

  /** Updating the counter of `s` with `t` gives the counter of `s + t`. */
  lemma UpdateTally<K>(s: seq<K>, t: seq<K>)
    ensures AddAll(Tally(s), t) == Tally(s + t)
  {
    AddAllAppend([], s, t);
  }

  /** The keys of `Counter(s)` are the distinct elements of `s` in order of first occurrence. */
  lemma {:induction false} TallyKeys<K>(s: seq<K>)
    ensures Keys(Tally(s)) == Dedup(s)
  {
    if s != [] {
      var p, x := s[..|s| - 1], s[|s| - 1];
      assert p + [x] == s;
      TallyKeys(p);
      DedupMembers(p);
      TallyStep(p, x);
      assert (p + [x])[..|p|] == p;
    }
  }

  /** Each count in `Counter(s)` is the number of occurrences of its key in `s`, and is positive. */
  lemma {:induction false} TallyCounts<K>(s: seq<K>)
    ensures CountsMatch(Tally(s), s)
  {
    if s != [] {
      var p, x := s[..|s| - 1], s[|s| - 1];
      assert p + [x] == s;
      TallyCounts(p);
      TallyKeys(p);
      AddMatch(Tally(p), p, x);
      TallyStep(p, x);
    }
  }

  /** Every entry's count is the number of occurrences of its key in `s`, and is positive. */
  predicate CountsMatch<K(==)>(t: seq<Entry<K>>, s: seq<K>)
  {
    forall i :: 0 <= i < |t| ==> t[i].count == multiset(s)[t[i].key] > 0
  }

  /** Counting one more occurrence of `x` keeps the counts in step with the elements counted. */
  lemma AddMatch<K>(t: seq<Entry<K>>, p: seq<K>, x: K)
    requires Keys(t) == Dedup(p) && CountsMatch(t, p)
    ensures CountsMatch(Add(t, x), p + [x])
  {
    AddSpec(t, x);
    DedupMembers(p);
    var m := multiset(p + [x]);
    assert m == multiset(p) + multiset{x};
    if x !in Keys(t) {
      assert x !in p;
    }
  }

  lemma TallyStep<K>(p: seq<K>, x: K)
    ensures Tally(p + [x]) == Add(Tally(p), x)
  {
    UpdateTally(p, [x]);
    assert [x][1..] == [];
  }

  /**
   * What `Counter(s)` holds: one entry per distinct element, in order of first
   * occurrence, each with its number of occurrences in `s`; the counts are
   * positive and add up to `|s|`.
   */
  lemma TallyContents<K>(s: seq<K>)
    ensures Keys(Tally(s)) == Dedup(s)
    ensures forall i :: 0 <= i < |Tally(s)| ==> Tally(s)[i].count == multiset(s)[Tally(s)[i].key] > 0
    ensures SumCounts(Tally(s)) == |s|
  {
    TallyKeys(s);
    TallyCounts(s);
  }

  /** The count of `key` in `s`, through its counter: 0 when `key` never occurs. */
  lemma TallyLookup<K>(s: seq<K>, key: K)
    ensures key in s ==> exists i :: 0 <= i < |Tally(s)| && Tally(s)[i] == Entry(key, multiset(s)[key])
    ensures key !in Keys(Tally(s)) <==> key !in s
  {
    TallyContents(s);
    DedupMembers(s);
    if key in s {
      var ks := Keys(Tally(s));
      var i :| 0 <= i < |ks| && ks[i] == key;
      assert Tally(s)[i] == Entry(key, multiset(s)[key]);
    }
  }

  /** `collections.Counter`: the counts live in an insertion-ordered list of entries that `Update` changes in place. */
  class Counter<K(==)> {
    var entries: seq<Entry<K>>

    ghost predicate Valid()
      reads this
    {
      Distinct(Keys(entries))
    }

    constructor ()
      ensures Valid() && entries == []
    {
      entries := [];
    }

    /** `counter.update(keys)`. */
    method Update(keys: seq<K>)
      requires Valid()
      modifies this
      ensures Valid()
      ensures entries == AddAll(old(entries), keys)
    {
      var i := 0;
      while i < |keys|
        invariant 0 <= i <= |keys|
        invariant Valid()
        invariant AddAll(entries, keys[i..]) == AddAll(old(entries), keys)
      {
        assert keys[i..][1..] == keys[i + 1..];
        entries := Add(entries, keys[i]);
        i := i + 1;
      }
    }
  }

  // ---------------------------------------------------------------------------
  // Stable descending sort by an integer key

  /** `x` placed before the first element whose key is not larger than its own. */
  function InsertDesc<T>(x: T, s: seq<T>, key: T -> int): (r: seq<T>)
    ensures |r| == |s| + 1
  {
    if s == [] || key(s[0]) <= key(x) then [x] + s
    else [s[0]] + InsertDesc(x, s[1..], key)
  }

  lemma {:induction false} InsertDescMembers<T>(x: T, s: seq<T>, key: T -> int)
    ensures forall y :: y in InsertDesc(x, s, key) <==> y == x || y in s
  {
    if s != [] && key(s[0]) > key(x) {
      InsertDescMembers(x, s[1..], key);
      assert s == [s[0]] + s[1..];
    }
  }

  /** Each element of `InsertDesc(x, s, key)` is `x` or an element of `s`. */
  lemma {:induction false} InsertDescElement<T>(x: T, s: seq<T>, key: T -> int, k: nat)
    requires k < |InsertDesc(x, s, key)|
    ensures InsertDesc(x, s, key)[k] == x || exists m :: 0 <= m < |s| && InsertDesc(x, s, key)[k] == s[m]
  {
    if s == [] || key(s[0]) <= key(x) {
      if k > 0 { assert InsertDesc(x, s, key)[k] == s[k - 1]; }
    } else if k > 0 {
      InsertDescElement(x, s[1..], key, k - 1);
      if InsertDesc(x, s[1..], key)[k - 1] != x {
        var m :| 0 <= m < |s[1..]| && InsertDesc(x, s[1..], key)[k - 1] == s[1..][m];
        assert InsertDesc(x, s, key)[k] == s[m + 1];
      }
    } else {
      assert InsertDesc(x, s, key)[0] == s[0];
    }
  }

  /** Stable sort by descending key: what `most_common` does with counts. */
  function SortDesc<T>(s: seq<T>, key: T -> int): (r: seq<T>)
    ensures |r| == |s|
  {
    if s == [] then [] else InsertDesc(s[0], SortDesc(s[1..], key), key)
  }

  lemma {:induction false} SortDescMembers<T>(s: seq<T>, key: T -> int)
    ensures forall y :: y in SortDesc(s, key) <==> y in s
  {
    if s != [] {
      SortDescMembers(s[1..], key);
      InsertDescMembers(s[0], SortDesc(s[1..], key), key);
      assert s == [s[0]] + s[1..];
    }
  }

  predicate NonIncreasing<T>(s: seq<T>, key: T -> int)
  {
    forall i, j :: 0 <= i < j < |s| ==> key(s[i]) >= key(s[j])
  }

  /** The elements of `s` whose key is `c`, in order. */
  function WithKey<T>(s: seq<T>, key: T -> int, c: int): seq<T>
  {
    if s == [] then [] else (if key(s[0]) == c then [s[0]] else []) + WithKey(s[1..], key, c)
  }

  lemma ConsNonIncreasing<T>(x: T, s: seq<T>, key: T -> int)
    requires NonIncreasing(s, key) && forall k :: 0 <= k < |s| ==> key(x) >= key(s[k])
    ensures NonIncreasing([x] + s, key)
  {
    var t := [x] + s;
    forall i, j | 0 <= i < j < |t|
      ensures key(t[i]) >= key(t[j])
    {
      assert t[j] == s[j - 1];
      if i > 0 {
        assert t[i] == s[i - 1];
      }
    }
  }

  lemma {:induction false} InsertDescSorted<T>(x: T, s: seq<T>, key: T -> int)
    requires NonIncreasing(s, key)
    ensures NonIncreasing(InsertDesc(x, s, key), key)
  {
    if s == [] || key(s[0]) <= key(x) {
      ConsNonIncreasing(x, s, key);
    } else {
      InsertDescSorted(x, s[1..], key);
      var r := InsertDesc(x, s[1..], key);
      forall k | 0 <= k < |r|
        ensures key(s[0]) >= key(r[k])
      {
        InsertDescElement(x, s[1..], key, k);
        if r[k] != x {
          var m :| 0 <= m < |s[1..]| && r[k] == s[1..][m];
          assert s[m + 1] == r[k];
        }
      }
      ConsNonIncreasing(s[0], r, key);
    }
  }

  lemma {:induction false} InsertDescPermutation<T>(x: T, s: seq<T>, key: T -> int)
    ensures multiset(InsertDesc(x, s, key)) == multiset(s) + multiset{x}
  {
    if s != [] && key(s[0]) > key(x) {
      InsertDescPermutation(x, s[1..], key);
      assert s == [s[0]] + s[1..];
    }
  }

  lemma {:induction false} SortDescPermutation<T>(s: seq<T>, key: T -> int)
    ensures multiset(SortDesc(s, key)) == multiset(s)
  {
    if s != [] {
      SortDescPermutation(s[1..], key);
      InsertDescPermutation(s[0], SortDesc(s[1..], key), key);
      assert s == [s[0]] + s[1..];
    }
  }

  lemma {:induction false} InsertDescWithKey<T>(x: T, s: seq<T>, key: T -> int, c: int)
    ensures WithKey(InsertDesc(x, s, key), key, c) == (if key(x) == c then [x] else []) + WithKey(s, key, c)
  {
    if s != [] && key(s[0]) > key(x) {
      var rest := InsertDesc(x, s[1..], key);
      InsertDescWithKey(x, s[1..], key, c);
      WithKeyCons(s[0], rest, key, c);
      if key(x) == c {
        assert key(s[0]) != c;
      } else {
        assert [] + WithKey(s[1..], key, c) == WithKey(s[1..], key, c);
      }
    } else {
      WithKeyCons(x, s, key, c);
    }
  }

  lemma WithKeyCons<T>(y: T, t: seq<T>, key: T -> int, c: int)
    ensures WithKey([y] + t, key, c) == (if key(y) == c then [y] else []) + WithKey(t, key, c)
  {
    assert ([y] + t)[1..] == t;
  }

  /**
   * `SortDesc` puts the keys in non-increasing order and keeps, for every
   * key value, the elements with that key in their original order: it is a
   * stable sort.
   */
  lemma {:induction false} SortDescCorrect<T>(s: seq<T>, key: T -> int)
    ensures NonIncreasing(SortDesc(s, key), key)
    ensures forall c :: WithKey(SortDesc(s, key), key, c) == WithKey(s, key, c)
  {
    if s != [] {
      SortDescCorrect(s[1..], key);
      InsertDescSorted(s[0], SortDesc(s[1..], key), key);
      forall c
        ensures WithKey(SortDesc(s, key), key, c) == WithKey(s, key, c)
      {
        InsertDescWithKey(s[0], SortDesc(s[1..], key), key, c);
      }
    }
  }

  lemma {:induction false} WithKeyPrefix<T>(s: seq<T>, n: nat, key: T -> int, c: int)
    requires n <= |s|
    ensures WithKey(s, key, c) == WithKey(s[..n], key, c) + WithKey(s[n..], key, c)
  {
    if n > 0 {
      WithKeyPrefix(s[1..], n - 1, key, c);
      assert s[..n][1..] == s[1..][..n - 1];
      assert s[1..][n - 1..] == s[n..];
    } else {
      assert s[..n] == [];
      assert s[n..] == s;
    }
  }

  function CountOf<K>(e: Entry<K>): int
  {
    e.count
  }

  /** `counter.most_common(n)`: the `n` largest counts first, ties in insertion order. */
  function MostCommon<K>(e: seq<Entry<K>>, n: nat): seq<Entry<K>>
  {
    var sorted := SortDesc(e, CountOf);
    sorted[..if n < |sorted| then n else |sorted|]
  }

  ghost predicate IsPrefix<T>(a: seq<T>, b: seq<T>)
  {
    |a| <= |b| && a == b[..|a|]
  }

  /**
   * `most_common(n)` returns `min(n, |e|)` entries of the counter, with
   * non-increasing counts, and is a sub-multiset of the counter.
   */
  lemma MostCommonSorted<K>(e: seq<Entry<K>>, n: nat)
    ensures |MostCommon(e, n)| == if n < |e| then n else |e|
    ensures NonIncreasing(MostCommon(e, n), CountOf)
    ensures multiset(MostCommon(e, n)) <= multiset(e)
  {
    var sorted := SortDesc(e, CountOf);
    var m := if n < |sorted| then n else |sorted|;
    SortDescCorrect(e, CountOf);
    SortDescPermutation(e, CountOf);
    assert sorted == sorted[..m] + sorted[m..];
    assert multiset(sorted) == multiset(sorted[..m]) + multiset(sorted[m..]);
  }

  /** Every entry `most_common(n)` leaves out has a count no larger than any it returns. */
  lemma MostCommonTop<K>(e: seq<Entry<K>>, n: nat)
    ensures forall x, i :: x in e && x !in MostCommon(e, n) && 0 <= i < |MostCommon(e, n)| ==> x.count <= MostCommon(e, n)[i].count
  {
    var sorted := SortDesc(e, CountOf);
    var m := if n < |sorted| then n else |sorted|;
    var r := sorted[..m];
    SortDescCorrect(e, CountOf);
    SortDescMembers(e, CountOf);
    forall x, i | x in e && x !in r && 0 <= i < |r|
      ensures x.count <= r[i].count
    {
      var k :| 0 <= k < |e| && e[k] == x;
      assert x in sorted;
      var j :| 0 <= j < |sorted| && sorted[j] == x;
      assert forall k :: 0 <= k < m ==> sorted[k] != x;
      assert m <= j;
      assert CountOf(sorted[i]) >= CountOf(sorted[j]);
    }
  }

  /**
   * Ties keep insertion order: for each count value, the entries
   * `most_common(n)` returns with that count are the earliest-inserted ones,
   * a prefix of the counter's own entries with that count.
   */
  lemma MostCommonTies<K>(e: seq<Entry<K>>, n: nat, c: int)
    ensures IsPrefix(WithKey(MostCommon(e, n), CountOf, c), WithKey(e, CountOf, c))
  {
    var sorted := SortDesc(e, CountOf);
    var m := if n < |sorted| then n else |sorted|;
    SortDescCorrect(e, CountOf);
    WithKeyPrefix(sorted, m, CountOf, c);
  }

  /** The counter of `s`, most frequent first, ties in order of first occurrence. */
  function Ranking<K(==)>(s: seq<K>): seq<Entry<K>>
  {
    SortDesc(Tally(s), CountOf)
  }

  /** `Counter(s).most_common()` with no limit returns the whole ranking. */
  lemma RankingIsMostCommon<K>(s: seq<K>)
    ensures Ranking(s) == MostCommon(Tally(s), |Tally(s)|)
  {
    SortDescPermutation(Tally(s), CountOf);
    assert |SortDesc(Tally(s), CountOf)| == |Tally(s)| by {
      assert |multiset(SortDesc(Tally(s), CountOf))| == |multiset(Tally(s))|;
    }
  }

  /** Each entry of the ranking counts the occurrences of its key, a positive number. */
  lemma RankingCounts<K>(s: seq<K>)
    ensures forall i :: 0 <= i < |Ranking(s)| ==> Ranking(s)[i].count == multiset(s)[Ranking(s)[i].key] > 0
  {
    var t := Tally(s);
    var f := Ranking(s);
    TallyCounts(s);
    SortDescPermutation(t, CountOf);
    forall i | 0 <= i < |f|
      ensures f[i].count == multiset(s)[f[i].key] > 0
    {
      assert f[i] in multiset(t);
      var j :| 0 <= j < |t| && t[j] == f[i];
    }
  }

  /** The ranking lists each element of `s` once, and nothing else. */
  lemma RankingKeys<K>(s: seq<K>)
    ensures forall k :: k in Keys(Ranking(s)) <==> k in s
    ensures Distinct(Keys(Ranking(s)))
  {
    TallyContents(s);
    SortDescKeys(Tally(s), CountOf);
    SortDescSameKeys(Tally(s));
    forall k
      ensures k in Keys(Tally(s)) <==> k in s
    {
      TallyLookup(s, k);
    }
  }

  /**
   * What `Counter(s).most_common()` returns: each distinct element of `s`
   * once, with its positive number of occurrences, most frequent first,
   * the counts adding up to `|s|`.
   */
  lemma RankingTable<K>(s: seq<K>)
    ensures forall i :: 0 <= i < |Ranking(s)| ==> Ranking(s)[i].count == multiset(s)[Ranking(s)[i].key] > 0
    ensures Distinct(Keys(Ranking(s)))
    ensures forall k :: k in Keys(Ranking(s)) <==> k in s
    ensures NonIncreasing(Ranking(s), CountOf)
    ensures SumCounts(Ranking(s)) == |s|
  {
    RankingCounts(s);
    RankingKeys(s);
    TallyContents(s);
    SortDescSumCounts(Tally(s));
    SortDescCorrect(Tally(s), CountOf);
  }

  /**
   * Equal counts keep the order in which their elements first occur in
   * `s`: for each count, the ranking's entries with that count are those
   * of the counter, in the counter's order.
   */
  lemma RankingTies<K>(s: seq<K>, c: int)
    ensures Keys(Tally(s)) == Dedup(s)
    ensures IsPrefix(WithKey(Ranking(s), CountOf, c), WithKey(Tally(s), CountOf, c))
  {
    TallyKeys(s);
    RankingIsMostCommon(s);
    MostCommonTies(Tally(s), |Tally(s)|, c);
  }

  /** Reordering a counter's entries keeps the total of its counts. */
  lemma {:induction false} SortDescSumCounts<K>(e: seq<Entry<K>>)
    ensures SumCounts(SortDesc(e, CountOf)) == SumCounts(e)
  {
    if e != [] {
      SortDescSumCounts(e[1..]);
      InsertDescSumCounts(e[0], SortDesc(e[1..], CountOf));
    }
  }

  lemma {:induction false} InsertDescSumCounts<K>(x: Entry<K>, s: seq<Entry<K>>)
    ensures SumCounts(InsertDesc(x, s, CountOf)) == x.count + SumCounts(s)
  {
    if s == [] || CountOf(s[0]) <= CountOf(x) {
      assert ([x] + s)[1..] == s;
    } else {
      InsertDescSumCounts(x, s[1..]);
      assert ([s[0]] + InsertDesc(x, s[1..], CountOf))[1..] == InsertDesc(x, s[1..], CountOf);
    }
  }

  /** Reordering a counter's entries keeps each key once. */
  lemma {:induction false} SortDescKeys<K>(e: seq<Entry<K>>, key: Entry<K> -> int)
    requires Distinct(Keys(e))
    ensures Distinct(Keys(SortDesc(e, key)))
  {
    if e != [] {
      KeysTail(e);
      SortDescKeys(e[1..], key);
      var r := SortDesc(e[1..], key);
      SortDescMembers(e[1..], key);
      KeyNotIn(e[0].key, r, e[1..]);
      InsertDescKeys(e[0], r, key);
    }
  }

  lemma {:induction false} InsertDescKeys<K>(x: Entry<K>, s: seq<Entry<K>>, key: Entry<K> -> int)
    requires Distinct(Keys(s)) && x.key !in Keys(s)
    ensures Distinct(Keys(InsertDesc(x, s, key)))
  {
    if s == [] || key(s[0]) <= key(x) {
      KeysCons(x, s);
    } else {
      KeysTail(s);
      var r := InsertDesc(x, s[1..], key);
      InsertDescKeys(x, s[1..], key);
      InsertDescMembers(x, s[1..], key);
      assert Keys(s)[0] == s[0].key;
      KeyNotIn(s[0].key, r, s[1..]);
      KeysCons(s[0], r);
    }
  }

  /** Reordering a counter's entries keeps its set of keys. */
  lemma SortDescSameKeys<K>(e: seq<Entry<K>>)
    ensures forall k :: k in Keys(SortDesc(e, CountOf)) <==> k in Keys(e)
  {
    var r := SortDesc(e, CountOf);
    SortDescMembers(e, CountOf);
    forall k | k in Keys(r)
      ensures k in Keys(e)
    {
      var i :| 0 <= i < |r| && Keys(r)[i] == k;
      assert r[i] in r;
      var j :| 0 <= j < |e| && e[j] == r[i];
      assert Keys(e)[j] == k;
    }
    forall k | k in Keys(e)
      ensures k in Keys(r)
    {
      var j :| 0 <= j < |e| && Keys(e)[j] == k;
      assert e[j] in e;
      var i :| 0 <= i < |r| && r[i] == e[j];
      assert Keys(r)[i] == k;
    }
  }

  /** A key absent from `s` is absent from entries drawn from `s` or carrying other keys. */
  lemma KeyNotIn<K>(k: K, r: seq<Entry<K>>, s: seq<Entry<K>>)
    requires k !in Keys(s)
    requires forall j :: 0 <= j < |r| ==> r[j] in s || r[j].key != k
    ensures k !in Keys(r)
  {
    forall j | 0 <= j < |r| && r[j] in s
      ensures r[j].key != k
    {
      var i :| 0 <= i < |s| && s[i] == r[j];
      assert Keys(s)[i] == r[j].key;
    }
  }

  // ---------------------------------------------------------------------------
  // sorted() on integers

  predicate Ascending(s: seq<int>)
  {
    forall i, j :: 0 <= i < j < |s| ==> s[i] <= s[j]
  }

  predicate StrictlyAscending(s: seq<int>)
  {
    forall i, j :: 0 <= i < j < |s| ==> s[i] < s[j]
  }

  function InsertAsc(x: int, s: seq<int>): (r: seq<int>)
    ensures |r| == |s| + 1
    ensures forall y :: y in r <==> y == x || y in s
  {
    if s == [] || x <= s[0] then [x] + s else [s[0]] + InsertAsc(x, s[1..])
  }

  /** Python's `sorted` on a list of integers. */
  function Sort(s: seq<int>): (r: seq<int>)
    ensures |r| == |s|
    ensures forall y :: y in r <==> y in s
  {
    if s == [] then [] else InsertAsc(s[0], Sort(s[1..]))
  }

  lemma ConsAscending(x: int, s: seq<int>)
    requires Ascending(s) && forall k :: 0 <= k < |s| ==> x <= s[k]
    ensures Ascending([x] + s)
  {
    var t := [x] + s;
    forall i, j | 0 <= i < j < |t|
      ensures t[i] <= t[j]
    {
      assert t[j] == s[j - 1];
      if i > 0 {
        assert t[i] == s[i - 1];
      }
    }
  }

  lemma ConsStrictlyAscending(x: int, s: seq<int>)
    requires StrictlyAscending(s) && forall k :: 0 <= k < |s| ==> x < s[k]
    ensures StrictlyAscending([x] + s)
  {
    var t := [x] + s;
    forall i, j | 0 <= i < j < |t|
      ensures t[i] < t[j]
    {
      assert t[j] == s[j - 1];
      if i > 0 {
        assert t[i] == s[i - 1];
      }
    }
  }

  lemma {:induction false} InsertAscSorted(x: int, s: seq<int>)
    requires Ascending(s)
    ensures Ascending(InsertAsc(x, s))
  {
    if s == [] || x <= s[0] {
      ConsAscending(x, s);
    } else {
      InsertAscSorted(x, s[1..]);
      var r := InsertAsc(x, s[1..]);
      forall k | 0 <= k < |r|
        ensures s[0] <= r[k]
      {
        assert r[k] in r;
        if r[k] != x {
          var m :| 0 <= m < |s[1..]| && s[1..][m] == r[k];
          assert s[m + 1] == r[k];
        }
      }
      ConsAscending(s[0], r);
    }
  }

  lemma {:induction false} InsertAscPermutation(x: int, s: seq<int>)
    ensures multiset(InsertAsc(x, s)) == multiset(s) + multiset{x}
  {
    if s != [] && x > s[0] {
      InsertAscPermutation(x, s[1..]);
      assert s == [s[0]] + s[1..];
    }
  }

  /** `sorted` returns its input in ascending order: a permutation that is sorted. */
  lemma {:induction false} SortCorrect(s: seq<int>)
    ensures Ascending(Sort(s)) && multiset(Sort(s)) == multiset(s)
  {
    if s != [] {
      SortCorrect(s[1..]);
      InsertAscSorted(s[0], Sort(s[1..]));
      InsertAscPermutation(s[0], Sort(s[1..]));
      assert s == [s[0]] + s[1..];
    }
  }

  /** Two ascending lists with the same elements are equal: sorting depends only on the multiset. */
  lemma AscendingTail(a: seq<int>)
    requires Ascending(a) && a != []
    ensures Ascending(a[1..])
  {
    var t := a[1..];
    forall i, j | 0 <= i < j < |t|
      ensures t[i] <= t[j]
    {
      assert t[i] == a[i + 1] && t[j] == a[j + 1];
    }
  }

  lemma StrictlyAscendingTail(a: seq<int>)
    requires StrictlyAscending(a) && a != []
    ensures StrictlyAscending(a[1..])
  {
    var t := a[1..];
    forall i, j | 0 <= i < j < |t|
      ensures t[i] < t[j]
    {
      assert t[i] == a[i + 1] && t[j] == a[j + 1];
    }
  }

  /** The first element of an ascending list is its smallest, so two with the same elements share it. */
  lemma AscendingHeads(a: seq<int>, b: seq<int>)
    requires Ascending(a) && Ascending(b) && multiset(a) == multiset(b) && a != []
    ensures b != [] && a[0] == b[0]
  {
    assert a[0] in multiset(b);
    var i :| 0 <= i < |b| && b[i] == a[0];
    assert b[0] in multiset(a);
    var j :| 0 <= j < |a| && a[j] == b[0];
    assert a[0] <= a[j] && b[0] <= b[i];
  }

  lemma {:induction false} AscendingUnique(a: seq<int>, b: seq<int>)
    requires Ascending(a) && Ascending(b) && multiset(a) == multiset(b)
    ensures a == b
  {
    if a == [] {
      assert |multiset(b)| == 0;
    } else {
      AscendingHeads(a, b);
      assert a == [a[0]] + a[1..] && b == [b[0]] + b[1..];
      assert multiset(a[1..]) == multiset(b[1..]) by {
        assert multiset(a) == multiset{a[0]} + multiset(a[1..]);
        assert multiset(b) == multiset{b[0]} + multiset(b[1..]);
        forall z
          ensures multiset(a[1..])[z] == multiset(b[1..])[z]
        {
          assert multiset(a)[z] == multiset(b)[z];
        }
      }
      AscendingTail(a);
      AscendingTail(b);
      AscendingUnique(a[1..], b[1..]);
    }
  }

  /** `sorted` gives the same list for any reordering of its input. */
  lemma SortPermutationInvariant(a: seq<int>, b: seq<int>)
    requires multiset(a) == multiset(b)
    ensures Sort(a) == Sort(b)
  {
    SortCorrect(a);
    SortCorrect(b);
    AscendingUnique(Sort(a), Sort(b));
  }

  lemma {:induction false} MultiplicityOne<T>(s: seq<T>, x: T)
    requires Distinct(s)
    ensures multiset(s)[x] <= 1
  {
    if s != [] {
      MultiplicityOne(s[1..], x);
      assert s == [s[0]] + s[1..];
      if s[0] == x {
        assert x !in s[1..];
      }
    }
  }

  lemma {:induction false} MultiplicityTwo<T>(s: seq<T>, i: nat, j: nat)
    requires i < j < |s| && s[i] == s[j]
    ensures multiset(s)[s[i]] >= 2
  {
    assert s == s[..i] + [s[i]] + s[i + 1..j] + [s[j]] + s[j + 1..];
  }

  /** Sorting a list without repeats gives a strictly ascending list without repeats. */
  lemma SortDistinct(s: seq<int>)
    requires Distinct(s)
    ensures StrictlyAscending(Sort(s)) && Distinct(Sort(s))
  {
    var r := Sort(s);
    SortCorrect(s);
    MultiplicityOne(s, 0);
    forall i, j | 0 <= i < j < |r|
      ensures r[i] < r[j]
    {
      if r[i] == r[j] {
        MultiplicityTwo(r, i, j);
        MultiplicityOne(s, r[i]);
      }
    }
  }

  lemma DistinctCardinality<T>(s: seq<T>)
    requires Distinct(s)
    ensures |set x | x in s| == |s|
  {
    if s != [] {
      var t := s[1..];
      DistinctCardinality(t);
      assert (set x | x in s) == (set x | x in t) + {s[0]};
    }
  }

  // ---------------------------------------------------------------------------
  // A table of counts over given keys (value_counts aligned on an index, zeros filled)

  /** The count of each of `keys` in `s`, zero for the keys that do not occur. */
  function CountsAt<T(==)>(keys: seq<T>, s: seq<T>): (r: seq<Entry<T>>)
    ensures |r| == |keys|
    ensures forall i :: 0 <= i < |r| ==> r[i] == Entry(keys[i], multiset(s)[keys[i]])
  {
    if keys == [] then [] else [Entry(keys[0], multiset(s)[keys[0]])] + CountsAt(keys[1..], s)
  }

  /** One more element adds one to the table's total exactly when it is one of the keys. */
  lemma {:induction false} CountsAtSnoc<T>(keys: seq<T>, s: seq<T>, x: T)
    requires Distinct(keys)
    ensures SumCounts(CountsAt(keys, s + [x])) == SumCounts(CountsAt(keys, s)) + if x in keys then 1 else 0
  {
    if keys != [] {
      DistinctTail(keys);
      CountsAtSnoc(keys[1..], s, x);
      CountsAtHead(keys, s + [x]);
      CountsAtHead(keys, s);
      assert multiset(s + [x])[keys[0]] == multiset(s)[keys[0]] + if x == keys[0] then 1 else 0 by {
        assert multiset(s + [x]) == multiset(s) + multiset{x};
      }
    }
  }

  /** The total of a table over non-empty keys: the first key's count and the rest. */
  lemma CountsAtHead<T>(keys: seq<T>, s: seq<T>)
    requires keys != []
    ensures SumCounts(CountsAt(keys, s)) == multiset(s)[keys[0]] + SumCounts(CountsAt(keys[1..], s))
  {
  }

  /** The tail of a list without repeats has none either and lacks the head. */
  lemma DistinctTail<T>(s: seq<T>)
    requires Distinct(s) && s != []
    ensures Distinct(s[1..]) && s[0] !in s[1..]
    ensures forall x :: x in s <==> x == s[0] || x in s[1..]
  {
    assert s == [s[0]] + s[1..];
    forall i, j | 0 <= i < j < |s[1..]| ensures s[1..][i] != s[1..][j] {
      assert s[1..][i] == s[i + 1] && s[1..][j] == s[j + 1];
    }
    forall i | 0 <= i < |s[1..]| ensures s[1..][i] != s[0] {
      assert s[1..][i] == s[i + 1];
    }
  }

  /** The table lists exactly the given keys, in their order. */
  lemma KeysCountsAt<T>(keys: seq<T>, s: seq<T>)
    ensures Keys(CountsAt(keys, s)) == keys
  {
  }

  /**
   * When every element of `s` is one of the (distinct) keys, the counts over
   * the keys add up to the length of `s`.
   */
  lemma {:induction false} CountsAtTotal<T>(keys: seq<T>, s: seq<T>)
    requires Distinct(keys)
    requires forall i :: 0 <= i < |s| ==> s[i] in keys
    ensures SumCounts(CountsAt(keys, s)) == |s|
  {
    if s == [] {
      CountsAtEmpty(keys, s);
    } else {
      var init, x := s[..|s| - 1], s[|s| - 1];
      assert forall i :: 0 <= i < |init| ==> init[i] in keys by {
        forall i | 0 <= i < |init|
          ensures init[i] in keys
        {
          assert init[i] == s[i];
        }
      }
      assert x in keys;
      CountsAtTotal(keys, init);
      assert init + [x] == s;
      CountsAtSnoc(keys, init, x);
      assert SumCounts(CountsAt(keys, s)) == SumCounts(CountsAt(keys, init)) + 1;
    }
  }

  lemma {:induction false} CountsAtEmpty<T>(keys: seq<T>, s: seq<T>)
    requires s == []
    ensures SumCounts(CountsAt(keys, s)) == 0
  {
    if keys != [] {
      CountsAtEmpty(keys[1..], s);
    }
  }
}
