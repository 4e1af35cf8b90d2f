/**
 * The recurrence-span analysis of `loto6_app.py`: the draws are scanned
 * oldest first, number by number; whenever a number has been seen before,
 * the distance in draws since its last sighting is recorded, both for that
 * number and in one list of all spans.
 */
module Loto6Spans {
  import opened Wrappers
  import opened Counting
  import opened Loto6Draws

  /** `history[::-1]`: oldest draw first. */
  function Reverse<T>(s: seq<T>): (r: seq<T>)
    ensures |r| == |s| && forall i :: 0 <= i < |s| ==> r[i] == s[|s| - 1 - i]
  {
    if s == [] then [] else Reverse(s[1..]) + [s[0]]
  }

  /** The scan visits `num` while at draw `idx`. */
  datatype Event = Event(idx: nat, num: int)

  /** The state of the scan: `last_seen`, `span_dict` and `span_result`. */
  datatype SpanState = SpanState(lastSeen: map<int, int>, spans: map<int, seq<int>>, all: seq<int>)

  /** `span_dict` starts with an empty list for each of 1 .. 43, `last_seen` and `span_result` empty. */
  function Initial(): SpanState
  {
    SpanState(map[], map n | MinBall <= n <= MaxBall && IsBall(n) :: [], [])
  }

  /**
   * One visit: a number seen before gets the distance to its last sighting
   * recorded (`span_dict[num]` raises `KeyError` for a number outside
   * 1 .. 43, which ends the scan with that number); then its last sighting
   * becomes this draw.
   */
  function Step(st: SpanState, e: Event): Result<SpanState, int>
  {
    if e.num in st.lastSeen then
      var span := e.idx - st.lastSeen[e.num];
      if e.num !in st.spans then Err(e.num)
      else Ok(SpanState(st.lastSeen[e.num := e.idx], st.spans[e.num := st.spans[e.num] + [span]], st.all + [span]))
    else Ok(st.(lastSeen := st.lastSeen[e.num := e.idx]))
  }

  /** The scan over a sequence of visits, stopping at the first error. */
  function Scan(ev: seq<Event>): Result<SpanState, int>
  {
    if ev == [] then Ok(Initial())
    else match Scan(ev[..|ev| - 1])
      case Err(n) => Err(n)
      case Ok(st) => Step(st, ev[|ev| - 1])
  }

  /** The visits of one draw, in the order its numbers are listed. */
  function RowEvents(idx: nat, nums: seq<int>): (r: seq<Event>)
    ensures |r| == |nums| && forall j :: 0 <= j < |nums| ==> r[j] == Event(idx, nums[j])
  {
    if nums == [] then [] else RowEvents(idx, nums[..|nums| - 1]) + [Event(idx, nums[|nums| - 1])]
  }

  /** The visits of the whole scan, draw by draw. */
  function Events(series: History): seq<Event>
  {
    if series == [] then [] else Events(series[..|series| - 1]) + RowEvents(|series| - 1, series[|series| - 1])
  }

  lemma {:induction false} ScanErrSticks(ev: seq<Event>, more: seq<Event>)
    requires Scan(ev).Err?
    ensures Scan(ev + more) == Scan(ev)
    decreases |more|
  {
    if more != [] {
      var init := more[..|more| - 1];
      ScanErrSticks(ev, init);
      var whole := ev + more;
      assert whole[..|whole| - 1] == ev + init;
    } else {
      assert ev + more == ev;
    }
  }

  lemma ScanSnoc(ev: seq<Event>, e: Event, st: SpanState)
    requires Scan(ev) == Ok(st)
    ensures Scan(ev + [e]) == Step(st, e)
  {
    assert (ev + [e])[..|ev|] == ev;
  }

  lemma RowEventsSnoc(idx: nat, nums: seq<int>, j: nat)
    requires j < |nums|
    ensures RowEvents(idx, nums[..j + 1]) == RowEvents(idx, nums[..j]) + [Event(idx, nums[j])]
  {
    assert nums[..j + 1][..j] == nums[..j];
  }

  lemma RowEventsSplit(idx: nat, nums: seq<int>, j: nat)
    requires j <= |nums|
    ensures RowEvents(idx, nums) == RowEvents(idx, nums[..j]) + RowEvents(idx, nums[j..])
  {
  }

  lemma RowStep(before: seq<Event>, idx: nat, nums: seq<int>, j: nat, st: SpanState)
    requires j < |nums|
    requires Scan(before + RowEvents(idx, nums[..j])) == Ok(st)
    ensures Scan(before + RowEvents(idx, nums[..j + 1])) == Step(st, Event(idx, nums[j]))
  {
    var ev := before + RowEvents(idx, nums[..j]);
    RowEventsSnoc(idx, nums, j);
    assert before + RowEvents(idx, nums[..j + 1]) == ev + [Event(idx, nums[j])];
    ScanSnoc(ev, Event(idx, nums[j]), st);
  }

  lemma RowErr(before: seq<Event>, idx: nat, nums: seq<int>, j: nat)
    requires j <= |nums|
    requires Scan(before + RowEvents(idx, nums[..j])).Err?
    ensures Scan(before + RowEvents(idx, nums)) == Scan(before + RowEvents(idx, nums[..j]))
  {
    RowEventsSplit(idx, nums, j);
    AppendAssoc(before, RowEvents(idx, nums[..j]), RowEvents(idx, nums[j..]));
    ScanErrSticks(before + RowEvents(idx, nums[..j]), RowEvents(idx, nums[j..]));
  }

  lemma AppendAssoc<T>(a: seq<T>, b: seq<T>, c: seq<T>)
    ensures a + (b + c) == (a + b) + c
  {
  }

  /** The visits of the first `a` draws come first. */
  lemma {:induction false} EventsPrefix(series: History, a: nat) returns (tail: seq<Event>)
    requires a <= |series|
    ensures Events(series) == Events(series[..a]) + tail
    decreases |series| - a
  {
    if a == |series| {
      assert series[..a] == series;
      tail := [];
    } else {
      var n := |series|;
      var init := series[..n - 1];
      var t := EventsPrefix(init, a);
      assert init[..a] == series[..a];
      tail := t + RowEvents(n - 1, series[n - 1]);
    }
  }

  lemma EventsSnoc(series: History, idx: nat)
    requires idx < |series|
    ensures Events(series[..idx + 1]) == Events(series[..idx]) + RowEvents(idx, series[idx])
  {
    assert series[..idx + 1][..idx] == series[..idx];
  }

  /** Once the scan of the first `a` draws has failed, the whole scan fails the same way. */
  lemma ScanErrPrefix(series: History, a: nat)
    requires a <= |series| && Scan(Events(series[..a])).Err?
    ensures Scan(Events(series)) == Scan(Events(series[..a]))
  {
    var tail := EventsPrefix(series, a);
    ScanErrSticks(Events(series[..a]), tail);
  }

  /**
   * The outer loop of the scan, over the draws oldest first; the result is
   * the scan of all the visits.
   */
  method SpanScan(history: History) returns (r: Result<SpanState, int>)
    ensures r == Scan(Events(Reverse(history)))
  {
    var series := Reverse(history);
    var lastSeen: map<int, int> := map[];
    var spans: map<int, seq<int>> := map n | MinBall <= n <= MaxBall && IsBall(n) :: [];
    var all: seq<int> := [];
    var idx := 0;
    while idx < |series|
      invariant 0 <= idx <= |series|
      invariant Scan(Events(series[..idx])) == Ok(SpanState(lastSeen, spans, all))
    {
      EventsSnoc(series, idx);
      var row := ScanRow(idx, series[idx], Events(series[..idx]), lastSeen, spans, all);
      if row.Err? {
        ScanErrPrefix(series, idx + 1);
        return row;
      }
      lastSeen, spans, all := row.value.lastSeen, row.value.spans, row.value.all;
      idx := idx + 1;
    }
    assert series[..|series|] == series;
    r := Ok(SpanState(lastSeen, spans, all));
  }

  /**
   * The inner loop, over the numbers of one draw, updating `last_seen`,
   * `span_dict` and `span_result` in turn.
   */
  method ScanRow(idx: nat, numbers: Draw, ghost before: seq<Event>,
                 lastSeen0: map<int, int>, spans0: map<int, seq<int>>, all0: seq<int>)
    returns (r: Result<SpanState, int>)
    requires Scan(before) == Ok(SpanState(lastSeen0, spans0, all0))
    ensures r == Scan(before + RowEvents(idx, numbers))
  {
    var lastSeen, spans, all := lastSeen0, spans0, all0;
    var j := 0;
    assert before + RowEvents(idx, numbers[..0]) == before;
    while j < |numbers|
      invariant 0 <= j <= |numbers|
      invariant Scan(before + RowEvents(idx, numbers[..j])) == Ok(SpanState(lastSeen, spans, all))
    {
      RowStep(before, idx, numbers, j, SpanState(lastSeen, spans, all));
      var visit := Visit(idx, numbers[j], lastSeen, spans, all);
      if visit.Err? {
        r := visit;
        RowErr(before, idx, numbers, j + 1);
        return;
      }
      lastSeen, spans, all := visit.value.lastSeen, visit.value.spans, visit.value.all;
      j := j + 1;
    }
    assert numbers[..|numbers|] == numbers;
    r := Ok(SpanState(lastSeen, spans, all));
  }

  /**
   * The body of the inner loop for one number: the span since its last
   * sighting is appended to its list and to `span_result` when it was seen
   * before, and its last sighting becomes this draw.
   */
  method Visit(idx: nat, num: int, lastSeen0: map<int, int>, spans0: map<int, seq<int>>, all0: seq<int>)
    returns (r: Result<SpanState, int>)
    ensures r == Step(SpanState(lastSeen0, spans0, all0), Event(idx, num))
  {
    var lastSeen, spans, all := lastSeen0, spans0, all0;
    if num in lastSeen {
      var span := idx - lastSeen[num];
      if num !in spans {
        return Err(num);
      }
      spans := spans[num := spans[num] + [span]];
      all := all + [span];
    }
    lastSeen := lastSeen[num := idx];
    r := Ok(SpanState(lastSeen, spans, all));
  }

  /** How many times the scan visits `n`. */
  function Occ(ev: seq<Event>, n: int): nat
  {
    if ev == [] then 0 else Occ(ev[..|ev| - 1], n) + (if ev[|ev| - 1].num == n then 1 else 0)
  }

  /** The draw of the latest visit of `n`. */
  function LastIdx(ev: seq<Event>, n: int): nat
    requires Occ(ev, n) > 0
  {
    if ev[|ev| - 1].num == n then ev[|ev| - 1].idx else LastIdx(ev[..|ev| - 1], n)
  }

  /** The draws of the visits of `n`, in scan order. */
  function Visits(ev: seq<Event>, n: int): (r: seq<nat>)
    ensures |r| == Occ(ev, n)
  {
    if ev == [] then [] else Visits(ev[..|ev| - 1], n) + (if ev[|ev| - 1].num == n then [ev[|ev| - 1].idx] else [])
  }

  /** The distances between consecutive entries of `a`. */
  function Gaps(a: seq<int>): (r: seq<int>)
    ensures |r| == if a == [] then 0 else |a| - 1
  {
    if a == [] then [] else seq(|a| - 1, j requires 0 <= j < |a| - 1 => a[j + 1] - a[j])
  }

  /** One more entry adds its distance from the previous last entry. */
  lemma GapsSnoc(a: seq<int>, x: int)
    ensures a == [] ==> Gaps(a + [x]) == []
    ensures a != [] ==> Gaps(a + [x]) == Gaps(a) + [x - a[|a| - 1]]
  {
    if a != [] {
      var b := a + [x];
      assert forall j :: 0 <= j < |a| - 1 ==> Gaps(b)[j] == Gaps(a)[j];
    }
  }

  lemma VisitsSnoc(ev: seq<Event>, e: Event, n: int)
    ensures Visits(ev + [e], n) == Visits(ev, n) + (if e.num == n then [e.idx] else [])
  {
    assert (ev + [e])[..|ev|] == ev;
  }

  /** The last visit of `n` is in the draw `LastIdx` names. */
  lemma {:induction false} VisitsLast(ev: seq<Event>, n: int)
    requires Occ(ev, n) > 0
    ensures Visits(ev, n)[|Visits(ev, n)| - 1] == LastIdx(ev, n)
  {
    if ev[|ev| - 1].num != n {
      VisitsLast(ev[..|ev| - 1], n);
    }
  }

  lemma OccSnoc(ev: seq<Event>, e: Event)
    ensures forall n :: Occ(ev + [e], n) == Occ(ev, n) + (if e.num == n then 1 else 0)
    ensures forall n :: Occ(ev + [e], n) > 0 ==>
      LastIdx(ev + [e], n) == if e.num == n then e.idx else LastIdx(ev, n)
  {
    assert (ev + [e])[..|ev|] == ev;
  }

  /** The latest visit of `n` is one of the visits. */
  lemma {:induction false} LastIdxVisit(ev: seq<Event>, n: int) returns (p: nat)
    requires Occ(ev, n) > 0
    ensures p < |ev| && ev[p].num == n && ev[p].idx == LastIdx(ev, n)
  {
    if ev[|ev| - 1].num == n {
      p := |ev| - 1;
    } else {
      p := LastIdxVisit(ev[..|ev| - 1], n);
    }
  }

  /** Draw indices never decrease along the scan. */
  predicate Monotone(ev: seq<Event>)
  {
    forall p, q :: 0 <= p < q < |ev| ==> ev[p].idx <= ev[q].idx
  }

  /** No visit of `n` is in a later draw than its latest visit. */
  lemma {:induction false} LastIdxMax(ev: seq<Event>, n: int, p: nat)
    requires Monotone(ev) && p < |ev| && ev[p].num == n
    ensures Occ(ev, n) > 0 && ev[p].idx <= LastIdx(ev, n)
  {
    var init := ev[..|ev| - 1];
    if p < |ev| - 1 {
      assert init[p] == ev[p];
      LastIdxMax(init, n, p);
    }
  }

  /** A number never comes back within one draw: repeated visits are in strictly later draws. */
  predicate Ordered(ev: seq<Event>)
  {
    forall p, q :: 0 <= p < q < |ev| && ev[p].num == ev[q].num ==> ev[p].idx < ev[q].idx
  }

  predicate Balls(ev: seq<Event>)
  {
    forall p :: 0 <= p < |ev| ==> IsBall(ev[p].num)
  }

  /**
   * What the scan state means after the visits `ev`: `last_seen` holds
   * exactly the numbers visited, each with the draw of its latest visit;
   * `span_dict` keeps the keys 1 .. 43, and a number visited k times has
   * k - 1 spans, the distances between the draws of its consecutive
   * visits; every visit either records a span or adds a new key to
   * `last_seen`.
   */
  ghost predicate Inv(ev: seq<Event>, st: SpanState)
  {
    SeenInv(ev, st) && SpansInv(ev, st) && GapsInv(ev, st) && |st.all| + |st.lastSeen| == |ev| && PoolInv(st)
  }

  /** The spans of each number are the distances between the draws of its consecutive visits. */
  ghost predicate GapsInv(ev: seq<Event>, st: SpanState)
  {
    forall n :: n in st.spans ==> st.spans[n] == Gaps(Visits(ev, n))
  }

  /** `last_seen` holds exactly the visited numbers, each with the draw of its latest visit. */
  ghost predicate SeenInv(ev: seq<Event>, st: SpanState)
  {
    (forall n :: n in st.lastSeen <==> Occ(ev, n) > 0) &&
    (forall n :: n in st.lastSeen ==> Occ(ev, n) > 0 && st.lastSeen[n] == LastIdx(ev, n))
  }

  /** `span_dict` keeps the keys 1 .. 43, and a number visited k > 0 times has k - 1 spans. */
  ghost predicate SpansInv(ev: seq<Event>, st: SpanState)
  {
    (forall n :: n in st.spans <==> IsBall(n)) &&
    (forall n :: n in st.spans ==> |st.spans[n]| + (if Occ(ev, n) > 0 then 1 else 0) == Occ(ev, n))
  }

  /** `span_result` pools the spans of all numbers. */
  predicate PoolInv(st: SpanState)
  {
    multiset(st.all) == Pooled(st.spans, AllBalls())
  }

  /** The spans of the numbers `keys` taken together. */
  function Pooled(spans: map<int, seq<int>>, keys: seq<int>): multiset<int>
  {
    if keys == [] then multiset{}
    else (if keys[0] in spans then multiset(spans[keys[0]]) else multiset{}) + Pooled(spans, keys[1..])
  }

  /** Appending a span to the list of one number adds it to the pool once when the keys are distinct. */
  lemma {:induction false} PooledAppend(spans: map<int, seq<int>>, k: int, v: int, keys: seq<int>)
    requires k in spans && Distinct(keys)
    ensures Pooled(spans[k := spans[k] + [v]], keys) == Pooled(spans, keys) + (if k in keys then multiset{v} else multiset{})
  {
    if keys != [] {
      DistinctTail(keys);
      PooledAppend(spans, k, v, keys[1..]);
      PooledHead(spans[k := spans[k] + [v]], keys);
      PooledHead(spans, keys);
    }
  }

  lemma PooledHead(spans: map<int, seq<int>>, keys: seq<int>)
    requires keys != []
    ensures Pooled(spans, keys) == (if keys[0] in spans then multiset(spans[keys[0]]) else multiset{}) + Pooled(spans, keys[1..])
  {
  }

  /** Keys whose lists are all empty pool nothing. */
  lemma {:induction false} PooledEmpty(spans: map<int, seq<int>>, keys: seq<int>)
    requires forall i :: 0 <= i < |keys| && keys[i] in spans ==> spans[keys[i]] == []
    ensures Pooled(spans, keys) == multiset{}
  {
    if keys != [] {
      PooledEmpty(spans, keys[1..]);
    }
  }

  lemma InitialInv()
    ensures Inv([], Initial()) && Positive(Initial())
  {
    PooledEmpty(Initial().spans, AllBalls());
  }

  /** Every recorded span is a positive number of draws. */
  predicate Positive(st: SpanState)
  {
    (forall k :: 0 <= k < |st.all| ==> st.all[k] > 0) &&
    (forall n, k :: n in st.spans && 0 <= k < |st.spans[n]| ==> st.spans[n][k] > 0)
  }

  lemma StepInv(ev: seq<Event>, e: Event, st: SpanState)
    requires Inv(ev, st) && IsBall(e.num)
    ensures Step(st, e).Ok? && Inv(ev + [e], Step(st, e).value)
  {
    OccSnoc(ev, e);
    StepSeen(ev, e, st);
    StepSpans(ev, e, st);
    StepGaps(ev, e, st);
    StepPool(e, st);
  }

  lemma StepSeen(ev: seq<Event>, e: Event, st: SpanState)
    requires SeenInv(ev, st) && SpansInv(ev, st) && IsBall(e.num)
    requires forall n :: Occ(ev + [e], n) == Occ(ev, n) + (if e.num == n then 1 else 0)
    requires forall n :: Occ(ev + [e], n) > 0 ==> LastIdx(ev + [e], n) == if e.num == n then e.idx else LastIdx(ev, n)
    ensures Step(st, e).Ok? && SeenInv(ev + [e], Step(st, e).value)
  {
  }

  lemma StepSpans(ev: seq<Event>, e: Event, st: SpanState)
    requires SeenInv(ev, st) && SpansInv(ev, st) && IsBall(e.num)
    requires forall n :: Occ(ev + [e], n) == Occ(ev, n) + (if e.num == n then 1 else 0)
    ensures Step(st, e).Ok? && SpansInv(ev + [e], Step(st, e).value)
  {
  }

  lemma StepGaps(ev: seq<Event>, e: Event, st: SpanState)
    requires SeenInv(ev, st) && SpansInv(ev, st) && GapsInv(ev, st) && IsBall(e.num)
    ensures Step(st, e).Ok? && GapsInv(ev + [e], Step(st, e).value)
  {
    var next := Step(st, e).value;
    forall n | n in next.spans ensures next.spans[n] == Gaps(Visits(ev + [e], n)) {
      VisitsSnoc(ev, e, n);
      if n == e.num {
        var a := Visits(ev, n);
        GapsSnoc(a, e.idx);
        if n in st.lastSeen {
          VisitsLast(ev, n);
        }
      }
    }
  }

  lemma StepPool(e: Event, st: SpanState)
    requires PoolInv(st) && e.num in st.spans && IsBall(e.num)
    ensures Step(st, e).Ok? && PoolInv(Step(st, e).value)
  {
    AllBallsMembers(e.num);
    StepPooled(e, st, AllBalls());
  }

  lemma StepPooled(e: Event, st: SpanState, keys: seq<int>)
    requires multiset(st.all) == Pooled(st.spans, keys) && e.num in st.spans && e.num in keys && Distinct(keys)
    ensures Step(st, e).Ok? && multiset(Step(st, e).value.all) == Pooled(Step(st, e).value.spans, keys)
  {
    var next := Step(st, e).value;
    if e.num in st.lastSeen {
      var span := e.idx - st.lastSeen[e.num];
      assert next.all == st.all + [span];
      assert next.spans == st.spans[e.num := st.spans[e.num] + [span]];
      PooledAppend(st.spans, e.num, span, keys);
      assert multiset(next.all) == multiset(st.all) + multiset{span};
    } else {
      assert next.all == st.all && next.spans == st.spans;
    }
  }

  lemma StepPositive(ev: seq<Event>, e: Event, st: SpanState)
    requires SeenInv(ev, st) && SpansInv(ev, st) && Positive(st) && IsBall(e.num) && Ordered(ev + [e])
    ensures Step(st, e).Ok? && Positive(Step(st, e).value)
  {
    if e.num in st.lastSeen {
      var p := LastIdxVisit(ev, e.num);
      var whole := ev + [e];
      assert whole[p] == ev[p] && whole[|ev|] == e;
    }
  }

  /**
   * A scan over numbers that are all balls never fails, and its state
   * means what `Inv` says; when no number comes back within a draw, every
   * span is positive.
   */
  lemma {:induction false} ScanInvariant(ev: seq<Event>)
    requires Balls(ev)
    ensures Scan(ev).Ok? && Inv(ev, Scan(ev).value)
    ensures Ordered(ev) ==> Positive(Scan(ev).value)
  {
    if ev == [] {
      InitialInv();
    } else {
      var init, e := ev[..|ev| - 1], ev[|ev| - 1];
      assert ev == init + [e];
      assert Balls(init) by {
        forall p | 0 <= p < |init| ensures IsBall(init[p].num) {
          assert init[p] == ev[p];
        }
      }
      ScanInvariant(init);
      var st := Scan(init).value;
      ScanSnoc(init, e, st);
      StepInv(init, e, st);
      if Ordered(ev) {
        assert Ordered(init) by {
          forall p, q | 0 <= p < q < |init| && init[p].num == init[q].num
            ensures init[p].idx < init[q].idx
          {
            assert init[p] == ev[p] && init[q] == ev[q];
          }
        }
        StepPositive(init, e, st);
      }
    }
  }

  /** Every visit is to a number of the draw it names. */
  lemma {:induction false} EventsBounds(series: History)
    ensures forall p :: 0 <= p < |Events(series)| ==>
      Events(series)[p].idx < |series| && Events(series)[p].num in series[Events(series)[p].idx]
  {
    if series != [] {
      var n := |series|;
      var init := series[..n - 1];
      EventsBounds(init);
      var a, b := Events(init), RowEvents(n - 1, series[n - 1]);
      var ev := Events(series);
      assert ev == a + b;
      forall p | 0 <= p < |ev|
        ensures ev[p].idx < n && ev[p].num in series[ev[p].idx]
      {
        if p < |a| {
          assert ev[p] == a[p] && init[a[p].idx] == series[a[p].idx];
        } else {
          assert ev[p] == b[p - |a|];
        }
      }
    }
  }

  /** The visits go draw by draw; within a draw of distinct numbers no number is visited twice. */
  lemma {:induction false} EventsOrdered(series: History)
    ensures Monotone(Events(series))
    ensures (forall i :: 0 <= i < |series| ==> Distinct(series[i])) ==> Ordered(Events(series))
  {
    if series != [] {
      var n := |series|;
      var init := series[..n - 1];
      EventsOrdered(init);
      EventsBounds(init);
      var a, b := Events(init), RowEvents(n - 1, series[n - 1]);
      var ev := Events(series);
      assert ev == a + b;
      forall p, q | 0 <= p < q < |ev|
        ensures ev[p].idx <= ev[q].idx
      {
        if q < |a| {
          assert ev[p] == a[p] && ev[q] == a[q];
        } else if p >= |a| {
          assert ev[p] == b[p - |a|] && ev[q] == b[q - |a|];
        } else {
          assert ev[p] == a[p] && ev[q] == b[q - |a|];
        }
      }
      if forall i :: 0 <= i < n ==> Distinct(series[i]) {
        assert forall i :: 0 <= i < n - 1 ==> init[i] == series[i];
        forall p, q | 0 <= p < q < |ev| && ev[p].num == ev[q].num
          ensures ev[p].idx < ev[q].idx
        {
          if q < |a| {
            assert ev[p] == a[p] && ev[q] == a[q];
          } else if p < |a| {
            assert ev[p] == a[p] && ev[q] == b[q - |a|];
          }
        }
      }
    }
  }

  /** Each number of each draw is visited, in that draw. */
  lemma {:induction false} EventsCover(series: History, i: nat, j: nat) returns (p: nat)
    requires i < |series| && j < |series[i]|
    ensures p < |Events(series)| && Events(series)[p] == Event(i, series[i][j])
  {
    var n := |series|;
    var init := series[..n - 1];
    var a, b := Events(init), RowEvents(n - 1, series[n - 1]);
    assert Events(series) == a + b;
    if i == n - 1 {
      p := |a| + j;
    } else {
      assert init[i] == series[i];
      p := EventsCover(init, i, j);
    }
  }

  lemma {:induction false} OccAppend(a: seq<Event>, b: seq<Event>, n: int)
    ensures Occ(a + b, n) == Occ(a, n) + Occ(b, n)
    decreases |b|
  {
    if b == [] {
      assert a + b == a;
    } else {
      var init := b[..|b| - 1];
      OccAppend(a, init, n);
      assert a + b == (a + init) + [b[|b| - 1]];
      OccSnoc(a + init, b[|b| - 1]);
      OccSnoc(init, b[|b| - 1]);
      assert init + [b[|b| - 1]] == b;
    }
  }

  lemma {:induction false} OccRow(idx: nat, nums: seq<int>, n: int)
    ensures Occ(RowEvents(idx, nums), n) == multiset(nums)[n]
  {
    if nums != [] {
      var init := nums[..|nums| - 1];
      OccRow(idx, init, n);
      OccSnoc(RowEvents(idx, init), Event(idx, nums[|nums| - 1]));
      assert nums == init + [nums[|nums| - 1]];
    }
  }

  /** The scan visits each number as often as the draws list it. */
  lemma {:induction false} OccEvents(series: History, n: int)
    ensures Occ(Events(series), n) == multiset(AllNumbers(series))[n]
    ensures |Events(series)| == |AllNumbers(series)|
  {
    if series != [] {
      var k := |series|;
      var init := series[..k - 1];
      OccEvents(init, n);
      OccAppend(Events(init), RowEvents(k - 1, series[k - 1]), n);
      OccRow(k - 1, series[k - 1], n);
      InitLast(series);
      AllNumbersSnoc(init, series[k - 1]);
    }
  }

  /** Reading the draws oldest first lists the same numbers. */
  lemma {:induction false} AllNumbersReverse(h: History)
    ensures multiset(AllNumbers(Reverse(h))) == multiset(AllNumbers(h))
  {
    if h != [] {
      AllNumbersReverse(h[1..]);
      AllNumbersSnoc(Reverse(h[1..]), h[0]);
    }
  }

  /**
   * The span scan over a history of draws of distinct balls finishes; each
   * ball listed k > 0 times has k - 1 spans and every other ball none, each
   * span positive, and `span_result` pools exactly those spans; the spans
   * of a ball are the distances between its consecutive appearances.
   */
  lemma SpanScanSpans(history: History)
    requires forall i, j :: 0 <= i < |history| && 0 <= j < |history[i]| ==> IsBall(history[i][j])
    requires forall i :: 0 <= i < |history| ==> Distinct(history[i])
    ensures Scan(Events(Reverse(history))).Ok?
    ensures Positive(Scan(Events(Reverse(history))).value)
    ensures forall n :: n in Scan(Events(Reverse(history))).value.spans <==> IsBall(n)
    ensures forall n :: IsBall(n) ==>
      |Scan(Events(Reverse(history))).value.spans[n]| == if n in AllNumbers(history) then multiset(AllNumbers(history))[n] - 1 else 0
    ensures multiset(Scan(Events(Reverse(history))).value.all) == Pooled(Scan(Events(Reverse(history))).value.spans, AllBalls())
    ensures forall n :: IsBall(n) ==> Scan(Events(Reverse(history))).value.spans[n] == Gaps(Appearances(history, n))
  {
    HistoryEvents(history);
    ScanInvariant(Events(Reverse(history)));
    forall n | IsBall(n) ensures Visits(Events(Reverse(history)), n) == Appearances(history, n) {
      VisitsHistory(history, n);
    }
  }

  /**
   * The scan indices of the draws listing `n` (scan index `t` is the draw
   * `history[|history| - 1 - t]`), oldest first.
   */
  function Appearances(history: History, n: int): seq<nat>
  {
    if history == [] then [] else Appearances(history[1..], n) + (if n in history[0] then [|history| - 1] else [])
  }

  /** The appearances ascend strictly and all lie below `|history|`. */
  lemma {:induction false} AppearancesAscend(history: History, n: int)
    ensures forall t :: t in Appearances(history, n) ==> t < |history|
    ensures forall i, j :: 0 <= i < j < |Appearances(history, n)| ==> Appearances(history, n)[i] < Appearances(history, n)[j]
  {
    if history != [] {
      var a := Appearances(history[1..], n);
      AppearancesAscend(history[1..], n);
      var b := a + (if n in history[0] then [|history| - 1] else []);
      forall i, j | 0 <= i < j < |b| ensures b[i] < b[j] {
        assert b[i] == a[i] && a[i] in a;
        if j < |a| {
          assert b[j] == a[j];
        }
      }
    }
  }

  /** The appearances are exactly the scan indices of the draws listing `n`. */
  lemma {:induction false} AppearancesListed(history: History, n: int)
    ensures forall t :: t in Appearances(history, n) <==> 0 <= t < |history| && n in history[|history| - 1 - t]
  {
    if history != [] {
      var tail := history[1..];
      AppearancesListed(tail, n);
      forall t ensures t in Appearances(history, n) <==> 0 <= t < |history| && n in history[|history| - 1 - t] {
        if 0 <= t < |tail| {
          assert tail[|tail| - 1 - t] == history[|history| - 1 - t];
        }
      }
    }
  }

  lemma {:induction false} VisitsAppend(a: seq<Event>, b: seq<Event>, n: int)
    ensures Visits(a + b, n) == Visits(a, n) + Visits(b, n)
    decreases |b|
  {
    if b == [] {
      assert a + b == a;
    } else {
      var init, e := b[..|b| - 1], b[|b| - 1];
      var x := if e.num == n then [e.idx] else [];
      VisitsAppend(a, init, n);
      assert init + [e] == b;
      AppendAssoc(a, init, [e]);
      VisitsSnoc(a + init, e, n);
      VisitsSnoc(init, e, n);
      AppendAssoc(Visits(a, n), Visits(init, n), x);
    }
  }

  /** A draw of distinct numbers visits `n` once when it lists it, and otherwise not at all. */
  lemma {:induction false} VisitsRow(idx: nat, nums: seq<int>, n: int)
    requires Distinct(nums)
    ensures Visits(RowEvents(idx, nums), n) == if n in nums then [idx] else []
  {
    if nums != [] {
      var init, x := nums[..|nums| - 1], nums[|nums| - 1];
      assert nums == init + [x];
      assert Distinct(init) && x !in init;
      VisitsRow(idx, init, n);
      VisitsSnoc(RowEvents(idx, init), Event(idx, x), n);
    }
  }

  /** Over draws of distinct numbers, the scan visits `n` at exactly its appearances. */
  lemma {:induction false} VisitsHistory(history: History, n: int)
    requires forall i :: 0 <= i < |history| ==> Distinct(history[i])
    ensures Visits(Events(Reverse(history)), n) == Appearances(history, n)
  {
    if history != [] {
      var series := Reverse(history);
      var k := |series|;
      assert series[..k - 1] == Reverse(history[1..]);
      VisitsHistory(history[1..], n);
      VisitsAppend(Events(Reverse(history[1..])), RowEvents(k - 1, history[0]), n);
      VisitsRow(k - 1, history[0], n);
    }
  }

  /**
   * After the span scan, `last_seen` holds exactly the listed numbers, each
   * with the scan index of its newest draw; every number listed either
   * recorded a span or is a key of `last_seen`.
   */
  lemma SpanScanLastSeen(history: History)
    requires forall i, j :: 0 <= i < |history| && 0 <= j < |history[i]| ==> IsBall(history[i][j])
    requires forall i :: 0 <= i < |history| ==> Distinct(history[i])
    ensures Scan(Events(Reverse(history))).Ok?
    ensures forall n :: n in Scan(Events(Reverse(history))).value.lastSeen <==> n in AllNumbers(history)
    ensures forall n :: n in Scan(Events(Reverse(history))).value.lastSeen ==> LatestDraw(history, n, Scan(Events(Reverse(history))).value.lastSeen[n])
    ensures |Scan(Events(Reverse(history))).value.all| + |Scan(Events(Reverse(history))).value.lastSeen| == |AllNumbers(history)|
  {
    var ev := Events(Reverse(history));
    HistoryEvents(history);
    ScanInvariant(ev);
    var st := Scan(ev).value;
    forall n | n in st.lastSeen ensures LatestDraw(history, n, st.lastSeen[n]) {
      LastIdxLatest(history, n);
    }
  }

  /** The visits of the scan over a history of draws of distinct balls. */
  lemma HistoryEvents(history: History)
    requires forall i, j :: 0 <= i < |history| && 0 <= j < |history[i]| ==> IsBall(history[i][j])
    requires forall i :: 0 <= i < |history| ==> Distinct(history[i])
    ensures Balls(Events(Reverse(history))) && Ordered(Events(Reverse(history)))
    ensures forall n :: Occ(Events(Reverse(history)), n) == multiset(AllNumbers(history))[n]
    ensures |Events(Reverse(history))| == |AllNumbers(history)|
  {
    var series := Reverse(history);
    var ev := Events(series);
    EventsBounds(series);
    EventsOrdered(series);
    assert forall i :: 0 <= i < |series| ==> Distinct(series[i]);
    forall p | 0 <= p < |ev| ensures IsBall(ev[p].num) {
      var i := ev[p].idx;
      assert series[i] == history[|history| - 1 - i];
    }
    AllNumbersReverse(history);
    forall n ensures Occ(ev, n) == multiset(AllNumbers(history))[n] {
      OccEvents(series, n);
    }
    OccEvents(series, 0);
    assert |multiset(AllNumbers(series))| == |multiset(AllNumbers(history))|;
  }

  /**
   * Scan index `t` (the draw `history[|history| - 1 - t]`) is the newest
   * draw listing `n`.
   */
  predicate LatestDraw(history: History, n: int, t: int)
  {
    0 <= t < |history| && n in history[|history| - 1 - t] &&
    forall j :: 0 <= j < |history| - 1 - t ==> n !in history[j]
  }

  lemma LastIdxLatest(history: History, n: int)
    requires Occ(Events(Reverse(history)), n) > 0
    ensures LatestDraw(history, n, LastIdx(Events(Reverse(history)), n))
  {
    var series := Reverse(history);
    var ev := Events(series);
    EventsBounds(series);
    var t := LastIdx(ev, n);
    var p := LastIdxVisit(ev, n);
    assert series[t] == history[|history| - 1 - t];
    forall j | 0 <= j < |history| - 1 - t ensures n !in history[j] {
      if n in history[j] {
        ListingBeforeLast(history, n, j);
      }
    }
  }

  /** A draw listing `n` is scanned no later than the latest visit of `n`. */
  lemma ListingBeforeLast(history: History, n: int, j: nat)
    requires Occ(Events(Reverse(history)), n) > 0 && j < |history| && n in history[j]
    ensures |history| - 1 - j <= LastIdx(Events(Reverse(history)), n)
  {
    var series := Reverse(history);
    EventsOrdered(series);
    var i := |history| - 1 - j;
    assert series[i] == history[j];
    var c :| 0 <= c < |series[i]| && series[i][c] == n;
    var q := EventsCover(series, i, c);
    LastIdxMax(Events(series), n, q);
  }
}
