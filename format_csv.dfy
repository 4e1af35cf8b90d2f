/**
 * The summary of `format_loto6_csv.py`: the `本数字` cells are cut into
 * number tokens (full-width spaces and commas count as separators), the
 * tokens are ranked by how often they occur, the numbers 1 .. 43 that never
 * occur as a token are listed, and the tokens are counted odd and even.
 * The tokens stay strings throughout: only the odd/even count converts them.
 */
module FormatCsv {
  import opened Wrappers
  import opened Text
  import opened Counting

  // ---------------------------------------------------------------------------
  // Tokens

  /** `str(nums).replace("　", " ").replace(",", " ").split()`. */
  function RowTokens(cell: string): seq<string>
  {
    SplitWhitespace(ReplaceChar(ReplaceChar(cell, '　', ' '), ',', ' '))
  }

  /** The characters of `s` other than white space and commas, in order. */
  function Kept(s: string): string
  {
    if s == [] then "" else (if IsSpace(s[0]) || s[0] == ',' then "" else [s[0]]) + Kept(s[1..])
  }

  /**
   * Every token of a cell is non-empty and holds neither white space nor a
   * comma; together the tokens hold exactly the other characters of the
   * cell, in order.
   */
  lemma RowTokensClean(cell: string)
    ensures forall i :: 0 <= i < |RowTokens(cell)| ==> CleanToken(RowTokens(cell)[i])
    ensures Concat(RowTokens(cell)) == Kept(cell)
  {
    var s := ReplaceChar(ReplaceChar(cell, '　', ' '), ',', ' ');
    SplitWhitespaceTokens(s);
    KeptReplaced(cell);
    var ts := RowTokens(cell);
    forall i | 0 <= i < |ts| ensures ',' !in ts[i] {
      if ',' in ts[i] {
        InConcat(ts, i, ',');
        KeptNoComma(cell);
      }
    }
  }

  lemma {:induction false} KeptReplaced(s: string)
    ensures NonSpace(ReplaceChar(ReplaceChar(s, '　', ' '), ',', ' ')) == Kept(s)
  {
    if s != [] {
      KeptReplaced(s[1..]);
      var r := ReplaceChar(ReplaceChar(s, '　', ' '), ',', ' ');
      assert r[1..] == ReplaceChar(ReplaceChar(s[1..], '　', ' '), ',', ' ');
      SpaceFacts();
    }
  }

  lemma {:induction false} KeptNoComma(s: string)
    ensures ',' !in Kept(s)
  {
    if s != [] {
      KeptNoComma(s[1..]);
    }
  }

  /** A character of one token is a character of the concatenation. */
  lemma {:induction false} InConcat(ts: seq<string>, i: nat, c: char)
    requires i < |ts| && c in ts[i]
    ensures c in Concat(ts)
  {
    if i > 0 {
      InConcat(ts[1..], i - 1, c);
    }
  }

  /** `all_numbers` after the loop: the tokens of every cell, row by row. */
  function AllTokens(cells: seq<string>): seq<string>
  {
    if cells == [] then [] else AllTokens(cells[..|cells| - 1]) + RowTokens(cells[|cells| - 1])
  }

  /** The loop over the `本数字` column, extending `all_numbers` in place. */
  method CollectNumbers(cells: seq<string>) returns (allNumbers: seq<string>)
    ensures allNumbers == AllTokens(cells)
  {
    allNumbers := [];
    var i := 0;
    while i < |cells|
      invariant 0 <= i <= |cells|
      invariant allNumbers == AllTokens(cells[..i])
    {
      assert cells[..i + 1][..i] == cells[..i];
      var numbers := RowTokens(cells[i]);
      allNumbers := allNumbers + numbers;
      i := i + 1;
    }
    assert cells[..|cells|] == cells;
  }

  /** The number of tokens of each cell, added up. */
  function TokenTotal(cells: seq<string>): nat
  {
    if cells == [] then 0 else |RowTokens(cells[0])| + TokenTotal(cells[1..])
  }

  /**
   * `all_numbers` is as long as the token counts of the cells added up, and
   * each of its tokens is clean.
   */
  lemma {:induction false} AllTokensSpec(cells: seq<string>)
    ensures |AllTokens(cells)| == TokenTotal(cells)
    ensures forall i :: 0 <= i < |AllTokens(cells)| ==> CleanToken(AllTokens(cells)[i])
  {
    if cells != [] {
      var n := |cells|;
      var init := cells[..n - 1];
      AllTokensSpec(init);
      RowTokensClean(cells[n - 1]);
      TokenTotalSnoc(init, cells[n - 1]);
      assert init + [cells[n - 1]] == cells;
      CleanConcat(AllTokens(init), RowTokens(cells[n - 1]));
    }
  }

  /** A token that `int()` could read: not empty, no white space, no comma. */
  predicate CleanToken(t: string)
  {
    t != "" && NoSpace(t) && ',' !in t
  }

  lemma CleanConcat(a: seq<string>, b: seq<string>)
    requires forall i :: 0 <= i < |a| ==> CleanToken(a[i])
    requires forall i :: 0 <= i < |b| ==> CleanToken(b[i])
    ensures forall i :: 0 <= i < |a + b| ==> CleanToken((a + b)[i])
  {
    forall i | 0 <= i < |a + b|
      ensures CleanToken((a + b)[i])
    {
      if i < |a| {
        assert (a + b)[i] == a[i];
      } else {
        assert (a + b)[i] == b[i - |a|];
      }
    }
  }

  lemma {:induction false} TokenTotalSnoc(cells: seq<string>, c: string)
    ensures TokenTotal(cells + [c]) == TokenTotal(cells) + |RowTokens(c)|
  {
    if cells == [] {
      assert [c][1..] == [];
    } else {
      assert (cells + [c])[1..] == cells[1..] + [c];
      TokenTotalSnoc(cells[1..], c);
    }
  }

  // ---------------------------------------------------------------------------
  // Numbers that never appeared, matched as strings

  /** The numbers `lo .. 43` whose decimal string is not among the tokens, in increasing order. */
  function MissingValues(all: seq<string>, lo: int): seq<int>
    decreases 44 - lo
  {
    if lo > 43 then []
    else (if IntToString(lo) in all then [] else [lo]) + MissingValues(all, lo + 1)
  }

  /** Every number `MissingValues(all, lo)` lists lies in `lo .. 43` and its string is not a token. */
  lemma {:induction false} MissingValuesBounds(all: seq<string>, lo: int)
    ensures forall i :: 0 <= i < |MissingValues(all, lo)| ==>
      lo <= MissingValues(all, lo)[i] <= 43 && IntToString(MissingValues(all, lo)[i]) !in all
    decreases 44 - lo
  {
    if lo <= 43 {
      MissingValuesBounds(all, lo + 1);
      var head := if IntToString(lo) in all then [] else [lo];
      var tail := MissingValues(all, lo + 1);
      assert MissingValues(all, lo) == head + tail;
      forall i | 0 <= i < |head + tail|
        ensures lo <= (head + tail)[i] <= 43 && IntToString((head + tail)[i]) !in all
      {
        if i >= |head| {
          assert (head + tail)[i] == tail[i - |head|];
        }
      }
    }
  }

  /** Every number of `lo .. 43` whose string is not a token is listed. */
  lemma {:induction false} MissingValuesComplete(all: seq<string>, lo: int)
    ensures forall n :: lo <= n <= 43 && IntToString(n) !in all ==> n in MissingValues(all, lo)
    decreases 44 - lo
  {
    if lo <= 43 {
      MissingValuesComplete(all, lo + 1);
      var head := if IntToString(lo) in all then [] else [lo];
      var tail := MissingValues(all, lo + 1);
      assert MissingValues(all, lo) == head + tail;
      forall n | lo <= n <= 43 && IntToString(n) !in all ensures n in head + tail {
        if n == lo {
          assert (head + tail)[0] == lo;
        } else {
          assert n in tail;
        }
      }
    }
  }

  /** The listed numbers increase strictly, so each appears once. */
  lemma {:induction false} MissingValuesAscending(all: seq<string>, lo: int)
    ensures StrictlyAscending(MissingValues(all, lo))
    decreases 44 - lo
  {
    if lo <= 43 {
      MissingValuesAscending(all, lo + 1);
      MissingValuesBounds(all, lo + 1);
    }
  }

  /** `sorted(set(str(i) for i in range(1, 44)) - set(all_numbers), key=lambda x: int(x))`. */
  function Missing(all: seq<string>): seq<string>
  {
    var v := MissingValues(all, 1);
    seq(|v|, i requires 0 <= i < |v| => IntToString(v[i]))
  }

  /** Each entry of `missing` reads back, with `int()`, as the number it was made from. */
  lemma MissingParses(all: seq<string>)
    ensures |Missing(all)| == |MissingValues(all, 1)|
    ensures forall i :: 0 <= i < |Missing(all)| ==> ParseInt(Missing(all)[i]) == Some(MissingValues(all, 1)[i])
  {
    var v := MissingValues(all, 1);
    forall i | 0 <= i < |v| ensures ParseInt(Missing(all)[i]) == Some(v[i]) {
      IntRoundTrip(v[i]);
    }
  }

  /**
   * `missing` holds `str(n)` for exactly the numbers n of 1 .. 43 whose
   * string is not a token.
   */
  lemma MissingMembers(all: seq<string>)
    ensures forall n :: 1 <= n <= 43 ==> (IntToString(n) in Missing(all) <==> IntToString(n) !in all)
    ensures forall i :: 0 <= i < |Missing(all)| ==> Missing(all)[i] !in all
  {
    var v := MissingValues(all, 1);
    MissingValuesBounds(all, 1);
    MissingValuesComplete(all, 1);
    var m := Missing(all);
    forall n | 1 <= n <= 43 ensures IntToString(n) in m <==> IntToString(n) !in all {
      if IntToString(n) !in all {
        var k :| 0 <= k < |v| && v[k] == n;
        assert m[k] == IntToString(n);
      }
    }
  }

  /** `missing` is in increasing numeric order, as `key=int` sorts it, and holds numbers of 1 .. 43 only. */
  lemma MissingOrder(all: seq<string>)
    ensures forall i :: 0 <= i < |Missing(all)| ==>
      ParseInt(Missing(all)[i]).Some? && 1 <= ParseInt(Missing(all)[i]).value <= 43
    ensures forall i, j :: 0 <= i < j < |Missing(all)| ==>
      ParseInt(Missing(all)[i]).value < ParseInt(Missing(all)[j]).value
  {
    MissingParses(all);
    MissingValuesBounds(all, 1);
    MissingValuesAscending(all, 1);
  }

  /** Matching is on strings: a token `06` does not count as the number 6. */
  lemma ZeroPaddedTokenNotSeen()
    ensures "6" in Missing(["06"])
  {
    assert IntToString(6) == "6";
    MissingMembers(["06"]);
  }

  // ---------------------------------------------------------------------------
  // Odd and even

  /** `int(n)` of every token in turn; the first token that is not an integer raises `ValueError`. */
  function ParseTokens(all: seq<string>): (r: Result<seq<int>, string>)
    ensures r.Ok? ==> |r.value| == |all|
  {
    if all == [] then Ok([])
    else match ParseInt(all[0])
      case None => Err(all[0])
      case Some(x) =>
        match ParseTokens(all[1..])
        case Err(t) => Err(t)
        case Ok(rest) => Ok([x] + rest)
  }

  /** A value is odd when Python's `x % 2 == 1`; for the divisor 2 this is Dafny's `%` as well. */
  function OddValues(v: seq<int>): (r: nat)
    ensures r <= |v|
  {
    if v == [] then 0 else (if v[0] % 2 == 1 then 1 else 0) + OddValues(v[1..])
  }

  /** `(odd_count, even_count)`, or the token that made `int()` raise. */
  function ParityCounts(all: seq<string>): Result<(nat, nat), string>
  {
    match ParseTokens(all)
    case Err(t) => Err(t)
    case Ok(v) => Ok((OddValues(v), |all| - OddValues(v)))
  }

  function EvenValues(v: seq<int>): nat
  {
    if v == [] then 0 else (if v[0] % 2 == 0 then 1 else 0) + EvenValues(v[1..])
  }

  /**
   * The tally succeeds exactly when every token is an integer, and then
   * counts the odd and the even values, which add up to the number of
   * tokens; otherwise it fails with the first token that is not one.
   */
  lemma ParityCountsSpec(all: seq<string>)
    ensures ParityCounts(all).Ok? <==> forall i :: 0 <= i < |all| ==> ParseInt(all[i]).Some?
    ensures ParityCounts(all).Ok? ==>
      ParityCounts(all).value.0 == OddValues(ParseTokens(all).value) &&
      ParityCounts(all).value.1 == EvenValues(ParseTokens(all).value) &&
      ParityCounts(all).value.0 + ParityCounts(all).value.1 == |all|
    ensures ParityCounts(all).Err? ==>
      exists i :: 0 <= i < |all| && ParityCounts(all).error == all[i] &&
        ParseInt(all[i]).None? && forall j :: 0 <= j < i ==> ParseInt(all[j]).Some?
  {
    ParseTokensSpec(all);
    if ParseTokens(all).Ok? {
      OddEven(ParseTokens(all).value);
    }
  }

  lemma ParseTokensSpec(all: seq<string>)
    ensures ParseTokens(all).Ok? <==> forall i :: 0 <= i < |all| ==> ParseInt(all[i]).Some?
    ensures ParseTokens(all).Ok? ==> forall i :: 0 <= i < |all| ==> ParseTokens(all).value[i] == ParseInt(all[i]).value
    ensures ParseTokens(all).Err? ==>
      exists i :: 0 <= i < |all| && ParseTokens(all).error == all[i] &&
        ParseInt(all[i]).None? && forall j :: 0 <= j < i ==> ParseInt(all[j]).Some?
  {
    if ParseTokens(all).Ok? {
      forall i | 0 <= i < |all| ensures ParseInt(all[i]).Some? && ParseTokens(all).value[i] == ParseInt(all[i]).value {
        ParseTokensAt(all, i);
      }
    } else {
      var i := ParseTokensError(all);
    }
  }

  lemma {:induction false} ParseTokensAt(all: seq<string>, i: nat)
    requires ParseTokens(all).Ok? && i < |all|
    ensures ParseInt(all[i]).Some? && ParseTokens(all).value[i] == ParseInt(all[i]).value
  {
    var tail := all[1..];
    if i > 0 {
      ParseTokensAt(tail, i - 1);
      assert all[i] == tail[i - 1];
    }
  }

  lemma ParseTokensError(all: seq<string>) returns (i: nat)
    requires ParseTokens(all).Err?
    ensures i < |all| && ParseTokens(all).error == all[i] && ParseInt(all[i]).None?
    ensures forall j :: 0 <= j < i ==> ParseInt(all[j]).Some?
  {
    i := FirstBad(all);
    FirstBadError(all);
    forall j | 0 <= j < i ensures ParseInt(all[j]).Some? {
      FirstBadBefore(all, j);
    }
  }

  /** The position of the first token that is not an integer, or the number of tokens when there is none. */
  function FirstBad(all: seq<string>): (i: nat)
    ensures i <= |all|
  {
    if all == [] || ParseInt(all[0]).None? then 0 else 1 + FirstBad(all[1..])
  }

  lemma {:induction false} FirstBadError(all: seq<string>)
    requires ParseTokens(all).Err?
    ensures FirstBad(all) < |all| && ParseTokens(all).error == all[FirstBad(all)] && ParseInt(all[FirstBad(all)]).None?
  {
    var tail := all[1..];
    if ParseInt(all[0]).Some? {
      FirstBadError(tail);
      assert all[FirstBad(all)] == tail[FirstBad(tail)];
    }
  }

  lemma {:induction false} FirstBadBefore(all: seq<string>, j: nat)
    requires j < FirstBad(all)
    ensures ParseInt(all[j]).Some?
  {
    var tail := all[1..];
    if j > 0 {
      FirstBadBefore(tail, j - 1);
      assert all[j] == tail[j - 1];
    }
  }



  lemma {:induction false} OddEven(v: seq<int>)
    ensures OddValues(v) + EvenValues(v) == |v|
  {
    if v != [] {
      OddEven(v[1..]);
    }
  }
}
