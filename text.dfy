/**
 * Python string operations the lottery scripts rely on: `str.split(" ")`,
 * `str.split()`, `" ".join`, `str.strip`, `str.replace` of one character,
 * `str(int)`, `int(str)`, zero-padded `strftime` fields and the ordering
 * Python uses to compare two strings.
 */
module Text {
  import opened Wrappers

  /**
   * The characters for which Python's `str.isspace()` holds, which
   * `str.split()` and `str.strip()` treat as white space, lie in `Ranges`
   * ranges: range `k` runs from `Lo(k)` to `Hi(k)`.
   */
  const Ranges := 11

  function Lo(k: nat): char
  {
    if k == 0 then '\t' else if k == 1 then '\U{1C}' else if k == 2 then '\U{85}' else if k == 3 then '\U{A0}'
    else if k == 4 then '\U{1680}' else if k == 5 then '\U{2000}' else if k == 6 then '\U{2028}'
    else if k == 7 then '\U{2029}' else if k == 8 then '\U{202F}' else if k == 9 then '\U{205F}' else '\U{3000}'
  }

  function Hi(k: nat): char
  {
    if k == 0 then '\r' else if k == 1 then ' ' else if k == 5 then '\U{200A}' else Lo(k)
  }

  /** `c` lies in range `k` or a later one. */
  predicate InRanges(c: char, k: nat)
    decreases Ranges - k
  {
    k < Ranges && ((Lo(k) <= c <= Hi(k)) || InRanges(c, k + 1))
  }

  predicate IsSpace(c: char)
  {
    InRanges(c, 0)
  }

  /** No white space lies between `!` and U+0084. */
  lemma {:induction false} RangesBound(c: char, k: nat)
    ensures InRanges(c, k) ==> c <= ' ' || c >= '\U{85}'
    decreases Ranges - k
  {
    if k < Ranges {
      RangesBound(c, k + 1);
    }
  }

  /** The space and the ideographic space are white space; signs, digits and the comma are not. */
  lemma SpaceFacts()
    ensures IsSpace(' ') && IsSpace('\U{3000}')
    ensures !IsSpace(',') && !IsSpace('-') && !IsSpace('+') && !IsSpace('_')
  {
    assert InRanges(' ', 1);
    assert InRanges('\U{3000}', 10);
    RangesBound(',', 0);
    RangesBound('-', 0);
    RangesBound('+', 0);
    RangesBound('_', 0);
  }

  lemma DigitsNoSpace(s: string)
    requires forall i :: 0 <= i < |s| ==> '0' <= s[i] <= '9'
    ensures NoSpace(s)
  {
    forall i | 0 <= i < |s| ensures !IsSpace(s[i]) {
      RangesBound(s[i], 0);
    }
  }

  predicate NoSpace(s: string)
  {
    forall i :: 0 <= i < |s| ==> !IsSpace(s[i])
  }

  /** The concatenation of a list of strings. */
  function Concat(ts: seq<string>): string
  {
    if ts == [] then "" else ts[0] + Concat(ts[1..])
  }

  /** The characters of `s` that are not white space, in order. */
  function NonSpace(s: string): string
  {
    if s == [] then "" else (if IsSpace(s[0]) then "" else [s[0]]) + NonSpace(s[1..])
  }

  // ---------------------------------------------------------------------------
  // str.split(sep) with an explicit one-character separator

  /** `s.split(sep)`: every occurrence of `sep` separates two fields, so adjacent separators give empty fields. */
  function SplitOn(s: string, sep: char): (r: seq<string>)
    ensures |r| >= 1
    ensures forall i :: 0 <= i < |r| ==> sep !in r[i]
  {
    if s == [] then [""]
    else if s[0] == sep then [""] + SplitOn(s[1..], sep)
    else
      var rest := SplitOn(s[1..], sep);
      [[s[0]] + rest[0]] + rest[1..]
  }

  /** `sep.join(ts)` for a one-character separator. */
  function Join(ts: seq<string>, sep: char): string
  {
    if ts == [] then "" else if |ts| == 1 then ts[0] else ts[0] + [sep] + Join(ts[1..], sep)
  }

  /** A field free of the separator splits off whole from the front. */
  lemma {:induction false} SplitOnPrefix(t: string, rest: string, sep: char)
    requires sep !in t
    ensures SplitOn(t + [sep] + rest, sep) == [t] + SplitOn(rest, sep)
  {
    if t == [] {
      assert t + [sep] + rest == [sep] + rest;
      assert ([sep] + rest)[1..] == rest;
    } else {
      assert (t + [sep] + rest)[1..] == t[1..] + [sep] + rest;
      SplitOnPrefix(t[1..], rest, sep);
      assert [t[0]] + t[1..] == t;
    }
  }

  lemma {:induction false} SplitOnNoSep(t: string, sep: char)
    requires sep !in t
    ensures SplitOn(t, sep) == [t]
  {
    if t != [] {
      SplitOnNoSep(t[1..], sep);
      assert [t[0]] + t[1..] == t;
    }
  }

  /** Splitting a join on the same separator gives back the fields, provided none contains it. */
  lemma {:induction false} SplitJoin(ts: seq<string>, sep: char)
    requires |ts| >= 1
    requires forall i :: 0 <= i < |ts| ==> sep !in ts[i]
    ensures SplitOn(Join(ts, sep), sep) == ts
  {
    if |ts| == 1 {
      SplitOnNoSep(ts[0], sep);
    } else {
      SplitJoin(ts[1..], sep);
      SplitOnPrefix(ts[0], Join(ts[1..], sep), sep);
      assert [ts[0]] + ts[1..] == ts;
    }
  }

  /** Joining the fields of a split on the same separator restores the string. */
  lemma {:induction false} JoinSplit(s: string, sep: char)
    ensures Join(SplitOn(s, sep), sep) == s
  {
    if s != [] {
      var rest := SplitOn(s[1..], sep);
      JoinSplit(s[1..], sep);
      if s[0] == sep {
        assert SplitOn(s, sep) == [""] + rest;
        assert s == [sep] + s[1..];
      } else if |rest| == 1 {
        assert s == [s[0]] + s[1..];
      } else {
        assert ([[s[0]] + rest[0]] + rest[1..])[1..] == rest[1..];
        assert s == [s[0]] + s[1..];
      }
    }
  }

  // ---------------------------------------------------------------------------
  // str.split() without arguments

  /** The longest prefix of `s` without white space. */
  function Word(s: string): (w: string)
    ensures |w| <= |s| && w == s[..|w|] && NoSpace(w)
    ensures |w| < |s| ==> IsSpace(s[|w|])
    ensures s != [] && !IsSpace(s[0]) ==> |w| >= 1
  {
    if s == [] || IsSpace(s[0]) then "" else [s[0]] + Word(s[1..])
  }

  /** `s.split()`: the maximal runs of non-white-space characters. */
  function SplitWhitespace(s: string): (r: seq<string>)
    decreases |s|
  {
    if s == [] then []
    else if IsSpace(s[0]) then SplitWhitespace(s[1..])
    else
      var w := Word(s);
      [w] + SplitWhitespace(s[|w|..])
  }

  /**
   * Every token of `s.split()` is non-empty and free of white space, and
   * together the tokens hold exactly the non-white-space characters of `s`,
   * in order.
   */
  lemma {:induction false} SplitWhitespaceTokens(s: string)
    ensures forall i :: 0 <= i < |SplitWhitespace(s)| ==> SplitWhitespace(s)[i] != "" && NoSpace(SplitWhitespace(s)[i])
    ensures Concat(SplitWhitespace(s)) == NonSpace(s)
    decreases |s|
  {
    if s == [] {
    } else if IsSpace(s[0]) {
      SplitWhitespaceTokens(s[1..]);
    } else {
      var w := Word(s);
      SplitWhitespaceTokens(s[|w|..]);
      NonSpaceAppend(w, s[|w|..]);
      NonSpaceOfWord(w);
      assert w + s[|w|..] == s;
    }
  }

  lemma {:induction false} NonSpaceAppend(a: string, b: string)
    ensures NonSpace(a + b) == NonSpace(a) + NonSpace(b)
  {
    if a == [] {
      assert a + b == b;
    } else {
      var ab := a + b;
      assert ab[0] == a[0] && ab[1..] == a[1..] + b;
      NonSpaceAppend(a[1..], b);
      NonSpaceHead(ab);
      NonSpaceHead(a);
    }
  }

  lemma NonSpaceHead(s: string)
    requires s != []
    ensures NonSpace(s) == NonSpace([s[0]]) + NonSpace(s[1..])
  {
    assert [s[0]][1..] == [];
  }

  lemma {:induction false} NonSpaceOfWord(w: string)
    requires NoSpace(w)
    ensures NonSpace(w) == w
  {
    if w != [] {
      NonSpaceOfWord(w[1..]);
    }
  }

  lemma {:induction false} WordOfToken(t: string, rest: string)
    requires NoSpace(t)
    requires rest == [] || IsSpace(rest[0])
    ensures Word(t + rest) == t
  {
    if t != [] {
      assert (t + rest)[1..] == t[1..] + rest;
      WordOfToken(t[1..], rest);
    } else {
      assert t + rest == rest;
    }
  }

  /**
   * `" ".join(ts).split()` gives back `ts` when every token is non-empty and
   * free of white space: the whitespace split and the single-space split then
   * agree.
   */
  lemma {:induction false} SplitWhitespaceJoin(ts: seq<string>)
    requires forall i :: 0 <= i < |ts| ==> ts[i] != "" && NoSpace(ts[i])
    ensures SplitWhitespace(Join(ts, ' ')) == ts
    ensures ts != [] ==> SplitOn(Join(ts, ' '), ' ') == ts
  {
    SpaceFacts();
    if ts != [] {
      assert forall i :: 0 <= i < |ts| ==> ' ' !in ts[i] by {
        forall i | 0 <= i < |ts| ensures ' ' !in ts[i] {
          assert forall k :: 0 <= k < |ts[i]| ==> ts[i][k] != ' ';
        }
      }
      SplitJoin(ts, ' ');
    }
    if |ts| == 1 {
      WordOfToken(ts[0], "");
      assert ts[0] + "" == ts[0];
      assert ts[0][|ts[0]|..] == "";
    } else if |ts| > 1 {
      var rest := [' '] + Join(ts[1..], ' ');
      var s := Join(ts, ' ');
      assert s == ts[0] + rest;
      WordOfToken(ts[0], rest);
      assert s[|ts[0]|..] == rest;
      assert rest[1..] == Join(ts[1..], ' ');
      SplitWhitespaceJoin(ts[1..]);
      assert [ts[0]] + ts[1..] == ts;
    }
  }

  /** `split()` of two strings with white space at their border is the two splits one after the other. */
  lemma {:induction false} SplitWhitespaceAppend(x: string, y: string)
    requires x == [] || y == [] || IsSpace(x[|x| - 1]) || IsSpace(y[0])
    ensures SplitWhitespace(x + y) == SplitWhitespace(x) + SplitWhitespace(y)
    decreases |x|
  {
    var s := x + y;
    if x == [] {
      assert s == y;
    } else if y == [] {
      assert s == x;
    } else if IsSpace(x[0]) {
      assert s[0] == x[0] && s[1..] == x[1..] + y;
      SplitWhitespaceAppend(x[1..], y);
    } else {
      var w := Word(x);
      WordAppend(x, y);
      assert s[0] == x[0];
      SplitWhitespaceAppend(x[|w|..], y);
    }
  }

  /** The first word of `x + y`, when `x` starts with one and white space lies at the border, is the first word of `x`. */
  lemma WordAppend(x: string, y: string)
    requires x != [] && !IsSpace(x[0])
    requires y == [] || IsSpace(x[|x| - 1]) || IsSpace(y[0])
    ensures Word(x + y) == Word(x)
    ensures (x + y)[|Word(x)|..] == x[|Word(x)|..] + y
  {
    var w := Word(x);
    var r := x[|w|..];
    assert x == w + r;
    Reassociate(w, r, y);
    if |w| < |x| {
      assert (r + y)[0] == x[|w|];
      WordOfToken(w, r + y);
    } else {
      assert w == x;
      WordOfToken(x, y);
    }
  }

  /** A string cut in two and extended is its first part before the rest. */
  lemma Reassociate(w: string, r: string, y: string)
    ensures (w + r) + y == w + (r + y) && ((w + r) + y)[|w|..] == r + y
  {
  }

  /** Nothing but white space splits into no tokens. */
  lemma {:induction false} SplitWhitespaceBlank(s: string)
    requires Skippable(s)
    ensures SplitWhitespace(s) == []
  {
    if s != [] {
      SplitWhitespaceBlank(s[1..]);
    }
  }

  /** A non-empty token without white space splits into itself. */
  lemma SplitWhitespaceToken(t: string)
    requires t != [] && NoSpace(t)
    ensures SplitWhitespace(t) == [t]
  {
    WordOfToken(t, "");
    assert t + "" == t;
    assert t[|t|..] == "";
  }

  /** A field whose trimmed text is a token splits into that token alone. */
  lemma SplitWhitespaceTrimmed(f: string)
    requires Trim(f) != [] && NoSpace(Trim(f))
    ensures SplitWhitespace(f) == [Trim(f)]
  {
    var t := Trim(f);
    var i := TrimSlice(f);
    SliceThree(f, i, i + |t|);
    SplitWhitespacePadded(f[..i], t, f[i + |t|..]);
  }

  /** A token with white space `int()` skips on either side splits into the token alone. */
  lemma SplitWhitespacePadded(a: string, t: string, b: string)
    requires Skippable(a) && Skippable(b) && t != [] && NoSpace(t)
    ensures SplitWhitespace(a + t + b) == [t]
  {
    SplitWhitespaceBlank(a);
    SplitWhitespaceBlank(b);
    SplitWhitespaceToken(t);
    SplitWhitespaceAppend(t, b);
    SplitWhitespaceAppend(a, t + b);
    assert a + (t + b) == a + t + b;
  }

  /** What `int()` reads of each field. */
  function Trims(fs: seq<string>): (r: seq<string>)
    ensures |r| == |fs| && forall i :: 0 <= i < |fs| ==> r[i] == Trim(fs[i])
  {
    if fs == [] then [] else [Trim(fs[0])] + Trims(fs[1..])
  }

  /**
   * `" ".join(fs).split()` when each field is a token with white space
   * around it: the tokens, each as `int()` would read it.
   */
  lemma {:induction false} SplitWhitespaceJoinTrimmed(fs: seq<string>)
    requires forall i :: 0 <= i < |fs| ==> Trim(fs[i]) != [] && NoSpace(Trim(fs[i]))
    ensures SplitWhitespace(Join(fs, ' ')) == Trims(fs)
  {
    if |fs| == 1 {
      SplitWhitespaceTrimmed(fs[0]);
    } else if |fs| > 1 {
      var rest := Join(fs[1..], ' ');
      assert Join(fs, ' ') == fs[0] + [' '] + rest;
      SplitWhitespaceJoinTrimmed(fs[1..]);
      SplitWhitespaceHead(fs[0], rest);
    }
  }

  /** The first field of a join splits off on its own. */
  lemma SplitWhitespaceHead(f: string, rest: string)
    requires Trim(f) != [] && NoSpace(Trim(f))
    ensures SplitWhitespace(f + [' '] + rest) == [Trim(f)] + SplitWhitespace(rest)
  {
    SplitWhitespaceTrimmed(f);
    SpaceFacts();
    assert f + [' '] + rest == f + ([' '] + rest);
    SplitWhitespaceAppend(f, [' '] + rest);
    assert ([' '] + rest)[1..] == rest;
  }

  // ---------------------------------------------------------------------------
  // str.replace(old, new) for single characters, and str.strip()

  /** `s.replace(from, to)` for one-character `from` and `to`. */
  function ReplaceChar(s: string, from: char, to: char): (r: string)
    ensures |r| == |s|
    ensures forall i :: 0 <= i < |s| ==> r[i] == if s[i] == from then to else s[i]
  {
    if s == [] then [] else [if s[0] == from then to else s[0]] + ReplaceChar(s[1..], from, to)
  }

  /** `s.lstrip()`: drops the leading white space and nothing else. */
  function LStrip(s: string): (r: string)
    ensures |r| <= |s| && r == s[|s| - |r|..]
    ensures forall i :: 0 <= i < |s| - |r| ==> IsSpace(s[i])
    ensures r == [] || !IsSpace(r[0])
  {
    if s != [] && IsSpace(s[0]) then
      var r := LStrip(s[1..]);
      assert forall i :: 1 <= i < |s| ==> s[i] == s[1..][i - 1];
      r
    else s
  }

  /** `s.rstrip()`: drops the trailing white space and nothing else. */
  function RStrip(s: string): (r: string)
    ensures |r| <= |s| && r == s[..|r|]
    ensures forall i :: |r| <= i < |s| ==> IsSpace(s[i])
    ensures r == [] || !IsSpace(r[|r| - 1])
  {
    if s != [] && IsSpace(s[|s| - 1]) then
      var r := RStrip(s[..|s| - 1]);
      assert forall i :: 0 <= i < |s| - 1 ==> s[i] == s[..|s| - 1][i];
      r
    else s
  }

  /** `s.strip()`. */
  function Strip(s: string): string
  {
    RStrip(LStrip(s))
  }

  /**
   * `strip()` returns a contiguous slice of `s` that neither begins nor ends
   * with white space, and everything it cuts off on either side is white space.
   */
  lemma StripSlice(s: string) returns (i: nat)
    ensures i + |Strip(s)| <= |s| && Strip(s) == s[i..i + |Strip(s)|]
    ensures forall k :: 0 <= k < i ==> IsSpace(s[k])
    ensures forall k :: i + |Strip(s)| <= k < |s| ==> IsSpace(s[k])
    ensures Strip(s) == [] || (!IsSpace(Strip(s)[0]) && !IsSpace(Strip(s)[|Strip(s)| - 1]))
  {
    var l := LStrip(s);
    i := |s| - |l|;
    RStripSlice(s, l, i);
  }

  /** `rstrip()` of the suffix `l` of `s` that starts at `i`. */
  lemma RStripSlice(s: string, l: string, i: nat)
    requires i <= |s| && l == s[i..] && (l == [] || !IsSpace(l[0]))
    ensures i + |RStrip(l)| <= |s| && RStrip(l) == s[i..i + |RStrip(l)|]
    ensures forall k :: i + |RStrip(l)| <= k < |s| ==> IsSpace(s[k])
    ensures RStrip(l) == [] || (!IsSpace(RStrip(l)[0]) && !IsSpace(RStrip(l)[|RStrip(l)| - 1]))
  {
    var r := RStrip(l);
    assert r == l[..|r|];
    forall k | i + |r| <= k < |s|
      ensures IsSpace(s[k])
    {
      assert s[k] == l[k - i];
    }
    if r != [] {
      assert r[0] == l[0];
    }
  }

  /** A string that has no white space at either end is its own `strip()`. */
  lemma StripClean(s: string)
    requires s == [] || (!IsSpace(s[0]) && !IsSpace(s[|s| - 1]))
    ensures Strip(s) == s
  {
  }

  // ---------------------------------------------------------------------------
  // str(int) and int(str)

  /** An ASCII digit, the only digits `str()` writes. */
  predicate IsDigit(c: char)
  {
    '0' <= c <= '9'
  }

  function DigitChar(d: nat): (c: char)
    requires d < 10
    ensures IsDigit(c)
  {
    ('0' as int + d) as char
  }

  predicate AllDigits(s: string)
  {
    forall i :: 0 <= i < |s| ==> IsDigit(s[i])
  }

  /**
   * `int()` also reads the decimal digits of other scripts. The model knows
   * `DigitBlocks` blocks of them: block `k` holds the digits 0 .. 9 at the
   * code points `Zero(k)` .. `Zero(k) + 9`. Block 0 is ASCII; the last is
   * the full-width digits `０` .. `９`.
   */
  const DigitBlocks := 22

  function Zero(k: nat): int
  {
    if k == 0 then 0x30 else if k == 1 then 0x660 else if k == 2 then 0x6F0 else if k == 3 then 0x7C0
    else if k == 4 then 0x966 else if k == 5 then 0x9E6 else if k == 6 then 0xA66 else if k == 7 then 0xAE6
    else if k == 8 then 0xB66 else if k == 9 then 0xBE6 else if k == 10 then 0xC66 else if k == 11 then 0xCE6
    else if k == 12 then 0xD66 else if k == 13 then 0xDE6 else if k == 14 then 0xE50 else if k == 15 then 0xED0
    else if k == 16 then 0xF20 else if k == 17 then 0x1040 else if k == 18 then 0x1090 else if k == 19 then 0x17E0
    else if k == 20 then 0x1810 else 0xFF10
  }

  /** `c` is a digit of block `k` or of a later one. */
  predicate InDigitBlocks(c: char, k: nat)
    decreases DigitBlocks - k
  {
    k < DigitBlocks && (Zero(k) <= c as int <= Zero(k) + 9 || InDigitBlocks(c, k + 1))
  }

  /** A decimal digit `int()` reads. */
  predicate IsDecimal(c: char)
  {
    InDigitBlocks(c, 0)
  }

  /** The first block at or after `k` that holds `c`. */
  function BlockOf(c: char, k: nat): (b: nat)
    requires InDigitBlocks(c, k)
    ensures k <= b < DigitBlocks && Zero(b) <= c as int <= Zero(b) + 9
    decreases DigitBlocks - k
  {
    if Zero(k) <= c as int <= Zero(k) + 9 then k else BlockOf(c, k + 1)
  }

  /** The value of a decimal digit: how far it lies above the zero of its script. */
  function DecimalValue(c: char): (d: nat)
    requires IsDecimal(c)
    ensures d < 10
  {
    c as int - Zero(BlockOf(c, 0))
  }

  /** The blocks after the ASCII one lie between U+0660 and U+1819, apart from the full-width digits. */
  lemma {:induction false} DigitBlocksBound(c: char, k: nat)
    ensures InDigitBlocks(c, k) ==>
      IsDigit(c) || (0x660 <= c as int <= 0x1819 && c as int != 0x1680) || 0xFF10 <= c as int <= 0xFF19
    decreases DigitBlocks - k
  {
    if k < DigitBlocks {
      DigitBlocksBound(c, k + 1);
    }
  }

  /** Every white-space character is a control character, U+0085, U+00A0, U+1680, in U+2000 .. U+205F, or U+3000. */
  lemma {:induction false} SpaceBound(c: char, k: nat)
    ensures InRanges(c, k) ==>
      c <= ' ' || c == '\U{85}' || c == '\U{A0}' || c == '\U{1680}' || '\U{2000}' <= c <= '\U{205F}' || c == '\U{3000}'
    decreases Ranges - k
  {
    if k < Ranges {
      SpaceBound(c, k + 1);
    }
  }

  /** An ASCII digit is the decimal digit of its own value; no decimal digit is white space, a sign or an underscore. */
  lemma DecimalFacts(c: char)
    ensures IsDigit(c) ==> IsDecimal(c) && DecimalValue(c) == c as int - '0' as int
    ensures IsDecimal(c) ==> !IsSpace(c) && c != '_' && c != '-' && c != '+'
    ensures IsDecimal(c) ==> IsDigit(c) || c as int >= 0x660
  {
    DigitBlocksBound(c, 0);
    SpaceBound(c, 0);
  }

  /** A visible ASCII character is not white space, and is a decimal digit only when it is an ASCII digit. */
  lemma AsciiSymbol(c: char)
    requires ' ' < c < '\U{7F}'
    ensures !IsSpace(c) && (IsDecimal(c) <==> IsDigit(c))
  {
    RangesBound(c, 0);
    DecimalFacts(c);
  }

  /**
   * The white space `int()` skips around a number: Python's white space
   * apart from U+001C .. U+001F, which `int()` rejects.
   */
  predicate IntSpace(c: char)
  {
    IsSpace(c) && !('\U{1C}' <= c <= '\U{1F}')
  }

  /** `s` without the white space `int()` skips at its start. */
  function TrimStart(s: string): (r: string)
    ensures |r| <= |s|
    ensures r == [] || !IntSpace(r[0])
  {
    if s != [] && IntSpace(s[0]) then TrimStart(s[1..]) else s
  }

  /** `s` without the white space `int()` skips at its end. */
  function TrimEnd(s: string): (r: string)
    ensures |r| <= |s|
    ensures r == [] || !IntSpace(r[|r| - 1])
  {
    if s != [] && IntSpace(s[|s| - 1]) then TrimEnd(s[..|s| - 1]) else s
  }

  /** `TrimStart` keeps a suffix of `s` and cuts off only skippable white space. */
  lemma {:induction false} TrimStartCut(s: string)
    ensures TrimStart(s) == s[|s| - |TrimStart(s)|..]
    ensures Skippable(s[..|s| - |TrimStart(s)|])
  {
    if s != [] && IntSpace(s[0]) {
      TrimStartCut(s[1..]);
      var n := |s| - |TrimStart(s)|;
      assert forall k :: 1 <= k < n ==> s[..n][k] == s[1..][..n - 1][k - 1];
    }
  }

  /** `TrimEnd` keeps a prefix of `s` and cuts off only skippable white space. */
  lemma {:induction false} TrimEndCut(s: string)
    ensures TrimEnd(s) == s[..|TrimEnd(s)|]
    ensures Skippable(s[|TrimEnd(s)|..])
  {
    if s != [] && IntSpace(s[|s| - 1]) {
      var p := s[..|s| - 1];
      TrimEndCut(p);
      var n := |TrimEnd(s)|;
      assert p[..n] == s[..n];
      forall k | 0 <= k < |s| - n ensures IntSpace(s[n..][k]) {
        if k < |s| - 1 - n {
          assert s[n..][k] == p[n..][k];
        }
      }
    }
  }

  /** What `int()` reads of `s`: the text between the white space at either end. */
  function Trim(s: string): string
  {
    TrimEnd(TrimStart(s))
  }

  /** Every character is a decimal digit or an underscore. */
  predicate NumeralChars(b: string)
  {
    forall i :: 0 <= i < |b| ==> IsDecimal(b[i]) || b[i] == '_'
  }

  /**
   * The digits `int()` reads in base 10: one or more decimal digits, with
   * at most one underscore between two digits and none at either end.
   */
  predicate Numeral(b: string)
  {
    b != [] && NumeralChars(b) && b[0] != '_' && b[|b| - 1] != '_' &&
    forall i, j :: 0 <= i < |b| && 0 <= j < |b| && j == i + 1 ==> b[i] != '_' || b[j] != '_'
  }

  /** The value of a numeral: its digits, most significant first, underscores skipped. */
  function NumeralValue(b: string): nat
    requires NumeralChars(b)
  {
    if b == [] then 0
    else if b[|b| - 1] == '_' then NumeralValue(b[..|b| - 1])
    else 10 * NumeralValue(b[..|b| - 1]) + DecimalValue(b[|b| - 1])
  }

  /** Digits and underscores are not white space. */
  lemma NumeralNoSpace(b: string)
    requires NumeralChars(b)
    ensures NoSpace(b)
  {
    forall k | 0 <= k < |b| ensures !IsSpace(b[k]) {
      DecimalFacts(b[k]);
      SpaceFacts();
    }
  }

  /** `str(n)` for a natural number: decimal digits without leading zeros. */
  function NatToString(n: nat): (s: string)
    ensures s != [] && AllDigits(s)
    ensures s[0] == '0' ==> n == 0 && s == "0"
    decreases n
  {
    if n < 10 then [DigitChar(n)] else NatToString(n / 10) + [DigitChar(n % 10)]
  }

  /** `str(i)`: a minus sign before the digits of a negative value. */
  function IntToString(i: int): string
  {
    if i < 0 then "-" + NatToString(-i) else NatToString(i)
  }

  /** The sign `int()` accepts in front of the digits, if any, is cut off here. */
  function Unsigned(t: string): string
  {
    if t != [] && (t[0] == '+' || t[0] == '-') then t[1..] else t
  }

  /**
   * `int(s)`: the white space at either end is skipped, then come an
   * optional `+` or `-` and a numeral; anything else raises `ValueError`,
   * which is `None` here.
   */
  function ParseInt(s: string): Option<int>
  {
    var t := Trim(s);
    var body := Unsigned(t);
    if Numeral(body) then
      Some(if t[0] == '-' then -(NumeralValue(body) as int) else NumeralValue(body))
    else None
  }

  /**
   * A string `int()` accepts is the trimmed text with skipped white space on
   * either side; that text is a non-empty token without white space, and
   * `int()` reads it alone as it reads the whole string.
   */
  lemma ParseIntCore(s: string) returns (i: nat)
    requires ParseInt(s).Some?
    ensures i + |Trim(s)| <= |s| && Trim(s) == s[i..i + |Trim(s)|]
    ensures Skippable(s[..i]) && Skippable(s[i + |Trim(s)|..])
    ensures Trim(s) != [] && NoSpace(Trim(s)) && ParseInt(Trim(s)) == ParseInt(s)
  {
    i := TrimSlice(s);
    var t := Trim(s);
    TrimmedNoSpace(t);
    TrimClean(t);
    SameTrim(t, s);
  }

  /**
   * One character anywhere in `s` that is neither skippable white space, a
   * decimal digit, an underscore nor a sign makes `int()` fail.
   */
  lemma ParseIntRejects(s: string, k: nat)
    requires k < |s| && !IntSpace(s[k]) && !IsDecimal(s[k]) && s[k] !in "_+-"
    ensures ParseInt(s).None?
  {
    if ParseInt(s).Some? {
      ParseIntChars(s);
    }
  }

  /** Every character of a string `int()` accepts is skippable white space, a decimal digit, an underscore or a sign. */
  lemma ParseIntChars(s: string)
    requires ParseInt(s).Some?
    ensures forall k :: 0 <= k < |s| ==> IntSpace(s[k]) || IsDecimal(s[k]) || s[k] in "_+-"
  {
    var i := ParseIntCore(s);
    forall k | 0 <= k < |s| ensures IntSpace(s[k]) || IsDecimal(s[k]) || s[k] in "_+-" {
      if k < i {
        assert s[..i][k] == s[k];
      } else if k >= i + |Trim(s)| {
        assert s[i + |Trim(s)|..][k - i - |Trim(s)|] == s[k];
      } else {
        assert Trim(s)[k - i] == s[k];
        SignedNumeralChars(Trim(s), k - i);
      }
    }
  }

  /** Every character of a sign followed by a numeral is a decimal digit, an underscore or a sign. */
  lemma SignedNumeralChars(t: string, k: nat)
    requires Numeral(Unsigned(t)) && k < |t|
    ensures IsDecimal(t[k]) || t[k] in "_+-"
  {
    var body := Unsigned(t);
    if t[0] == '+' || t[0] == '-' {
      if k > 0 {
        assert body[k - 1] == t[k];
      }
    } else {
      assert body[k] == t[k];
    }
  }

  /** The trimmed text is a slice of `s` with only skipped white space outside it. */
  lemma TrimSlice(s: string) returns (i: nat)
    ensures i + |Trim(s)| <= |s| && Trim(s) == s[i..i + |Trim(s)|]
    ensures Skippable(s[..i]) && Skippable(s[i + |Trim(s)|..])
    ensures Trim(s) == [] || (!IntSpace(Trim(s)[0]) && !IntSpace(Trim(s)[|Trim(s)| - 1]))
  {
    i := TrimCuts(s);
    TrimEnds(s);
  }

  lemma TrimCuts(s: string) returns (i: nat)
    ensures i + |Trim(s)| <= |s| && Trim(s) == s[i..i + |Trim(s)|]
    ensures Skippable(s[..i]) && Skippable(s[i + |Trim(s)|..])
  {
    var l := TrimStart(s);
    var t := Trim(s);
    i := |s| - |l|;
    TrimStartCut(s);
    TrimEndCut(l);
    assert t == l[..|t|];
    assert s[i + |t|..] == l[|t|..];
  }

  lemma TrimEnds(s: string)
    ensures Trim(s) == [] || (!IntSpace(Trim(s)[0]) && !IntSpace(Trim(s)[|Trim(s)| - 1]))
  {
    var l := TrimStart(s);
    var t := Trim(s);
    if t != [] {
      TrimEndCut(l);
      assert t[0] == l[0];
    }
  }

  /** A sign followed by a numeral holds no white space. */
  lemma TrimmedNoSpace(t: string)
    requires Numeral(Unsigned(t))
    ensures t != [] && NoSpace(t)
  {
    var body := Unsigned(t);
    NumeralNoSpace(body);
    SpaceFacts();
    forall k | 0 <= k < |t| ensures !IsSpace(t[k]) {
      if t[0] == '+' || t[0] == '-' {
        if k > 0 {
          assert t[k] == body[k - 1];
        }
      } else {
        assert t[k] == body[k];
      }
    }
  }

  /** `int()` reads only the trimmed text. */
  lemma SameTrim(a: string, b: string)
    requires Trim(a) == Trim(b)
    ensures ParseInt(a) == ParseInt(b)
  {
  }

  /** A numeral alone is read as its value. */
  lemma ParseIntNumeral(b: string)
    requires Numeral(b)
    ensures ParseInt(b) == Some(NumeralValue(b))
  {
    DecimalFacts(b[0]);
    DecimalFacts(b[|b| - 1]);
    TrimClean(b);
    ReadWhole(b, b);
  }

  /** A sign followed by a numeral is read as the numeral's value with that sign. */
  lemma ParseIntSigned(sign: char, b: string)
    requires sign == '+' || sign == '-'
    requires Numeral(b)
    ensures ParseInt([sign] + b) == Some(if sign == '-' then -(NumeralValue(b) as int) else NumeralValue(b))
  {
    var t := [sign] + b;
    SpaceFacts();
    DecimalFacts(b[|b| - 1]);
    assert t[|t| - 1] == b[|b| - 1];
    assert t[0] == sign && t[1..] == b;
    assert Unsigned(t) == b;
    TrimClean(t);
    ReadWhole(t, b);
  }

  /** Text with no skippable white space at either end is read whole. */
  lemma TrimClean(t: string)
    requires t == [] || (!IntSpace(t[0]) && !IntSpace(t[|t| - 1]))
    ensures Trim(t) == t
  {
  }

  /** The digits of `str(n)` form a numeral of value `n`. */
  lemma {:induction false} NatToStringValue(n: nat)
    ensures Numeral(NatToString(n)) && NumeralValue(NatToString(n)) == n
    decreases n
  {
    var s := NatToString(n);
    forall i | 0 <= i < |s| ensures IsDecimal(s[i]) {
      DecimalFacts(s[i]);
    }
    DecimalFacts(s[|s| - 1]);
    if n >= 10 {
      NatToStringValue(n / 10);
      assert s[..|s| - 1] == NatToString(n / 10);
    }
  }

  /** `int(str(i)) == i` for every integer. */
  lemma IntRoundTrip(i: int)
    ensures ParseInt(IntToString(i)) == Some(i)
    ensures IntToString(i) != [] && NoSpace(IntToString(i)) && ',' !in IntToString(i)
  {
    var s := IntToString(i);
    var d := NatToString(if i < 0 then -i else i);
    NatToStringValue(if i < 0 then -i else i);
    NumeralNoSpace(d);
    SpaceFacts();
    if i < 0 {
      assert s[1..] == d;
    }
    assert Unsigned(s) == d;
    assert s[|s| - 1] == d[|d| - 1];
    TrimClean(s);
    ReadWhole(s, d);
    TrimmedNoSpace(s);
  }

  /** Text that needs no trimming and is a sign and a numeral reads as that numeral's value. */
  lemma ReadWhole(t: string, body: string)
    requires Trim(t) == t && Unsigned(t) == body && Numeral(body)
    ensures ParseInt(t) == Some(if t[0] == '-' then -(NumeralValue(body) as int) else NumeralValue(body))
  {
    assert Unsigned(Trim(t)) == body;
  }

  /** Different integers render differently, so `str` is one-to-one. */
  lemma IntToStringInjective(a: int, b: int)
    requires IntToString(a) == IntToString(b)
    ensures a == b
  {
    IntRoundTrip(a);
    IntRoundTrip(b);
  }

  /** Every character of `s` is white space `int()` skips. */
  predicate Skippable(s: string)
  {
    forall k :: 0 <= k < |s| ==> IntSpace(s[k])
  }

  /** `int()` reads a text with skipped white space around it as it reads the text alone. */
  lemma ParseIntPadded(a: string, t: string, b: string)
    requires Skippable(a) && Skippable(b)
    ensures ParseInt(a + t + b) == ParseInt(t)
  {
    var j := TrimSlice(t);
    var c := Trim(t);
    var l, r := t[..j], t[j + |c|..];
    SliceThree(t, j, j + |c|);
    SkippableAppend(a, l);
    SkippableAppend(r, b);
    Regroup(a, l, c, r, b);
    TrimPadded(a + l, c, r + b);
    SameTrim(a + t + b, t);
  }

  lemma SkippableAppend(x: string, y: string)
    requires Skippable(x) && Skippable(y)
    ensures Skippable(x + y)
  {
  }

  lemma SliceThree(t: string, i: nat, j: nat)
    requires i <= j <= |t|
    ensures t == t[..i] + t[i..j] + t[j..]
  {
  }

  lemma Regroup(a: string, l: string, c: string, r: string, b: string)
    ensures a + (l + c + r) + b == (a + l) + c + (r + b)
  {
  }

  /** Skipped white space around a text that neither begins nor ends with it is cut away. */
  lemma TrimPadded(a: string, t: string, b: string)
    requires Skippable(a) && Skippable(b)
    requires t == [] || (!IntSpace(t[0]) && !IntSpace(t[|t| - 1]))
    ensures Trim(a + t + b) == t
  {
    assert a + t + b == a + (t + b);
    TrimStartSpaces(a, t + b);
    if t == [] {
      assert t + b == b && b == [] + b;
      TrimStartSpaces(b, []);
      assert b + [] == b;
    } else {
      assert (t + b)[0] == t[0];
      TrimEndSpaces(t, b);
    }
  }

  lemma {:induction false} TrimStartSpaces(a: string, x: string)
    requires Skippable(a)
    ensures TrimStart(a + x) == TrimStart(x)
  {
    if a == [] {
      assert a + x == x;
    } else {
      assert (a + x)[1..] == a[1..] + x;
      TrimStartSpaces(a[1..], x);
    }
  }

  lemma {:induction false} TrimEndSpaces(x: string, b: string)
    requires Skippable(b)
    ensures TrimEnd(x + b) == TrimEnd(x)
  {
    if b == [] {
      assert x + b == x;
    } else {
      assert (x + b)[..|x + b| - 1] == x + b[..|b| - 1];
      TrimEndSpaces(x, b[..|b| - 1]);
    }
  }

  /** The value of a numeral with one more digit or underscore at its end. */
  lemma NumeralSnoc(b: string, c: char)
    requires NumeralChars(b) && (IsDecimal(c) || c == '_')
    ensures NumeralChars(b + [c])
    ensures NumeralValue(b + [c]) == if c == '_' then NumeralValue(b) else 10 * NumeralValue(b) + DecimalValue(c)
  {
    assert (b + [c])[..|b|] == b;
  }

  /** A character of block `k` is a decimal digit whose value is its distance from that block's zero. */
  lemma DigitOfBlock(c: char, k: nat)
    requires k < DigitBlocks && Zero(k) <= c as int <= Zero(k) + 9
    ensures IsDecimal(c) && DecimalValue(c) == c as int - Zero(k)
  {
    BlockAt(c, k, 0);
  }

  lemma {:induction false} BlockAt(c: char, k: nat, j: nat)
    requires j <= k < DigitBlocks && Zero(k) <= c as int <= Zero(k) + 9
    ensures InDigitBlocks(c, j) && BlockOf(c, j) == k
    decreases k - j
  {
    if j < k {
      BlockAt(c, k, j + 1);
      ZeroOrder(j, k);
      BlockSkip(c, j);
    }
  }

  /** A character above block `j` that lies in a later block belongs to that later block. */
  lemma BlockSkip(c: char, j: nat)
    requires j + 1 < DigitBlocks && InDigitBlocks(c, j + 1) && c as int >= Zero(j) + 10
    ensures InDigitBlocks(c, j) && BlockOf(c, j) == BlockOf(c, j + 1)
  {
  }

  /** The blocks lie in increasing order without overlapping. */
  lemma {:induction false} ZeroOrder(j: nat, k: nat)
    requires j < k < DigitBlocks
    ensures Zero(j) + 10 <= Zero(k)
    decreases k - j
  {
    if j + 1 < k {
      ZeroOrder(j + 1, k);
    }
  }

  /** The number the digit values `ds` stand for, most significant first. */
  function DigitsNumber(ds: seq<nat>): nat
  {
    if ds == [] then 0 else 10 * DigitsNumber(ds[..|ds| - 1]) + ds[|ds| - 1]
  }

  /** The digit values `ds` written in the script of block `k`. */
  function ScriptDigits(k: nat, ds: seq<nat>): (s: string)
    requires k < DigitBlocks && forall i :: 0 <= i < |ds| ==> ds[i] < 10
    ensures |s| == |ds|
  {
    seq(|ds|, i requires 0 <= i < |ds| => (Zero(k) + ds[i]) as char)
  }

  /**
   * `int()` reads a numeral written in the digits of any of the modelled
   * scripts, the full-width `０` .. `９` among them, as the number those
   * digits stand for.
   */
  lemma ScriptNumeral(k: nat, ds: seq<nat>)
    requires k < DigitBlocks && forall i :: 0 <= i < |ds| ==> ds[i] < 10
    requires ds != []
    ensures ParseInt(ScriptDigits(k, ds)) == Some(DigitsNumber(ds))
  {
    ScriptDigitsValue(k, ds);
    ParseIntNumeral(ScriptDigits(k, ds));
  }

  lemma {:induction false} ScriptDigitsValue(k: nat, ds: seq<nat>)
    requires k < DigitBlocks && forall i :: 0 <= i < |ds| ==> ds[i] < 10
    ensures ds != [] ==> Numeral(ScriptDigits(k, ds))
    ensures NumeralChars(ScriptDigits(k, ds)) && NumeralValue(ScriptDigits(k, ds)) == DigitsNumber(ds)
  {
    var s := ScriptDigits(k, ds);
    ScriptDigitsDecimal(k, ds);
    if ds != [] {
      var n := |ds| - 1;
      ScriptDigitsValue(k, ds[..n]);
      ScriptDigitsPrefix(k, ds, n);
      assert s == s[..n] + [s[n]];
      NumeralSnoc(s[..n], s[n]);
    }
  }

  /** Every character of a numeral in one script is a digit of that script, of the listed value. */
  lemma ScriptDigitsDecimal(k: nat, ds: seq<nat>)
    requires k < DigitBlocks && forall i :: 0 <= i < |ds| ==> ds[i] < 10
    ensures forall i :: 0 <= i < |ds| ==>
      IsDecimal(ScriptDigits(k, ds)[i]) && DecimalValue(ScriptDigits(k, ds)[i]) == ds[i] && ScriptDigits(k, ds)[i] != '_'
  {
    var s := ScriptDigits(k, ds);
    forall i | 0 <= i < |s| ensures IsDecimal(s[i]) && DecimalValue(s[i]) == ds[i] && s[i] != '_' {
      DigitOfBlock(s[i], k);
      DecimalFacts(s[i]);
    }
  }

  lemma ScriptDigitsPrefix(k: nat, ds: seq<nat>, n: nat)
    requires k < DigitBlocks && forall i :: 0 <= i < |ds| ==> ds[i] < 10
    requires n <= |ds|
    ensures ScriptDigits(k, ds)[..n] == ScriptDigits(k, ds[..n])
  {
  }

  /** An underscore between two numerals joins them into one numeral of the joint digits. */
  lemma {:induction false} NumeralUnderscore(x: string, y: string)
    requires Numeral(x) && Numeral(y)
    ensures Numeral(x + ['_'] + y) && Numeral(x + y)
    ensures NumeralValue(x + ['_'] + y) == NumeralValue(x + y)
    decreases |y|
  {
    var u := x + ['_'] + y;
    var v := x + y;
    forall i, j | 0 <= i < |u| && 0 <= j < |u| && j == i + 1 ensures u[i] != '_' || u[j] != '_' {
      if j < |x| {
        assert u[i] == x[i] && u[j] == x[j];
      } else if i > |x| {
        assert u[i] == y[i - |x| - 1] && u[j] == y[j - |x| - 1];
      } else if i == |x| {
        assert u[j] == y[0];
      }
    }
    forall i, j | 0 <= i < |v| && 0 <= j < |v| && j == i + 1 ensures v[i] != '_' || v[j] != '_' {
      if j < |x| {
        assert v[i] == x[i] && v[j] == x[j];
      } else if i >= |x| {
        assert v[i] == y[i - |x|] && v[j] == y[j - |x|];
      } else {
        assert v[j] == y[0];
      }
    }
    assert forall i :: 0 <= i < |u| ==> u[i] == '_' || (i < |x| && u[i] == x[i]) || (i > |x| && u[i] == y[i - |x| - 1]);
    assert forall i :: 0 <= i < |v| ==> (i < |x| && v[i] == x[i]) || (i >= |x| && v[i] == y[i - |x|]);
    assert Numeral(u) && Numeral(v);
    NumeralSnoc(x, '_');
    SameValueExtend(x + ['_'], x, y);
  }

  /** Appending a non-empty sequence is appending all of it but its last element, then that element. */
  lemma AppendLast<T>(a: seq<T>, y: seq<T>)
    requires y != []
    ensures a + y == (a + y[..|y| - 1]) + [y[|y| - 1]]
  {
  }

  /** Numerals of equal value stay equal when the same digits follow them. */
  lemma {:induction false} SameValueExtend(p: string, q: string, y: string)
    requires NumeralChars(p) && NumeralChars(q) && NumeralChars(y)
    requires NumeralValue(p) == NumeralValue(q)
    ensures NumeralChars(p + y) && NumeralChars(q + y)
    ensures NumeralValue(p + y) == NumeralValue(q + y)
    decreases |y|
  {
    if y == [] {
      assert p + y == p && q + y == q;
    } else {
      var n := |y| - 1;
      SameValueExtend(p, q, y[..n]);
      AppendLast(p, y);
      AppendLast(q, y);
      NumeralSnoc(p + y[..n], y[n]);
      NumeralSnoc(q + y[..n], y[n]);
    }
  }

  /** The range of `int64`, the integers `astype(int)` produces. */
  predicate InInt64(v: int)
  {
    -0x8000_0000_0000_0000 <= v < 0x8000_0000_0000_0000
  }

  type Int64 = v: int | InInt64(v)

  // ---------------------------------------------------------------------------
  // Zero-padded fixed-width fields (`%Y`, `%m`, `%d`) and string order

  function Pow10(w: nat): (p: nat)
    ensures p >= 1
  {
    if w == 0 then 1 else 10 * Pow10(w - 1)
  }

  /** `n` written with exactly `w` digits, zeros in front. */
  function Pad(n: nat, w: nat): (s: string)
    requires n < Pow10(w)
    ensures |s| == w && AllDigits(s)
  {
    if w == 0 then "" else Pad(n / 10, w - 1) + [DigitChar(n % 10)]
  }

  /** Python's `a < b` on strings: code-point order, and a proper prefix comes first. */
  predicate LexLess(a: string, b: string)
  {
    if b == [] then false
    else if a == [] then true
    else a[0] < b[0] || (a[0] == b[0] && LexLess(a[1..], b[1..]))
  }

  /** Zero-padded fields of one width compare as strings exactly as their values compare. */
  lemma {:induction false} PadOrder(x: nat, y: nat, w: nat)
    requires x < Pow10(w) && y < Pow10(w)
    ensures LexLess(Pad(x, w), Pad(y, w)) <==> x < y
    ensures Pad(x, w) == Pad(y, w) <==> x == y
  {
    if w > 0 {
      PadOrder(x / 10, y / 10, w - 1);
      LexLessAppend(Pad(x / 10, w - 1), Pad(y / 10, w - 1), [DigitChar(x % 10)], [DigitChar(y % 10)]);
      if Pad(x, w) == Pad(y, w) {
        assert Pad(x, w)[..w - 1] == Pad(y, w)[..w - 1];
        assert Pad(x, w)[w - 1] == Pad(y, w)[w - 1];
      }
    }
  }

  /** For two strings of one length, the order of `a + c` and `b + d` is that of `a` and `b` unless they are equal. */
  lemma {:induction false} LexLessAppend(a: string, b: string, c: string, d: string)
    requires |a| == |b|
    ensures LexLess(a + c, b + d) <==> LexLess(a, b) || (a == b && LexLess(c, d))
  {
    if a == [] {
      assert a + c == c && b + d == d;
    } else {
      assert (a + c)[1..] == a[1..] + c;
      assert (b + d)[1..] == b[1..] + d;
      LexLessAppend(a[1..], b[1..], c, d);
      if a[0] == b[0] && a[1..] == b[1..] {
        assert a == [a[0]] + a[1..] && b == [b[0]] + b[1..];
      }
    }
  }

  lemma {:induction false} LexLessIrreflexive(a: string)
    ensures !LexLess(a, a)
  {
    if a != [] {
      LexLessIrreflexive(a[1..]);
    }
  }

  lemma {:induction false} LexLessTransitive(a: string, b: string, c: string)
    requires LexLess(a, b) && LexLess(b, c)
    ensures LexLess(a, c)
  {
    if a != [] && b != [] && c != [] && a[0] == b[0] && b[0] == c[0] {
      LexLessTransitive(a[1..], b[1..], c[1..]);
    }
  }

  lemma {:induction false} LexLessAsymmetric(a: string, b: string)
    requires LexLess(a, b)
    ensures !LexLess(b, a)
  {
    if a != [] && a[0] == b[0] {
      LexLessAsymmetric(a[1..], b[1..]);
    }
  }
}
