/**
 The java.lang.String and java.lang.Long operations the modelled code relies on,
 over Dafny strings (`seq<char>`): `indexOf`, `endsWith`, `split` on a single
 separator character, `Long.toString` and `Long.parseLong`/`Integer.parseInt`.
 */
module Text {
  import opened Outcomes

  const LONG_MIN: int := -0x8000_0000_0000_0000
  const LONG_MAX: int := 0x7FFF_FFFF_FFFF_FFFF
  const INT_MIN: int := -0x8000_0000
  const INT_MAX: int := 0x7FFF_FFFF

  /** `p` occurs in `s` starting at index `i`. */
  predicate OccursAt(s: string, p: string, i: int) {
    0 <= i && i + |p| <= |s| && s[i..i + |p|] == p
  }

  function Max0(x: int): nat {
    if x < 0 then 0 else x
  }

  /** `s.indexOf(p, from)`: the first occurrence of `p` at or after `from`
      (a negative `from` searches from 0), or -1 when there is none. */
  function IndexOf(s: string, p: string, from: int): (r: int)
    requires |p| > 0
    ensures r == -1 || (Max0(from) <= r && OccursAt(s, p, r))
    ensures r == -1 ==> forall i :: Max0(from) <= i ==> !OccursAt(s, p, i)
    ensures r >= 0 ==> forall i :: Max0(from) <= i < r ==> !OccursAt(s, p, i)
    decreases |s| - Max0(from)
  {
    var f := Max0(from);
    if f + |p| > |s| then -1
    else if s[f..f + |p|] == p then f
    else IndexOf(s, p, f + 1)
  }

  /** The search finds exactly the first occurrence at or after `from`. */
  lemma IndexOfIs(s: string, p: string, from: int, i: int)
    requires |p| > 0 && 0 <= from <= i && OccursAt(s, p, i)
    requires forall j :: from <= j < i ==> !OccursAt(s, p, j)
    ensures IndexOf(s, p, from) == i
  {
  }

  /** A one-character search fails exactly when the character is absent. */
  lemma CharIndexOf(s: string, c: char)
    ensures IndexOf(s, [c], 0) < 0 <==> c !in s
  {
    var i := IndexOf(s, [c], 0);
    if i >= 0 {
      assert s[i..i + 1] == [c];
      assert s[i] == c;
    } else if c in s {
      var j :| 0 <= j < |s| && s[j] == c;
      assert s[j..j + 1] == [c];
      assert OccursAt(s, [c], j);
    }
  }

  /** `s.indexOf(c, from)` for a single character `c`. */
  function Find(s: string, c: char, from: int): (r: int)
    ensures r == -1 || (Max0(from) <= r < |s| && s[r] == c)
    ensures forall i :: Max0(from) <= i < |s| && (r == -1 || i < r) ==> s[i] != c
    decreases |s| - Max0(from)
  {
    var f := Max0(from);
    if f >= |s| then -1
    else if s[f] == c then f
    else Find(s, c, f + 1)
  }

  /** The character search agrees with the substring search for the
      one-character string. */
  lemma {:induction false} FindIsIndexOf(s: string, c: char, from: int)
    ensures Find(s, c, from) == IndexOf(s, [c], from)
    decreases |s| - Max0(from)
  {
    var f := Max0(from);
    if f < |s| {
      assert s[f..f + 1] == [c] <==> s[f] == c by {
        assert s[f..f + 1] == [s[f]];
      }
      if s[f] != c {
        FindIsIndexOf(s, c, f + 1);
      }
    }
  }

  /** The first `c` at or after `from` is at `i`. */
  lemma FindIs(s: string, c: char, from: int, i: int)
    requires 0 <= from <= i < |s| && s[i] == c
    requires forall j :: from <= j < i ==> s[j] != c
    ensures Find(s, c, from) == i
  {
  }

  /** A slice holding `x + y` holds `x` and then `y`. */
  lemma SliceParts(page: string, i: int, x: string, y: string)
    requires 0 <= i && i + |x| + |y| <= |page| && page[i..i + |x| + |y|] == x + y
    ensures page[i..i + |x|] == x && page[i + |x|..i + |x| + |y|] == y
  {
    assert page[i..i + |x|] == page[i..i + |x| + |y|][..|x|];
    assert page[i + |x|..i + |x| + |y|] == page[i..i + |x| + |y|][|x|..];
  }

  /** `SliceParts` with the split point and the end given by name. */
  lemma SliceSplit(page: string, a: int, m: int, b: int, x: string, y: string)
    requires 0 <= a && b <= |page| && m == a + |x| && b == m + |y| && page[a..b] == x + y
    ensures page[a..m] == x && page[m..b] == y
  {
    SliceParts(page, a, x, y);
  }

  /** A suffix holding `x + y` starts with `x` and then holds `y`. */
  lemma SuffixAt(page: string, i: int, j: int, x: string, y: string)
    requires 0 <= i <= |page| && j == i + |x| && page[i..] == x + y
    ensures j <= |page| && page[i..j] == x && page[j..] == y
  {
    assert page[i..j] == page[i..][..|x|];
    assert page[j..] == page[i..][|x|..];
  }

  lemma SuffixParts(page: string, i: int, x: string, y: string)
    requires 0 <= i <= |page| && page[i..] == x + y
    ensures i + |x| <= |page| && page[i..i + |x|] == x && page[i + |x|..] == y
  {
    assert page[i..i + |x|] == page[i..][..|x|];
    assert page[i + |x|..] == page[i..][|x|..];
  }

  /** Adjacent slices holding `x` and `y` make one slice holding `x + y`. */
  lemma SliceJoin(page: string, a: int, m: int, b: int, x: string, y: string)
    requires 0 <= a <= m <= b <= |page| && page[a..m] == x && page[m..b] == y
    ensures page[a..b] == x + y
  {
    assert page[a..b] == page[a..m] + page[m..b];
  }

  /** A slice of a slice holding `x` holds the same slice of `x`. */
  lemma SubSlice(page: string, a: int, b: int, x: string, i: int, j: int)
    requires 0 <= a <= b <= |page| && page[a..b] == x && 0 <= i <= j <= |x|
    ensures page[a + i..a + j] == x[i..j]
  {
    var u := page[a + i..a + j];
    var v := x[i..j];
    assert |u| == |v|;
    forall k | 0 <= k < |u| ensures u[k] == v[k] {
      assert u[k] == page[a + i + k] && v[k] == x[i + k] && x[i + k] == page[a..b][i + k];
    }
  }

  /** `p` never occurs in `s`. */
  predicate Free(s: string, p: string) {
    forall k :: 0 <= k < |s| ==> !OccursAt(s, p, k)
  }

  /** Text free of `p` that runs to the end of the page: no `p` starts in it. */
  lemma FreeToEnd(page: string, b: int, x: string, p: string)
    requires |p| > 0 && Free(x, p) && 0 <= b <= |page| && page[b..] == x
    ensures forall k :: b <= k ==> !OccursAt(page, p, k)
  {
    forall k | b <= k
      ensures !OccursAt(page, p, k)
    {
      if k + |p| <= |page| {
        assert !OccursAt(x, p, k - b);
        assert page[b..|page|] == x;
        SubSlice(page, b, |page|, x, k - b, k - b + |p|);
      }
    }
  }

  /** The search finds nothing when nothing occurs from `from` on. */
  lemma IndexOfNone(s: string, p: string, from: int)
    requires |p| > 0 && 0 <= from
    requires forall k :: from <= k ==> !OccursAt(s, p, k)
    ensures IndexOf(s, p, from) == -1
  {
  }

  /** `s.endsWith(suffix)`. */
  predicate EndsWith(s: string, suffix: string) {
    |suffix| <= |s| && s[|s| - |suffix|..] == suffix
  }

  // ---------------------------------------------------------------------
  // String.split on a one-character separator
  // ---------------------------------------------------------------------

  /** Every piece between consecutive separators, including empty ones. */
  function SplitAll(s: string, sep: char): (r: seq<string>)
    ensures |r| >= 1
    ensures forall k :: 0 <= k < |r| ==> sep !in r[k]
    decreases |s|
  {
    var i := IndexOf(s, [sep], 0);
    if i < 0 then
      CharIndexOf(s, sep);
      [s]
    else
      assert sep !in s[..i] by {
        forall j | 0 <= j < i ensures s[j] != sep {
          assert !OccursAt(s, [sep], j);
          assert s[j..j + 1] == [s[j]];
        }
      }
      [s[..i]] + SplitAll(s[i + 1..], sep)
  }

  /** The pieces joined back with the separator. */
  function Join(pieces: seq<string>, sep: char): string
    requires |pieces| >= 1
  {
    if |pieces| == 1 then pieces[0] else pieces[0] + [sep] + Join(pieces[1..], sep)
  }

  /** The split at the first separator, at `i`. */
  lemma SplitAllAt(s: string, sep: char, i: int, head: string, rest: string)
    requires IndexOf(s, [sep], 0) == i >= 0 && head == s[..i] && rest == s[i + 1..]
    ensures SplitAll(s, sep) == [head] + SplitAll(rest, sep)
    ensures s == head + [sep] + rest
  {
    assert s[i..i + 1] == [sep];
  }

  lemma JoinCons(head: string, tail: seq<string>, sep: char)
    requires |tail| >= 1
    ensures Join([head] + tail, sep) == head + [sep] + Join(tail, sep)
  {
    assert ([head] + tail)[1..] == tail;
  }

  /** Splitting loses nothing: joining the pieces gives back the input. */
  lemma {:induction false} JoinSplitAll(s: string, sep: char)
    ensures Join(SplitAll(s, sep), sep) == s
    decreases |s|
  {
    var i := IndexOf(s, [sep], 0);
    if i >= 0 {
      var head, rest := s[..i], s[i + 1..];
      SplitAllAt(s, sep, i, head, rest);
      JoinSplitAll(rest, sep);
      JoinCons(head, SplitAll(rest, sep), sep);
    }
  }

  /** The first separator of `head + [sep] + rest`, when `head` has none. */
  lemma FirstSeparator(s: string, sep: char, head: string, rest: string)
    requires s == head + [sep] + rest && sep !in head
    ensures IndexOf(s, [sep], 0) == |head|
    ensures s[..|head|] == head && s[|head| + 1..] == rest
  {
    forall j | 0 <= j < |head| ensures !OccursAt(s, [sep], j) {
      assert s[j] == head[j];
    }
    assert s[|head|..|head| + 1] == [sep];
    IndexOfIs(s, [sep], 0, |head|);
  }

  /** Joining pieces free of the separator and splitting again gives the
      pieces back. */
  lemma {:induction false} SplitAllJoin(pieces: seq<string>, sep: char)
    requires |pieces| >= 1 && forall k :: 0 <= k < |pieces| ==> sep !in pieces[k]
    ensures SplitAll(Join(pieces, sep), sep) == pieces
    decreases |pieces|
  {
    var s := Join(pieces, sep);
    if |pieces| == 1 {
      CharIndexOf(s, sep);
    } else {
      var rest := Join(pieces[1..], sep);
      FirstSeparator(s, sep, pieces[0], rest);
      SplitAllAt(s, sep, |pieces[0]|, pieces[0], rest);
      SplitAllJoin(pieces[1..], sep);
      assert pieces == [pieces[0]] + pieces[1..];
    }
  }

  /** `String.split` undoes joining when no piece holds the separator and
      the last piece is not empty. */
  lemma JavaSplitJoin(pieces: seq<string>, sep: char)
    requires |pieces| >= 1 && forall k :: 0 <= k < |pieces| ==> sep !in pieces[k]
    requires pieces[|pieces| - 1] != ""
    ensures JavaSplit(Join(pieces, sep), sep) == pieces
  {
    var s := Join(pieces, sep);
    SplitAllJoin(pieces, sep);
    if |pieces| > 1 {
      var rest := Join(pieces[1..], sep);
      FirstSeparator(s, sep, pieces[0], rest);
      assert s[|pieces[0]|] == sep;
    }
  }

  function DropTrailingEmpty(xs: seq<string>): (r: seq<string>)
    ensures |r| <= |xs| && r == xs[..|r|]
    ensures |r| > 0 ==> r[|r| - 1] != ""
    ensures forall k :: |r| <= k < |xs| ==> xs[k] == ""
  {
    if |xs| > 0 && xs[|xs| - 1] == "" then DropTrailingEmpty(xs[..|xs| - 1]) else xs
  }

  /** `s.split(sep)`: when the separator does not occur the result is `[s]`;
      otherwise the pieces with trailing empty strings removed. */
  function JavaSplit(s: string, sep: char): (r: seq<string>)
    ensures sep !in s ==> r == [s]
    ensures forall k :: 0 <= k < |r| ==> sep !in r[k]
  {
    if sep !in s then
      CharIndexOf(s, sep);
      [s]
    else DropTrailingEmpty(SplitAll(s, sep))
  }

  // ---------------------------------------------------------------------
  // Decimal rendering and parsing
  // ---------------------------------------------------------------------

  predicate IsDigit(c: char) {
    '0' <= c <= '9'
  }

  predicate AllDigits(s: string) {
    forall k :: 0 <= k < |s| ==> IsDigit(s[k])
  }

  function DigitChar(d: int): (c: char)
    requires 0 <= d < 10
    ensures IsDigit(c) && c as int - '0' as int == d
  {
    ('0' as int + d) as char
  }

  /** The decimal digits of `n`, most significant first, without leading zeros. */
  function Digits(n: nat): (r: string)
    ensures |r| >= 1 && AllDigits(r)
    ensures r[0] != '0' || n == 0
  {
    if n < 10 then [DigitChar(n)] else Digits(n / 10) + [DigitChar(n % 10)]
  }

  /** `Long.toString(n)` / `String.valueOf(n)`. */
  function LongToString(n: int): string {
    if n < 0 then "-" + Digits(-n) else Digits(n)
  }

  function DigitsValue(s: string): nat
    requires AllDigits(s)
  {
    if |s| == 0 then 0 else DigitsValue(s[..|s| - 1]) * 10 + (s[|s| - 1] as int - '0' as int)
  }

  lemma {:induction false} DigitsValueOfDigits(n: nat)
    ensures DigitsValue(Digits(n)) == n
  {
    if n >= 10 {
      DigitsValueOfDigits(n / 10);
      var d := Digits(n);
      assert d[..|d| - 1] == Digits(n / 10);
    }
  }

  /** `Long.parseLong(s)` (with `lo`, `hi` the `long` range) and
      `Integer.parseInt(s)` (the `int` range): an optional sign, then one or
      more decimal digits, whose value must lie in `[lo, hi]`; `None` is the
      NumberFormatException. */
  function ParseDecimal(s: string, lo: int, hi: int): (r: Option<int>)
    ensures r.Some? ==> lo <= r.value <= hi
    ensures r.Some? ==> |s| > 0 && (IsDigit(s[0]) || s[0] == '-' || s[0] == '+')
  {
    if |s| == 0 then None
    else
      var body := if s[0] == '-' || s[0] == '+' then s[1..] else s;
      if |body| == 0 || !AllDigits(body) then None
      else
        var v: int := if s[0] == '-' then -(DigitsValue(body) as int) else DigitsValue(body);
        if lo <= v <= hi then Some(v) else None
  }

  function ParseLong(s: string): Option<int> {
    ParseDecimal(s, LONG_MIN, LONG_MAX)
  }

  function ParseInt(s: string): Option<int> {
    ParseDecimal(s, INT_MIN, INT_MAX)
  }

  /** Parsing undoes rendering for every value in range. */
  lemma ParseDecimalOfString(n: int, lo: int, hi: int)
    requires lo <= n <= hi
    ensures ParseDecimal(LongToString(n), lo, hi) == Some(n)
  {
    if n < 0 {
      ParseNegative(-n, lo, hi);
    } else {
      DigitsValueOfDigits(n);
      var d := Digits(n);
      assert IsDigit(d[0]);
    }
  }

  lemma ParseNegative(m: int, lo: int, hi: int)
    requires 0 < m && lo <= -m <= hi
    ensures ParseDecimal("-" + Digits(m), lo, hi) == Some(-m)
  {
    DigitsValueOfDigits(m);
    var d := Digits(m);
    var s := "-" + d;
    assert s[0] == '-';
    assert s[1..] == d;
  }

  /** `n` as exactly two digits, zero-padded (`DateTimeFormatter` "MM"/"dd"). */
  function TwoDigits(n: int): (r: string)
    requires 0 <= n < 100
    ensures |r| == 2 && AllDigits(r)
    ensures DigitsValue(r) == n
  {
    var r := [DigitChar(n / 10), DigitChar(n % 10)];
    assert r[..1][..0] == [];
    assert DigitsValue(r[..1]) == n / 10;
    r
  }
}
