/**
 * The pieces of Go's `strings` package and of `fmt`'s `%d` verb that the
 * exporter relies on, over strings modelled as sequences of characters.
 */
module Text {

  import opened Wrappers

  /** `sub` occurs in `s` starting at index `j`. */
  predicate MatchAt(s: string, sub: string, j: int) {
    0 <= j && j + |sub| <= |s| && s[j..j + |sub|] == sub
  }

  /**
   * strings.Index: the index of the first occurrence of `sub` in `s`, or -1.
   * The empty string occurs at index 0 of every string.
   */
  function Index(s: string, sub: string): (r: int)
    ensures -1 <= r && (r >= 0 ==> r + |sub| <= |s|)
    decreases |s|
  {
    if |s| < |sub| then -1
    else if s[..|sub|] == sub then 0
    else
      var r := Index(s[1..], sub);
      if r < 0 then -1 else r + 1
  }

  /** What strings.Index finds is an occurrence. */
  lemma {:induction false} IndexMatches(s: string, sub: string)
    ensures Index(s, sub) >= 0 ==> MatchAt(s, sub, Index(s, sub))
    decreases |s|
  {
    if |s| >= |sub| && s[..|sub|] != sub {
      IndexMatches(s[1..], sub);
      var r := Index(s[1..], sub);
      if r >= 0 {
        MatchAtTail(s, sub, r);
      }
    }
  }

  /** strings.Index finds the leftmost occurrence: there is none before it, and none at all for -1. */
  lemma {:induction false} IndexLeftmost(s: string, sub: string)
    ensures forall j :: 0 <= j && (Index(s, sub) < 0 || j < Index(s, sub)) ==> !MatchAt(s, sub, j)
    decreases |s|
  {
    if |s| >= |sub| && s[..|sub|] != sub {
      IndexLeftmost(s[1..], sub);
      forall j | 1 <= j
        ensures MatchAt(s, sub, j) <==> MatchAt(s[1..], sub, j - 1)
      {
        MatchAtTail(s, sub, j - 1);
      }
      assert !MatchAt(s, sub, 0);
    }
  }

  lemma MatchAtTail(s: string, sub: string, j: nat)
    requires |s| >= 1
    ensures MatchAt(s, sub, j + 1) <==> MatchAt(s[1..], sub, j)
  {
    if j + 1 + |sub| <= |s| {
      var a, b := s[j + 1..j + 1 + |sub|], s[1..][j..j + |sub|];
      assert forall i :: 0 <= i < |sub| ==> a[i] == b[i];
      assert a == b;
    }
  }

  /** (n + 1) * m == m + n * m, for the occurrence count's bound. */
  lemma MulSucc(n: nat, m: nat)
    ensures (1 + n) * m == m + n * m
  {
  }

  /**
   * strings.Count for a non-empty separator: non-overlapping occurrences,
   * left to right. They fit side by side in `s`, and there are none exactly
   * when strings.Index finds none.
   */
  function CountOcc(s: string, sub: string): (r: int)
    requires |sub| > 0
    ensures 0 <= r && r * |sub| <= |s|
    ensures r == 0 <==> Index(s, sub) < 0
    decreases |s|
  {
    var x := Index(s, sub);
    if x < 0 then 0
    else
      var rest := CountOcc(s[x + |sub|..], sub);
      MulSucc(rest, |sub|);
      1 + rest
  }

  /** The number of occurrences of the character `c` in `s`. */
  function CountChar(s: string, c: char): nat {
    if s == [] then 0 else (if s[0] == c then 1 else 0) + CountChar(s[1..], c)
  }

  lemma {:induction false} CountCharAppend(a: string, b: string, c: char)
    ensures CountChar(a + b, c) == CountChar(a, c) + CountChar(b, c)
  {
    if a != [] {
      assert (a + b)[1..] == a[1..] + b;
      CountCharAppend(a[1..], b, c);
    } else {
      assert a + b == b;
    }
  }

  lemma {:induction false} CountCharZero(s: string, c: char)
    ensures CountChar(s, c) == 0 <==> c !in s
  {
    if s != [] {
      CountCharZero(s[1..], c);
      assert c in s <==> s[0] == c || c in s[1..];
    }
  }

  /**
   * For a one-character separator strings.Count is the plain character
   * count, so the colon count parseQuery takes is the occurrence count
   * replaceNth walks through.
   */
  lemma {:induction false} CountOccChar(s: string, c: char)
    ensures CountOcc(s, [c]) == CountChar(s, c)
    decreases |s|
  {
    var x := Index(s, [c]);
    IndexLeftmost(s, [c]);
    if x < 0 {
      forall j | 0 <= j < |s|
        ensures s[j] != c
      {
        assert !MatchAt(s, [c], j);
        assert s[j..j + 1] == [s[j]];
      }
      CountCharZero(s, c);
    } else {
      IndexMatches(s, [c]);
      var pre, rest := s[..x], s[x + 1..];
      assert s[x..x + 1] == [c];
      assert s == pre + [c] + rest;
      forall j | 0 <= j < |pre|
        ensures pre[j] != c
      {
        assert !MatchAt(s, [c], j);
        assert s[j..j + 1] == [s[j]];
      }
      CountCharZero(pre, c);
      CountCharAppend(pre + [c], rest, c);
      CountCharAppend(pre, [c], c);
      CountOccChar(rest, c);
    }
  }

  // ---------------------------------------------------------------------
  // strings.Split and strings.Join on a one-character separator
  // ---------------------------------------------------------------------

  /**
   * strings.Split(s, sep) for a one-character separator: the pieces between
   * the separators, so an empty `s` gives one empty piece.
   */
  function Split(s: string, c: char): (r: seq<string>)
    ensures |r| == CountChar(s, c) + 1
    ensures forall k :: 0 <= k < |r| ==> c !in r[k]
    decreases |s|
  {
    if s == [] then [[]]
    else
      var rest := Split(s[1..], c);
      if s[0] == c then [[]] + rest
      else [[s[0]] + rest[0]] + rest[1..]
  }

  /** No piece contains the separator. */
  predicate SeparatorFree(parts: seq<string>, c: char) {
    forall k :: 0 <= k < |parts| ==> c !in parts[k]
  }

  /**
   * strings.Join(parts, sep) for a one-character separator: the first part
   * comes first, and joining separator-free parts inserts exactly one
   * separator between each two.
   */
  function Join(parts: seq<string>, c: char): (r: string)
    ensures |parts| == 0 ==> r == []
    ensures |parts| >= 1 ==> |r| >= |parts[0]| && r[..|parts[0]|] == parts[0]
    ensures |parts| >= 1 && SeparatorFree(parts, c) ==> CountChar(r, c) == |parts| - 1
    decreases |parts|
  {
    if |parts| == 0 then []
    else if |parts| == 1 then
      CountCharZero(parts[0], c);
      parts[0]
    else
      var rest := Join(parts[1..], c);
      CountCharZero(parts[0], c);
      CountCharAppend(parts[0], [c], c);
      CountCharAppend(parts[0] + [c], rest, c);
      assert (parts[0] + [c] + rest)[..|parts[0]|] == parts[0];
      assert SeparatorFree(parts, c) ==> SeparatorFree(parts[1..], c);
      parts[0] + [c] + rest
  }

  lemma JoinCons(x: string, parts: seq<string>, c: char)
    requires |parts| >= 1
    ensures Join([x] + parts, c) == x + [c] + Join(parts, c)
  {
    assert ([x] + parts)[1..] == parts;
  }

  /** Joining the pieces of a split gives back the string. */
  lemma {:induction false} JoinSplit(s: string, c: char)
    ensures Join(Split(s, c), c) == s
    decreases |s|
  {
    if s != [] {
      var rest := Split(s[1..], c);
      JoinSplit(s[1..], c);
      if s[0] == c {
        JoinCons([], rest, c);
        assert [] + [c] + s[1..] == s;
      } else if |rest| == 1 {
        assert [s[0]] + s[1..] == s;
      } else {
        JoinCons(rest[0], rest[1..], c);
        JoinCons([s[0]] + rest[0], rest[1..], c);
        assert [rest[0]] + rest[1..] == rest;
        assert [s[0]] + (rest[0] + [c] + Join(rest[1..], c)) == ([s[0]] + rest[0]) + [c] + Join(rest[1..], c);
        assert [s[0]] + s[1..] == s;
      }
    }
  }

  /** A separator-free piece followed by the separator splits off as one piece. */
  lemma {:induction false} SplitPrefix(p: string, t: string, c: char)
    requires c !in p
    ensures Split(p + [c] + t, c) == [p] + Split(t, c)
    decreases |p|
  {
    if p == [] {
      assert p + [c] + t == [c] + t;
      assert ([c] + t)[1..] == t;
    } else {
      assert (p + [c] + t)[1..] == p[1..] + [c] + t;
      SplitPrefix(p[1..], t, c);
      assert [p[0]] + p[1..] == p;
    }
  }

  /** A separator-free string is a single piece. */
  lemma {:induction false} SplitSingle(p: string, c: char)
    requires c !in p
    ensures Split(p, c) == [p]
    decreases |p|
  {
    if p != [] {
      SplitSingle(p[1..], c);
      assert [p[0]] + p[1..] == p;
    }
  }

  /** Splitting a join of separator-free pieces gives back the pieces. */
  lemma {:induction false} SplitJoin(parts: seq<string>, c: char)
    requires |parts| >= 1 && SeparatorFree(parts, c)
    ensures Split(Join(parts, c), c) == parts
    decreases |parts|
  {
    if |parts| == 1 {
      SplitSingle(parts[0], c);
    } else {
      SplitJoin(parts[1..], c);
      SplitPrefix(parts[0], Join(parts[1..], c), c);
      assert [parts[0]] + parts[1..] == parts;
    }
  }

  // ---------------------------------------------------------------------
  // fmt's %d: decimal text of an integer
  // ---------------------------------------------------------------------

  predicate IsDigit(ch: char) {
    48 <= ch as int <= 57
  }

  /** The decimal digits of `n`, most significant first, without leading zeros. */
  function Digits(n: nat): (r: string)
    ensures |r| >= 1 && forall k :: 0 <= k < |r| ==> IsDigit(r[k])
    ensures (r[0] == '0') == (n == 0)
  {
    if n < 10 then [(48 + n) as char]
    else Digits(n / 10) + [(48 + n % 10) as char]
  }

  /**
   * fmt.Sprintf("%d", i): a minus sign exactly for a negative number, then
   * decimal digits with a leading zero only for 0.
   */
  function DecimalText(i: int): (t: string)
    ensures |t| >= 1 && (t[0] == '-' <==> i < 0)
    ensures var d := if i < 0 then 1 else 0;
      && |t| > d
      && (forall k :: d <= k < |t| ==> IsDigit(t[k]))
      && (t[d] == '0' <==> i == 0)
  {
    if i < 0 then
      var d := Digits(-i);
      assert forall k :: 1 <= k < |"-" + d| ==> ("-" + d)[k] == d[k - 1];
      "-" + d
    else Digits(i)
  }

  /** The value of a string of decimal digits. */
  function DigitsValue(s: string): nat
    requires forall k :: 0 <= k < |s| ==> IsDigit(s[k])
    decreases |s|
  {
    if s == [] then 0
    else
      assert IsDigit(s[|s| - 1]);
      DigitsValue(s[..|s| - 1]) * 10 + (s[|s| - 1] as int - 48)
  }

  /** Reads an optionally negative decimal integer; the inverse of DecimalText. */
  function ParseDecimal(s: string): Option<int> {
    if |s| >= 2 && s[0] == '-' && forall k :: 1 <= k < |s| ==> IsDigit(s[k]) then
      var magnitude: int := DigitsValue(s[1..]);
      Some(-magnitude)
    else if |s| >= 1 && forall k :: 0 <= k < |s| ==> IsDigit(s[k]) then
      Some(DigitsValue(s))
    else None
  }

  lemma {:induction false} DigitsRoundTrip(n: nat)
    ensures DigitsValue(Digits(n)) == n
  {
    if n >= 10 {
      var d := Digits(n / 10);
      DigitsRoundTrip(n / 10);
      assert (d + [(48 + n % 10) as char])[..|d|] == d;
    }
  }

  /** The decimal text of an integer reads back as that integer. */
  lemma DecimalRoundTrip(i: int)
    ensures ParseDecimal(DecimalText(i)) == Some(i)
  {
    if i < 0 {
      var d := Digits(-i);
      DigitsRoundTrip(-i);
      assert ("-" + d)[1..] == d;
    } else {
      DigitsRoundTrip(i);
    }
  }
}
