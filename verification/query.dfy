/**
 * The query-string helpers of the exporter: replacing the n-th occurrence of
 * a substring, and escaping every colon after the first in each
 * space-separated token of a Lucene query string.
 */
module QueryText {

  import opened Wrappers
  import opened Text

  /** Moves an optional index `d` places to the right. */
  function Shift(d: nat, o: Option<nat>): Option<nat> {
    match o
    case None => None
    case Some(p) => Some(p + d)
  }

  lemma MatchAtDrop(s: string, pat: string, d: nat, o: Option<nat>)
    requires d <= |s| && (o.Some? ==> MatchAt(s[d..], pat, o.value))
    ensures Shift(d, o).Some? ==> MatchAt(s, pat, Shift(d, o).value)
  {
    if o.Some? {
      var p := o.value;
      var a, b := s[d + p..d + p + |pat|], s[d..][p..p + |pat|];
      assert forall i :: 0 <= i < |pat| ==> a[i] == b[i];
      assert a == b;
    }
  }

  /**
   * The index of the k-th non-overlapping occurrence of `pat` in `s`,
   * counting from the left and resuming each search just after the previous
   * occurrence; None when there are fewer than k.
   */
  function NthFrom(s: string, pat: string, k: nat): Option<nat>
    requires k >= 1
    decreases k
  {
    var x := Index(s, pat);
    if x < 0 then None
    else if k == 1 then Some(x)
    else Shift(x + |pat|, NthFrom(s[x + |pat|..], pat, k - 1))
  }

  /** What NthFrom finds is an occurrence of the pattern. */
  lemma {:induction false} NthFromMatches(s: string, pat: string, k: nat)
    requires k >= 1
    ensures NthFrom(s, pat, k).Some? ==> MatchAt(s, pat, NthFrom(s, pat, k).value)
    decreases k
  {
    var x := Index(s, pat);
    IndexMatches(s, pat);
    if x >= 0 && k > 1 {
      NthFromMatches(s[x + |pat|..], pat, k - 1);
      MatchAtDrop(s, pat, x + |pat|, NthFrom(s[x + |pat|..], pat, k - 1));
    }
  }

  /** The k-th occurrence exists exactly when there are at least k occurrences (strings.Count). */
  lemma {:induction false} NthExistsIff(s: string, pat: string, k: nat)
    requires |pat| > 0 && k >= 1
    ensures NthFrom(s, pat, k).Some? <==> k <= CountOcc(s, pat)
    decreases k
  {
    var x := Index(s, pat);
    if x >= 0 && k > 1 {
      NthExistsIff(s[x + |pat|..], pat, k - 1);
    }
  }

  /**
   * replaceNth: replaces the n-th non-overlapping occurrence of `pat` in `s`
   * by `repl`, and leaves `s` as it is when n < 1 or there is no n-th
   * occurrence.
   */
  method ReplaceNth(s: string, pat: string, repl: string, n: int) returns (r: string)
    ensures n < 1 || NthFrom(s, pat, n).None? ==> r == s
    ensures n >= 1 && NthFrom(s, pat, n).Some? ==>
      var i := NthFrom(s, pat, n).value;
      && MatchAt(s, pat, i)
      && r == s[..i] + repl + s[i + |pat|..]
      && |r| == |s| - |pat| + |repl|
  {
    var i := 0;
    var m := 1;
    while m <= n
      invariant 1 <= m && 0 <= i <= |s|
      invariant n >= 1 ==> m <= n && NthAt(s, pat, 0, n) == NthAt(s, pat, i, n - m + 1)
    {
      var x := Index(s[i..], pat);
      if x < 0 {
        break;
      }
      i := i + x;
      if m == n {
        NthAtFrom(s, pat, 0, n);
        assert s[0..] == s;
        NthFromMatches(s, pat, n);
        r := s[..i] + repl + s[i + |pat|..];
        return;
      }
      i := i + |pat|;
      m := m + 1;
    }
    if n >= 1 {
      NthAtFrom(s, pat, 0, n);
      assert s[0..] == s;
    }
    r := s;
  }

  /**
   * The k-th non-overlapping occurrence of `pat` at or after index `i` of
   * `s`, as an index into `s`: the search replaceNth's cursor performs.
   */
  function NthAt(s: string, pat: string, i: nat, k: nat): Option<nat>
    requires i <= |s| && k >= 1
    decreases k
  {
    var x := Index(s[i..], pat);
    if x < 0 then None
    else if k == 1 then Some(i + x)
    else NthAt(s, pat, i + x + |pat|, k - 1)
  }

  /** Searching from index `i` of `s` is searching `s[i..]` and moving the result by `i`. */
  lemma {:induction false} NthAtFrom(s: string, pat: string, i: nat, k: nat)
    requires i <= |s| && k >= 1
    ensures NthAt(s, pat, i, k) == Shift(i, NthFrom(s[i..], pat, k))
    decreases k
  {
    var x := Index(s[i..], pat);
    if x < 0 {
      NthFromAbsent(s[i..], pat, k);
    } else if k == 1 {
      NthFromFirst(s[i..], pat, x);
    } else {
      assert NthAt(s, pat, i, k) == NthAt(s, pat, i + x + |pat|, k - 1);
      NthAtFrom(s, pat, i + x + |pat|, k - 1);
      NthFromLaterAt(s, pat, i, x, k);
    }
  }

  lemma ShiftShift(a: nat, b: nat, o: Option<nat>)
    ensures Shift(a, Shift(b, o)) == Shift(a + b, o)
  {
  }

  /**
   * One iteration of replaceNth's search that does not stop: resuming at `i`
   * where `pat` next occurs `x` places on, the k-th occurrence from `i` is
   * the (k-1)-th from just after that one.
   */
  lemma NthFromLaterAt(s: string, pat: string, i: nat, x: int, k: nat)
    requires i <= |s| && k >= 2 && x == Index(s[i..], pat) && x >= 0
    ensures i + x + |pat| <= |s|
    ensures Shift(i, NthFrom(s[i..], pat, k)) == Shift(i + x + |pat|, NthFrom(s[i + x + |pat|..], pat, k - 1))
  {
    NthFromLater(s[i..], pat, k, x);
    assert s[i..][x + |pat|..] == s[i + x + |pat|..];
    ShiftShift(i, x + |pat|, NthFrom(s[i + x + |pat|..], pat, k - 1));
  }

  /** With no occurrence left, there is no k-th one. */
  lemma NthFromAbsent(t: string, pat: string, k: nat)
    requires k >= 1 && Index(t, pat) < 0
    ensures NthFrom(t, pat, k) == None
  {
  }

  lemma {:induction false} NthFromFirst(t: string, pat: string, x: int)
    requires x == Index(t, pat) && x >= 0
    ensures x + |pat| <= |t| && NthFrom(t, pat, 1) == Some(x)
  {
  }

  lemma {:induction false} NthFromLater(t: string, pat: string, k: nat, x: int)
    requires k >= 2 && x == Index(t, pat) && x >= 0
    ensures x + |pat| <= |t|
    ensures NthFrom(t, pat, k) == Shift(x + |pat|, NthFrom(t[x + |pat|..], pat, k - 1))
  {
  }

  /** The k-th occurrence of a one-character pattern, one leading character at a time. */
  lemma NthCons(a: char, rest: string, c: char, k: nat)
    requires k >= 1
    ensures NthFrom([a] + rest, [c], k) ==
      if a == c then (if k == 1 then Some(0) else Shift(1, NthFrom(rest, [c], k - 1)))
      else Shift(1, NthFrom(rest, [c], k))
  {
    var s := [a] + rest;
    assert s[1..] == rest;
    assert s[..1] == [a];
    if a != c {
      var x' := Index(rest, [c]);
      if x' >= 0 && k > 1 {
        assert s[x' + 2..] == rest[x' + 1..];
      }
    }
  }

  // ---------------------------------------------------------------------
  // Escaping the colons of a token
  // ---------------------------------------------------------------------

  /**
   * The token `t` in which the colons whose ordinal (counting from 1, after
   * `seen` colons already passed) lies in 2..upto are written `\:`.
   * With `upto` at least the number of colons, every colon after the first
   * is escaped; with a smaller `upto` it is the state of parseQuery's inner
   * loop part way through.
   */
  function Esc(t: string, seen: nat, upto: nat): string
    decreases |t|
  {
    if t == [] then []
    else if t[0] == ':' then
      (if 2 <= seen + 1 <= upto then "\\:" else ":") + Esc(t[1..], seen + 1, upto)
    else [t[0]] + Esc(t[1..], seen, upto)
  }

  /** A token with every colon after its first escaped as `\:`. */
  function EscapeToken(t: string): string {
    Esc(t, 0, CountChar(t, ':'))
  }

  /** Removes the backslash in front of every colon after the first. */
  function Unescape(e: string, seen: nat): string
    decreases |e|
  {
    if e == [] then []
    else if e[0] == ':' then ":" + Unescape(e[1..], seen + 1)
    else if seen >= 1 && |e| >= 2 && e[0] == '\\' && e[1] == ':' then ":" + Unescape(e[2..], seen + 1)
    else [e[0]] + Unescape(e[1..], seen)
  }

  /** When no colon ordinal falls in 2..upto, nothing is escaped. */
  lemma {:induction false} EscIdentity(t: string, seen: nat, upto: nat)
    requires upto <= seen || upto <= 1
    ensures Esc(t, seen, upto) == t
    decreases |t|
  {
    if t != [] {
      EscIdentity(t[1..], if t[0] == ':' then seen + 1 else seen, upto);
      assert [t[0]] + t[1..] == t;
    }
  }

  lemma SplicePrefix(pre: string, e: string, p: nat, x: string)
    requires p + 1 <= |e|
    ensures (pre + e)[..|pre| + p] + x + (pre + e)[|pre| + p + 1..] == pre + (e[..p] + x + e[p + 1..])
  {
    assert (pre + e)[..|pre| + p] == pre + e[..p];
    assert (pre + e)[|pre| + p + 1..] == e[p + 1..];
  }

  /**
   * One step of parseQuery's inner loop: with the colons 2..upto escaped,
   * the (upto+1)-th occurrence of ":" is the (upto+1)-th original colon, and
   * replacing it by `\:` escapes the colons 2..upto+1.
   */
  lemma {:induction false} EscStep(t: string, seen: nat, upto: nat)
    requires seen <= upto && 1 <= upto && CountChar(t, ':') >= upto + 1 - seen
    ensures EscStepHolds(t, seen, upto)
    decreases |t|, 1
  {
    if t[0] != ':' {
      EscStepOther(t, seen, upto);
    } else if seen == upto {
      EscStepTarget(t, seen, upto);
    } else {
      EscStepEarlier(t, seen, upto);
    }
  }

  /**
   * The (upto+1-seen)-th ":" of Esc(t, seen, upto) exists, and writing `\:`
   * in its place gives Esc(t, seen, upto + 1).
   */
  predicate EscStepHolds(t: string, seen: nat, upto: nat)
    requires seen <= upto
  {
    var e := Esc(t, seen, upto);
    && NthFrom(e, ":", upto + 1 - seen).Some?
    && var p := NthFrom(e, ":", upto + 1 - seen).value;
    && p + 1 <= |e|
    && e[..p] + "\\:" + e[p + 1..] == Esc(t, seen, upto + 1)
  }

  lemma {:induction false} EscStepOther(t: string, seen: nat, upto: nat)
    requires seen <= upto && 1 <= upto && CountChar(t, ':') >= upto + 1 - seen
    requires t != [] && t[0] != ':'
    ensures EscStepHolds(t, seen, upto)
    decreases |t|, 0
  {
    var k := upto + 1 - seen;
    var t' := t[1..];
    var e' := Esc(t', seen, upto);
    assert Esc(t, seen, upto) == [t[0]] + e';
    assert Esc(t, seen, upto + 1) == [t[0]] + Esc(t', seen, upto + 1);
    EscStep(t', seen, upto);
    var p' := NthFrom(e', ":", k).value;
    NthConsOther(t[0], e', k, p');
    SplicePrefix([t[0]], e', p', "\\:");
  }

  lemma {:induction false} EscStepTarget(t: string, seen: nat, upto: nat)
    requires seen == upto && 1 <= upto && t != [] && t[0] == ':'
    ensures EscStepHolds(t, seen, upto)
  {
    var t' := t[1..];
    var e' := Esc(t', seen + 1, upto);
    assert Esc(t, seen, upto) == ":" + e';
    assert Esc(t, seen, upto + 1) == "\\:" + Esc(t', seen + 1, upto + 1);
    NthCons(':', e', ':', 1);
    EscIdentity(t', seen + 1, upto);
    EscIdentity(t', seen + 1, upto + 1);
    assert (":" + e')[1..] == e';
  }

  lemma {:induction false} EscStepEarlier(t: string, seen: nat, upto: nat)
    requires seen < upto && CountChar(t, ':') >= upto + 1 - seen
    requires t != [] && t[0] == ':'
    ensures EscStepHolds(t, seen, upto)
    decreases |t|, 0
  {
    var t' := t[1..];
    EscStep(t', seen + 1, upto);
    var e' := Esc(t', seen + 1, upto);
    var after := Esc(t', seen + 1, upto + 1);
    var p' := NthFrom(e', ":", upto - seen).value;
    if seen + 1 >= 2 {
      EscapedColonStep(e', after, upto + 1 - seen, p');
      assert Esc(t, seen, upto) == "\\:" + e';
      assert Esc(t, seen, upto + 1) == "\\:" + after;
    } else {
      BareColonStep(e', after, upto + 1 - seen, p');
      assert Esc(t, seen, upto) == ":" + e';
      assert Esc(t, seen, upto + 1) == ":" + after;
    }
  }

  /** Behind the first (bare) colon, the k-th ":" and its replacement move one place right. */
  lemma BareColonStep(e: string, after: string, k: nat, p: nat)
    requires k >= 2 && NthFrom(e, ":", k - 1) == Some(p) && p + 1 <= |e|
    requires e[..p] + "\\:" + e[p + 1..] == after
    ensures NthFrom(":" + e, ":", k) == Some(p + 1)
    ensures (":" + e)[..p + 1] + "\\:" + (":" + e)[p + 2..] == ":" + after
  {
    NthConsColon(e, k, p);
    SplicePrefix(":", e, p, "\\:");
  }

  /** Behind an escaped colon, the k-th ":" and its replacement move two places right. */
  lemma EscapedColonStep(e: string, after: string, k: nat, p: nat)
    requires k >= 2 && NthFrom(e, ":", k - 1) == Some(p) && p + 1 <= |e|
    requires e[..p] + "\\:" + e[p + 1..] == after
    ensures NthFrom("\\:" + e, ":", k) == Some(p + 2)
    ensures ("\\:" + e)[..p + 2] + "\\:" + ("\\:" + e)[p + 3..] == "\\:" + after
  {
    NthConsColon(e, k, p);
    assert "\\:" + e == ['\\'] + (":" + e);
    NthConsOther('\\', ":" + e, k, p + 1);
    SplicePrefix("\\:", e, p, "\\:");
  }

  lemma NthConsOther(a: char, e: string, k: nat, p: nat)
    requires a != ':' && k >= 1 && NthFrom(e, ":", k) == Some(p)
    ensures NthFrom([a] + e, ":", k) == Some(p + 1)
  {
    NthCons(a, e, ':', k);
  }

  lemma NthConsColon(e: string, k: nat, p: nat)
    requires k >= 2 && NthFrom(e, ":", k - 1) == Some(p)
    ensures NthFrom(":" + e, ":", k) == Some(p + 1)
  {
    NthCons(':', e, ':', k);
  }

  /** Escaping adds only backslashes: every other character keeps its count. */
  lemma {:induction false} EscCount(t: string, seen: nat, upto: nat, c: char)
    requires c != '\\'
    ensures CountChar(Esc(t, seen, upto), c) == CountChar(t, c)
    decreases |t|
  {
    if t != [] {
      var next := if t[0] == ':' then seen + 1 else seen;
      var piece := if t[0] == ':' && 2 <= seen + 1 <= upto then "\\:" else [t[0]];
      EscCount(t[1..], next, upto, c);
      CountCharAppend(piece, Esc(t[1..], next, upto), c);
      assert CountChar(piece, c) == (if t[0] == c then 1 else 0) by {
        assert piece[1..] == if |piece| == 2 then [':'] else [];
      }
    }
  }

  /** Exactly one backslash is inserted per colon after the first. */
  lemma {:induction false} EscBackslashes(t: string, seen: nat, upto: nat)
    requires upto >= seen + CountChar(t, ':')
    ensures CountChar(Esc(t, seen, upto), '\\') ==
      CountChar(t, '\\') + CountChar(t, ':') - (if seen == 0 && CountChar(t, ':') > 0 then 1 else 0)
    decreases |t|
  {
    if t != [] {
      var next := if t[0] == ':' then seen + 1 else seen;
      var piece := if t[0] == ':' && 2 <= seen + 1 <= upto then "\\:" else [t[0]];
      EscBackslashes(t[1..], next, upto);
      CountCharAppend(piece, Esc(t[1..], next, upto), '\\');
      assert piece[1..] == if |piece| == 2 then [':'] else [];
    }
  }

  /** Removing the inserted backslashes gives back the token. */
  lemma {:induction false} UnescapeEsc(t: string, seen: nat, upto: nat)
    requires upto >= seen + CountChar(t, ':')
    ensures Unescape(Esc(t, seen, upto), seen) == t
    decreases |t|
  {
    if t != [] {
      var e := Esc(t, seen, upto);
      if t[0] == ':' {
        UnescapeEsc(t[1..], seen + 1, upto);
        if seen >= 1 {
          assert e[2..] == Esc(t[1..], seen + 1, upto);
        } else {
          assert e[1..] == Esc(t[1..], seen + 1, upto);
        }
      } else {
        UnescapeEsc(t[1..], seen, upto);
        assert e[1..] == Esc(t[1..], seen, upto);
      }
      assert [t[0]] + t[1..] == t;
    }
  }

  // ---------------------------------------------------------------------
  // parseQuery
  // ---------------------------------------------------------------------

  /** Every token escaped, in order. */
  function EscapeTokens(ts: seq<string>): (r: seq<string>)
    ensures |r| == |ts| && forall k :: 0 <= k < |ts| ==> r[k] == EscapeToken(ts[k])
  {
    seq(|ts|, k requires 0 <= k < |ts| => EscapeToken(ts[k]))
  }

  /** The query string parseQuery returns: its space-separated tokens, each escaped. */
  function ParsedQuery(q: string): string {
    Join(EscapeTokens(Split(q, ' ')), ' ')
  }

  /**
   * The body of parseQuery's loop for one token: a token with more than one
   * colon has its 2nd, 3rd, ... colon replaced by `\\:` in turn, each time
   * with replaceNth on the token as rewritten so far; any other token is kept.
   */
  method RewriteToken(str: string) returns (r: string)
    ensures r == EscapeToken(str)
  {
    var countChar := CountChar(str, ':');
    if countChar > 1 {
      var tempString := str;
      EscIdentity(str, 0, 1);
      var j := 1;
      while j < countChar
        invariant 1 <= j <= countChar
        invariant tempString == Esc(str, 0, j)
      {
        EscStep(str, 0, j);
        tempString := ReplaceNth(tempString, ":", "\\:", j + 1);
        j := j + 1;
      }
      r := tempString;
    } else {
      EscIdentity(str, 0, countChar);
      r := str;
    }
  }

  /**
   * parseQuery: splits the query on spaces, rewrites each token, and joins
   * the tokens back with spaces. The error it returns is always nil.
   */
  method ParseQuery(query: string) returns (r: string, err: Option<string>)
    ensures r == ParsedQuery(query)
    ensures err == None
  {
    var strs := Split(query, ' ');
    var newQuery: seq<string> := [];
    var i := 0;
    while i < |strs|
      invariant 0 <= i <= |strs|
      invariant newQuery == EscapeTokens(strs[..i])
    {
      var token := RewriteToken(strs[i]);
      newQuery := newQuery + [token];
      assert strs[..i + 1] == strs[..i] + [strs[i]];
      i := i + 1;
    }
    assert strs[..i] == strs;
    r := Join(newQuery, ' ');
    err := None;
  }

  /** A query none of whose tokens has two or more colons comes back unchanged. */
  lemma ParsedQueryIdentity(q: string)
    requires forall k :: 0 <= k < |Split(q, ' ')| ==> CountChar(Split(q, ' ')[k], ':') <= 1
    ensures ParsedQuery(q) == q
  {
    var toks := Split(q, ' ');
    forall k | 0 <= k < |toks|
      ensures EscapeToken(toks[k]) == toks[k]
    {
      EscIdentity(toks[k], 0, CountChar(toks[k], ':'));
    }
    assert EscapeTokens(toks) == toks;
    JoinSplit(q, ' ');
  }

  /**
   * The parsed query has as many space-separated tokens as the query; each
   * keeps its colons, gains one backslash per colon after the first, and
   * gives back the original token when those backslashes are removed.
   */
  lemma ParsedQueryTokens(q: string)
    ensures var toks, out := Split(q, ' '), Split(ParsedQuery(q), ' ');
      && out == EscapeTokens(toks)
      && |out| == |toks|
      && forall k :: 0 <= k < |toks| ==>
        && Unescape(out[k], 0) == toks[k]
        && CountChar(out[k], ':') == CountChar(toks[k], ':')
        && CountChar(out[k], '\\') == CountChar(toks[k], '\\') + CountChar(toks[k], ':') - (if CountChar(toks[k], ':') > 0 then 1 else 0)
  {
    var toks := Split(q, ' ');
    var esc := EscapeTokens(toks);
    forall k | 0 <= k < |toks|
      ensures ' ' !in esc[k]
      ensures Unescape(esc[k], 0) == toks[k]
      ensures CountChar(esc[k], ':') == CountChar(toks[k], ':')
      ensures CountChar(esc[k], '\\') == CountChar(toks[k], '\\') + CountChar(toks[k], ':') - (if CountChar(toks[k], ':') > 0 then 1 else 0)
    {
      var n := CountChar(toks[k], ':');
      EscCount(toks[k], 0, n, ' ');
      CountCharZero(toks[k], ' ');
      CountCharZero(esc[k], ' ');
      EscCount(toks[k], 0, n, ':');
      EscBackslashes(toks[k], 0, n);
      UnescapeEsc(toks[k], 0, n);
    }
    SplitJoin(esc, ' ');
  }
}
