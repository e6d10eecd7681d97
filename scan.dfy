/**
 * Left-to-right scanning over character sequences: the parts of Python's `re`
 * and `str` that the corpus and topic parsers use, without a regex engine.
 *
 * Every pattern of the parsers is written as a MATCHER: a function that, given
 * the whole text and a start position, says whether the pattern matches there,
 * where the match ends and what its first group captured. The backtracking of
 * each pattern is worked out by hand in its matcher, so a matcher is
 * deterministic. `Search`, `Split` and `Sub` then scan positions from left to
 * right exactly as `re.search`, `re.split` and `re.sub` do for patterns that
 * never match the empty string.
 */
module Scan {
  import opened Wrappers

  /** `\s` of Python 2 on byte strings: space, tab, line feed, carriage return, vertical tab, form feed. */
  predicate IsSpace(c: char) {
    c == ' ' || c == '\t' || c == '\n' || c == '\r' || c == '\U{000B}' || c == '\U{000C}'
  }

  /** `\w` of Python 2 on byte strings. */
  predicate IsWordChar(c: char) {
    ('a' <= c <= 'z') || ('A' <= c <= 'Z') || ('0' <= c <= '9') || c == '_'
  }

  /** `\d`. */
  predicate IsDigit(c: char) {
    '0' <= c <= '9'
  }

  predicate IsPrefixAt(s: string, i: nat, lit: string) {
    i + |lit| <= |s| && s[i..i + |lit|] == lit
  }

  /** A literal at the start of a suffix occurs in the whole text at the suffix's offset. */
  lemma PrefixAtSuffix(s: string, i: nat, lit: string)
    requires i <= |s| && IsPrefixAt(s[i..], 0, lit)
    ensures IsPrefixAt(s, i, lit)
  {
    assert s[i..][0..|lit|] == s[i..i + |lit|];
  }

  /** A literal cannot occur where its first character is missing. */
  lemma NotPrefixAt(s: string, i: nat, lit: string)
    requires |lit| > 0 && i < |s| && s[i] != lit[0]
    ensures !IsPrefixAt(s, i, lit)
  {
    NotPrefixAtK(s, i, lit, 0);
  }

  /** A literal cannot occur where its `k`-th character is missing. */
  lemma NotPrefixAtK(s: string, i: nat, lit: string, k: nat)
    requires k < |lit| && i + k < |s| && s[i + k] != lit[k]
    ensures !IsPrefixAt(s, i, lit)
  {
    if i + |lit| <= |s| {
      assert s[i..i + |lit|][k] == s[i + k];
    }
  }

  /** A literal occurs wherever a longer literal starting with it occurs. */
  lemma PrefixAtShorter(s: string, i: nat, lit: string, pre: string)
    requires IsPrefixAt(s, i, lit) && |pre| <= |lit| && lit[..|pre|] == pre
    ensures IsPrefixAt(s, i, pre)
  {
    assert s[i..i + |pre|] == s[i..i + |lit|][..|pre|];
  }

  /** `lit` occurs at `i` in `a + lit + b` when `i` is `|a|`. */
  lemma PrefixAtJoin(a: string, lit: string, b: string)
    ensures IsPrefixAt(a + lit + b, |a|, lit)
  {
    assert (a + lit + b)[|a|..|a| + |lit|] == lit;
  }

  /** The end of the longest run of characters satisfying `p` that starts at `i`. */
  function SkipWhile(s: string, i: nat, p: char -> bool): (r: nat)
    requires i <= |s|
    ensures i <= r <= |s|
    ensures forall k :: i <= k < r ==> p(s[k])
    ensures r < |s| ==> !p(s[r])
    decreases |s| - i
  {
    if i == |s| || !p(s[i]) then i else SkipWhile(s, i + 1, p)
  }

  /** A run of characters satisfying `p` that ends where `p` fails is what `SkipWhile` skips. */
  lemma {:induction false} SkipWhileRun(s: string, i: nat, e: nat, p: char -> bool)
    requires i <= e <= |s|
    requires forall k :: i <= k < e ==> p(s[k])
    requires e < |s| ==> !p(s[e])
    ensures SkipWhile(s, i, p) == e
    decreases e - i
  {
    if i < e {
      SkipWhileRun(s, i + 1, e, p);
    }
  }

  /** A match: the position just after it, and the text of its first group ("" when it has none). */
  datatype Match = Match(end: nat, group: string)

  type Matcher = (string, nat) -> Option<Match>

  /** Every match consumes at least one character and stays inside the text. */
  ghost predicate Advances(m: Matcher) {
    forall s: string, i: nat :: m(s, i).Some? ==> i < m(s, i).value.end <= |s|
  }

  /** `re.search` from position `i`: the leftmost position where `m` matches, with its match. */
  function SearchFrom(s: string, i: nat, m: Matcher): (r: Option<(nat, Match)>)
    requires i <= |s|
    ensures r.Some? ==> i <= r.value.0 < |s| && m(s, r.value.0) == Some(r.value.1)
    ensures r.Some? ==> forall p :: i <= p < r.value.0 ==> m(s, p).None?
    ensures r.None? ==> forall p :: i <= p < |s| ==> m(s, p).None?
    decreases |s| - i
  {
    if i == |s| then None
    else if m(s, i).Some? then Some((i, m(s, i).value))
    else SearchFrom(s, i + 1, m)
  }

  /** `m` first matches `s` at `p`, and that match's group is `g`. */
  predicate LeftmostGroup(s: string, p: nat, m: Matcher, g: string) {
    p < |s| && m(s, p).Some? && m(s, p).value.group == g && forall q :: 0 <= q < p ==> m(s, q).None?
  }

  /** There is only one leftmost match, and so only one group it captures. */
  lemma LeftmostUnique(s: string, p: nat, q: nat, m: Matcher, g: string, h: string)
    requires LeftmostGroup(s, p, m, g) && LeftmostGroup(s, q, m, h)
    ensures p == q && g == h
  {
  }

  function Search(s: string, m: Matcher): Option<(nat, Match)> {
    SearchFrom(s, 0, m)
  }

  /** The search stops at the first position where the pattern matches. */
  lemma SearchFinds(s: string, p: nat, m: Matcher)
    requires p < |s| && m(s, p).Some?
    requires forall q :: 0 <= q < p ==> m(s, q).None?
    ensures Search(s, m) == Some((p, m(s, p).value))
  {
  }

  /** `re.split` of `s[start..]`: the pieces between successive leftmost matches. */
  function SplitFrom(s: string, start: nat, m: Matcher): (parts: seq<string>)
    requires start <= |s|
    requires Advances(m)
    ensures |parts| >= 1
    decreases |s| - start
  {
    match SearchFrom(s, start, m)
    case None => [s[start..]]
    case Some((p, mt)) => [s[start..p]] + SplitFrom(s, mt.end, m)
  }

  function Split(s: string, m: Matcher): seq<string>
    requires Advances(m)
  {
    SplitFrom(s, 0, m)
  }

  /** Where the first match after `start` is at `p`, the first piece ends at `p` and splitting resumes after the match. */
  lemma SplitFromFirst(s: string, start: nat, p: nat, m: Matcher)
    requires start <= p < |s|
    requires Advances(m)
    requires m(s, p).Some? && forall q :: start <= q < p ==> m(s, q).None?
    ensures SplitFrom(s, start, m) == [s[start..p]] + SplitFrom(s, m(s, p).value.end, m)
  {
  }

  /** Where no match follows `start`, the rest is one piece. */
  lemma SplitFromLast(s: string, start: nat, m: Matcher)
    requires start <= |s|
    requires Advances(m)
    requires forall q :: start <= q < |s| ==> m(s, q).None?
    ensures SplitFrom(s, start, m) == [s[start..]]
  {
  }

  /** The matched texts that `SplitFrom` drops, in order. */
  function DelimitersFrom(s: string, start: nat, m: Matcher): seq<string>
    requires start <= |s|
    requires Advances(m)
    decreases |s| - start
  {
    match SearchFrom(s, start, m)
    case None => []
    case Some((p, mt)) => [s[p..mt.end]] + DelimitersFrom(s, mt.end, m)
  }

  /** parts[0] + delims[0] + parts[1] + ... + parts[|delims|]. */
  function Interleave(parts: seq<string>, delims: seq<string>): string
    requires |parts| == |delims| + 1
    decreases |delims|
  {
    if delims == [] then parts[0] else parts[0] + delims[0] + Interleave(parts[1..], delims[1..])
  }

  /** Splitting loses nothing: the pieces and the delimiters between them give back the text. */
  lemma {:induction false} SplitRoundTrip(s: string, start: nat, m: Matcher)
    requires start <= |s|
    requires Advances(m)
    ensures |SplitFrom(s, start, m)| == |DelimitersFrom(s, start, m)| + 1
    ensures Interleave(SplitFrom(s, start, m), DelimitersFrom(s, start, m)) == s[start..]
    decreases |s| - start
  {
    match SearchFrom(s, start, m)
    case None =>
    case Some((p, mt)) =>
      SplitRoundTrip(s, mt.end, m);
      var parts := SplitFrom(s, start, m);
      var delims := DelimitersFrom(s, start, m);
      assert parts[1..] == SplitFrom(s, mt.end, m);
      assert delims[1..] == DelimitersFrom(s, mt.end, m);
      assert s[start..] == s[start..p] + s[p..mt.end] + s[mt.end..];
  }

  /** A text in which the pattern never matches is split into itself alone. */
  lemma SplitWithoutMatches(s: string, m: Matcher)
    requires Advances(m)
    requires forall p :: 0 <= p < |s| ==> m(s, p).None?
    ensures Split(s, m) == [s]
  {
  }

  /** What `re.sub` puts in place of a match: a fixed text, or `\1`. */
  datatype Replacement = Literal(text: string) | FirstGroup

  function Substitute(mt: Match, repl: Replacement): string {
    match repl
    case Literal(t) => t
    case FirstGroup => mt.group
  }

  /** `re.sub` (and `str.replace` for a literal pattern) on `s[i..]`: one left-to-right pass. */
  function SubFrom(s: string, i: nat, m: Matcher, repl: Replacement): string
    requires i <= |s|
    requires Advances(m)
    decreases |s| - i
  {
    if i == |s| then []
    else match m(s, i)
      case Some(mt) => Substitute(mt, repl) + SubFrom(s, mt.end, m, repl)
      case None => [s[i]] + SubFrom(s, i + 1, m, repl)
  }

  function Sub(s: string, m: Matcher, repl: Replacement): string
    requires Advances(m)
  {
    SubFrom(s, 0, m, repl)
  }

  /** How many replacements `SubFrom` makes. */
  function MatchCountFrom(s: string, i: nat, m: Matcher): nat
    requires i <= |s|
    requires Advances(m)
    decreases |s| - i
  {
    if i == |s| then 0
    else match m(s, i)
      case Some(mt) => 1 + MatchCountFrom(s, mt.end, m)
      case None => MatchCountFrom(s, i + 1, m)
  }

  /** Where the pattern does not match, the character is copied. */
  lemma SubFromAtChar(s: string, i: nat, m: Matcher, repl: Replacement)
    requires i < |s| && Advances(m) && m(s, i).None?
    ensures SubFrom(s, i, m, repl) == [s[i]] + SubFrom(s, i + 1, m, repl)
  {
  }

  /** Where the pattern matches, the replacement is written and the scan resumes after the match. */
  lemma SubFromAtMatch(s: string, i: nat, m: Matcher, repl: Replacement)
    requires i < |s| && Advances(m) && m(s, i).Some?
    ensures SubFrom(s, i, m, repl) == Substitute(m(s, i).value, repl) + SubFrom(s, m(s, i).value.end, m, repl)
  {
  }

  /** Where the pattern never matches, substitution changes nothing. */
  lemma {:induction false} SubWithoutMatches(s: string, i: nat, m: Matcher, repl: Replacement)
    requires i <= |s|
    requires Advances(m)
    requires forall p :: i <= p < |s| ==> m(s, p).None?
    ensures SubFrom(s, i, m, repl) == s[i..]
    decreases |s| - i
  {
    if i < |s| {
      SubWithoutMatches(s, i + 1, m, repl);
      SubFromAtChar(s, i, m, repl);
      assert s[i..] == [s[i]] + s[i + 1..];
    }
  }

  /** Every match of `m` in `s[i..]` is at least as long as what replaces it. */
  ghost predicate ReplacementsShrink(s: string, i: nat, m: Matcher, repl: Replacement)
    requires Advances(m)
  {
    forall p :: i <= p < |s| && m(s, p).Some? ==> p + |Substitute(m(s, p).value, repl)| <= m(s, p).value.end
  }

  /** A substitution that never puts in more than it takes out does not lengthen the text. */
  lemma {:induction false} SubNoLonger(s: string, i: nat, m: Matcher, repl: Replacement)
    requires i <= |s|
    requires Advances(m)
    requires ReplacementsShrink(s, i, m, repl)
    ensures |SubFrom(s, i, m, repl)| <= |s| - i
    decreases |s| - i
  {
    if i < |s| {
      if m(s, i).Some? {
        SubNoLonger(s, m(s, i).value.end, m, repl);
        SubFromAtMatch(s, i, m, repl);
      } else {
        SubNoLonger(s, i + 1, m, repl);
        SubFromAtChar(s, i, m, repl);
      }
    }
  }

  /** What a substitution does to the length of a text, and to a text the pattern never matches. */
  lemma SubFacts(s: string, m: Matcher, repl: Replacement)
    requires Advances(m)
    requires ReplacementsShrink(s, 0, m, repl)
    ensures |Sub(s, m, repl)| <= |s|
    ensures (forall p :: 0 <= p < |s| ==> m(s, p).None?) ==> Sub(s, m, repl) == s
  {
    SubNoLonger(s, 0, m, repl);
    if forall p :: 0 <= p < |s| ==> m(s, p).None? {
      SubWithoutMatches(s, 0, m, repl);
    }
  }

  /** Deleting matches never puts in more than it takes out. */
  lemma DeletionShrinks(s: string, m: Matcher)
    requires Advances(m)
    ensures ReplacementsShrink(s, 0, m, Literal(""))
  {
  }

  /** A stretch with no match is copied as it is, and substitution resumes after it. */
  lemma {:induction false} SubFromSkips(s: string, i: nat, k: nat, m: Matcher, repl: Replacement)
    requires i <= k <= |s|
    requires Advances(m)
    requires forall p :: i <= p < k ==> m(s, p).None?
    ensures SubFrom(s, i, m, repl) == s[i..k] + SubFrom(s, k, m, repl)
    decreases k - i
  {
    if i < k {
      SubFromSkips(s, i + 1, k, m, repl);
      SubFromAtChar(s, i, m, repl);
      ConsSlice(s, i, k, SubFrom(s, k, m, repl));
    }
  }

  lemma ConsSlice(s: string, i: nat, k: nat, tail: string)
    requires i < k <= |s|
    ensures [s[i]] + (s[i + 1..k] + tail) == s[i..k] + tail
  {
    assert s[i..k] == [s[i]] + s[i + 1..k];
  }

  /** The matches of `m` in `s[i..]` never cover the character `c`. */
  ghost predicate MatchesAvoid(s: string, i: nat, m: Matcher, c: char)
    requires Advances(m)
  {
    forall p :: i <= p < |s| && m(s, p).Some? ==> c !in s[p..m(s, p).value.end]
  }

  /** The count of `c` in what a literal substitution produces from `s[i..]`. */
  ghost predicate CountsAgree(s: string, i: nat, m: Matcher, x: string, c: char)
    requires i <= |s|
    requires Advances(m)
  {
    multiset(SubFrom(s, i, m, Literal(x)))[c]
      == multiset(s[i..])[c] + (if c in x then MatchCountFrom(s, i, m) else 0)
  }

  /**
   * Counting one character through a literal substitution whose matches never
   * cover it: every replacement adds the copies in the replacement text, and
   * every other occurrence survives. Stated for a replacement holding at most
   * one copy, the two cases the parsers need.
   */
  lemma {:induction false} SubCount(s: string, i: nat, m: Matcher, x: string, c: char)
    requires i <= |s|
    requires Advances(m)
    requires MatchesAvoid(s, i, m, c)
    requires multiset(x)[c] <= 1
    ensures CountsAgree(s, i, m, x, c)
    decreases |s| - i
  {
    if i < |s| {
      if m(s, i).Some? {
        var e := m(s, i).value.end;
        SubCount(s, e, m, x, c);
        SubCountAtMatch(s, i, m, x, c);
      } else {
        SubCount(s, i + 1, m, x, c);
        SubCountAtChar(s, i, m, x, c);
      }
    }
  }

  lemma SubCountAtMatch(s: string, i: nat, m: Matcher, x: string, c: char)
    requires i < |s|
    requires Advances(m)
    requires m(s, i).Some?
    requires c !in s[i..m(s, i).value.end]
    requires multiset(x)[c] <= 1
    requires CountsAgree(s, m(s, i).value.end, m, x, c)
    ensures CountsAgree(s, i, m, x, c)
  {
    var e := m(s, i).value.end;
    assert SubFrom(s, i, m, Literal(x)) == x + SubFrom(s, e, m, Literal(x));
    assert MatchCountFrom(s, i, m) == 1 + MatchCountFrom(s, e, m);
    assert s[i..] == s[i..e] + s[e..];
    assert multiset(s[i..e])[c] == 0;
    assert multiset(x)[c] == if c in x then 1 else 0;
  }

  lemma SubCountAtChar(s: string, i: nat, m: Matcher, x: string, c: char)
    requires i < |s|
    requires Advances(m)
    requires m(s, i).None?
    requires CountsAgree(s, i + 1, m, x, c)
    ensures CountsAgree(s, i, m, x, c)
  {
    SubFromAtChar(s, i, m, Literal(x));
    assert MatchCountFrom(s, i, m) == MatchCountFrom(s, i + 1, m);
    assert s[i..] == [s[i]] + s[i + 1..];
  }

  /** `lit` at `i`, as a matcher for a pattern with no special characters. */
  function LiteralAt(s: string, i: nat, lit: string): (r: Option<Match>)
    ensures r.Some? ==> i < r.value.end <= |s|
    ensures r.Some? <==> |lit| > 0 && IsPrefixAt(s, i, lit)
  {
    if |lit| > 0 && IsPrefixAt(s, i, lit) then Some(Match(i + |lit|, "")) else None
  }

  /**
   * `close\s*open` at `i`, the record-boundary pattern of both parsers. The run
   * of whitespace is taken whole: `open` starts with a character that is not
   * whitespace, so no shorter run could be followed by it.
   */
  function BoundaryAt(s: string, i: nat, close: string, open: string): (r: Option<Match>)
    ensures r.Some? ==> i < r.value.end <= |s|
    ensures r.Some? ==> IsPrefixAt(s, i, close) && |open| <= r.value.end && IsPrefixAt(s, r.value.end - |open|, open)
  {
    if |close| > 0 && IsPrefixAt(s, i, close) then
      var k := SkipWhile(s, i + |close|, IsSpace);
      if IsPrefixAt(s, k, open) then Some(Match(k + |open|, "")) else None
    else None
  }

  /** `str.lstrip()`. */
  function TrimStart(s: string): (r: string)
    ensures |r| <= |s| && r == s[|s| - |r|..]
    ensures forall k :: 0 <= k < |s| - |r| ==> IsSpace(s[k])
    ensures r == [] || !IsSpace(r[0])
    decreases |s|
  {
    if s != [] && IsSpace(s[0]) then TrimStart(s[1..]) else s
  }

  /** `str.rstrip()`. */
  function TrimEnd(s: string): (r: string)
    ensures |r| <= |s| && r == s[..|r|]
    ensures forall k :: |r| <= k < |s| ==> IsSpace(s[k])
    ensures r == [] || !IsSpace(r[|r| - 1])
    decreases |s|
  {
    if s != [] && IsSpace(s[|s| - 1]) then TrimEnd(s[..|s| - 1]) else s
  }

  /** `s[i..j]` is `s` with whitespace, and only whitespace, cut from both ends. */
  predicate CutsBlanks(s: string, i: nat, j: nat) {
    i <= j <= |s|
    && (forall k :: 0 <= k < i ==> IsSpace(s[k]))
    && (forall k :: j <= k < |s| ==> IsSpace(s[k]))
  }

  /** `str.strip()`: no whitespace left at either end, and only whitespace removed. */
  function Strip(s: string): (r: string)
    ensures r == [] || (!IsSpace(r[0]) && !IsSpace(r[|r| - 1]))
    ensures exists i: nat, j: nat :: CutsBlanks(s, i, j) && r == s[i..j]
    ensures forall c :: c in r ==> c in s
  {
    var t := TrimStart(s);
    var r := TrimEnd(t);
    CutBothEnds(s, t, r);
    r
  }

  /** Cutting whitespace from the front and then from the back cuts it from both ends. */
  lemma CutBothEnds(s: string, t: string, r: string)
    requires |t| <= |s| && t == s[|s| - |t|..] && forall k :: 0 <= k < |s| - |t| ==> IsSpace(s[k])
    requires |r| <= |t| && r == t[..|r|] && forall k :: |r| <= k < |t| ==> IsSpace(t[k])
    ensures exists i: nat, j: nat :: CutsBlanks(s, i, j) && r == s[i..j]
    ensures forall c :: c in r ==> c in s
  {
    var i := |s| - |t|;
    var j := i + |r|;
    assert r == s[i..j];
    forall k | j <= k < |s| ensures IsSpace(s[k]) {
      assert s[k] == t[k - i];
    }
    assert CutsBlanks(s, i, j);
  }

  /** Whatever way whitespace is cut from both ends of `s` to leave a stripped text, that text is `Strip(s)`. */
  lemma StripUnique(s: string, i: nat, j: nat)
    requires CutsBlanks(s, i, j)
    requires i == j || (!IsSpace(s[i]) && !IsSpace(s[j - 1]))
    ensures Strip(s) == s[i..j]
  {
    var i', j' := StripCut(s);
    SameCut(s, i, j, i', j');
  }

  /** The cut that Strip makes ends on non-whitespace characters. */
  lemma StripCut(s: string) returns (i: nat, j: nat)
    ensures CutsBlanks(s, i, j) && Strip(s) == s[i..j]
    ensures i == j || (!IsSpace(s[i]) && !IsSpace(s[j - 1]))
  {
    var r := Strip(s);
    i, j :| CutsBlanks(s, i, j) && r == s[i..j];
    if i < j {
      assert r[0] == s[i] && r[|r| - 1] == s[j - 1];
    }
  }

  /** Two cuts that both end on non-whitespace characters are the same cut. */
  lemma SameCut(s: string, i: nat, j: nat, i': nat, j': nat)
    requires CutsBlanks(s, i, j) && (i == j || (!IsSpace(s[i]) && !IsSpace(s[j - 1])))
    requires CutsBlanks(s, i', j') && (i' == j' || (!IsSpace(s[i']) && !IsSpace(s[j' - 1])))
    ensures s[i..j] == s[i'..j']
  {
    if i' < j' {
      InsideCut(s, i, j, i');
      InsideCut(s, i, j, j' - 1);
    }
    if i < j {
      InsideCut(s, i', j', i);
      InsideCut(s, i', j', j - 1);
    }
  }

  /** A character that is not whitespace survives the cut. */
  lemma InsideCut(s: string, i: nat, j: nat, k: nat)
    requires CutsBlanks(s, i, j) && k < |s| && !IsSpace(s[k])
    ensures i <= k < j
  {
  }

  /** Stripping a text that has no whitespace at either end gives it back. */
  lemma StripKeeps(s: string)
    requires s == [] || (!IsSpace(s[0]) && !IsSpace(s[|s| - 1]))
    ensures Strip(s) == s
  {
  }

  function DigitChar(d: nat): (c: char)
    requires d < 10
    ensures IsDigit(c)
  {
    ('0' as int + d) as char
  }

  function DigitValue(c: char): (d: nat)
    requires IsDigit(c)
    ensures d < 10
  {
    c as int - '0' as int
  }

  /** Python's `int()` of a run of decimal digits. */
  function DigitsValue(ds: string): nat
    requires forall k :: 0 <= k < |ds| ==> IsDigit(ds[k])
    decreases |ds|
  {
    if ds == [] then 0 else DigitsValue(ds[..|ds| - 1]) * 10 + DigitValue(ds[|ds| - 1])
  }

  /** Decimal rendering of a natural number, as `'{}'.format(n)` gives it. */
  function NatToString(n: nat): (r: string)
    ensures |r| >= 1
    ensures forall k :: 0 <= k < |r| ==> IsDigit(r[k])
    decreases n
  {
    if n < 10 then [DigitChar(n)] else NatToString(n / 10) + [DigitChar(n % 10)]
  }

  /** Reading back a rendered number gives the number. */
  lemma {:induction false} DigitsRoundTrip(n: nat)
    ensures DigitsValue(NatToString(n)) == n
    decreases n
  {
    var r := NatToString(n);
    if n >= 10 {
      DigitsRoundTrip(n / 10);
      assert r[..|r| - 1] == NatToString(n / 10);
    }
  }
}
