/**
 * The topic parser of search.py (`parse_raw_queries`): a TREC topics file is
 * cut into topics at `</top>\s*<top>`; each topic yields its number, its
 * title line, its description and its narrative. The description and the
 * narrative have their line feeds turned into spaces and are stripped; the
 * narrative also loses the `</top>` that closes the last topic.
 */
module Topics {
  import opened Wrappers
  import opened Scan

  /** One parsed topic: the `_id`, `title`, `desc` and `narr` entries of the source's dictionary. */
  datatype Query = Query(id: nat, title: string, desc: string, narr: string)

  /** The field whose pattern found nothing; Python raises on `None.group` there. */
  datatype TopicError = MissingNum | MissingTitle | MissingDesc | MissingNarr

  const NumTag: string := "<num> Number: "
  const TitleTag: string := "<title> Topic: "
  const DescTag: string := "<desc> Description:\n"
  const NarrTag: string := "<narr> Narrative:\n"
  const NarrOpen: string := "<narr>"

  // ---------------------------------------------------------------- matchers

  /** `</top>\s*<top>`. */
  function TopBoundaryAt(s: string, i: nat): (r: Option<Match>)
    ensures r.Some? ==> i < r.value.end <= |s|
    ensures r.Some? ==> IsPrefixAt(s, i, "</top>")
  {
    BoundaryAt(s, i, "</top>", "<top>")
  }

  /** `<num> Number: (\d+)`: the digit run is greedy and nothing follows it. */
  function NumAt(s: string, i: nat): (r: Option<Match>)
    ensures r.Some? ==> i < r.value.end <= |s|
    ensures r.Some? ==> IsPrefixAt(s, i, NumTag) && i + |NumTag| < r.value.end && r.value.group == s[i + |NumTag|..r.value.end]
    ensures r.Some? ==> |r.value.group| > 0 && forall k :: 0 <= k < |r.value.group| ==> IsDigit(r.value.group[k])
    ensures r.Some? ==> r.value.end == |s| || !IsDigit(s[r.value.end])
  {
    var b := i + |NumTag|;
    if IsPrefixAt(s, i, NumTag) then
      var e := SkipWhile(s, b, IsDigit);
      if e > b then Some(Match(e, s[b..e])) else None
    else None
  }

  predicate NotNewline(c: char) {
    c != '\n'
  }

  /** `<title> Topic: (.+)`: `.` stops at a line feed, and the run is greedy. */
  function TitleAt(s: string, i: nat): (r: Option<Match>)
    ensures r.Some? ==> i < r.value.end <= |s|
    ensures r.Some? ==> IsPrefixAt(s, i, TitleTag) && i + |TitleTag| < r.value.end && r.value.group == s[i + |TitleTag|..r.value.end]
    ensures r.Some? ==> |r.value.group| > 0 && '\n' !in r.value.group
    ensures r.Some? ==> r.value.end == |s| || s[r.value.end] == '\n'
  {
    var b := i + |TitleTag|;
    if IsPrefixAt(s, i, TitleTag) then
      var e := SkipWhile(s, b, NotNewline);
      if e > b then Some(Match(e, s[b..e])) else None
    else None
  }

  /** The last position from `lo` on where `lit` occurs. */
  function LastFrom(s: string, lo: nat, lit: string): (r: Option<nat>)
    requires lo <= |s|
    ensures r.Some? ==> lo <= r.value <= |s| && IsPrefixAt(s, r.value, lit)
    ensures r.Some? ==> forall q :: r.value < q <= |s| ==> !IsPrefixAt(s, q, lit)
    ensures r.None? ==> forall q :: lo <= q <= |s| ==> !IsPrefixAt(s, q, lit)
    decreases |s| - lo
  {
    var later := if lo == |s| then None else LastFrom(s, lo + 1, lit);
    if later.Some? then later
    else if IsPrefixAt(s, lo, lit) then Some(lo)
    else None
  }

  /** The last occurrence is the one after which no other follows. */
  lemma {:induction false} LastFromIs(s: string, lo: nat, lit: string, c: nat)
    requires lo <= c <= |s| && IsPrefixAt(s, c, lit)
    requires forall q :: c < q <= |s| ==> !IsPrefixAt(s, q, lit)
    ensures LastFrom(s, lo, lit) == Some(c)
    decreases c - lo
  {
    if lo < c {
      LastFromIs(s, lo + 1, lit, c);
    }
  }

  /**
   * `<desc> Description:\n([\w\W]+)<narr>`: the group may cross line feeds
   * and is greedy, so it runs to the LAST `<narr>` that leaves it non-empty.
   */
  function DescAt(s: string, i: nat): (r: Option<Match>)
    ensures r.Some? ==> i < r.value.end <= |s|
    ensures r.Some? ==> IsPrefixAt(s, i, DescTag) && |NarrOpen| <= r.value.end
    ensures r.Some? ==> var p := r.value.end - |NarrOpen|;
      i + |DescTag| < p && r.value.group == s[i + |DescTag|..p] && IsPrefixAt(s, p, NarrOpen)
      && forall q :: p < q <= |s| ==> !IsPrefixAt(s, q, NarrOpen)
    ensures IsPrefixAt(s, i, DescTag) && (exists q :: i + |DescTag| < q <= |s| && IsPrefixAt(s, q, NarrOpen)) ==> r.Some?
  {
    var b := i + |DescTag|;
    if IsPrefixAt(s, i, DescTag) && b < |s| then
      match LastFrom(s, b + 1, NarrOpen)
      case Some(p) => Some(Match(p + |NarrOpen|, s[b..p]))
      case None => None
    else None
  }

  /** The description pattern at a `<desc>` tag, when the last `<narr>` lies past the tag. */
  lemma DescAtLast(s: string, i: nat, c: nat)
    requires IsPrefixAt(s, i, DescTag) && i + |DescTag| < c <= |s| && IsPrefixAt(s, c, NarrOpen)
    requires forall q :: c < q <= |s| ==> !IsPrefixAt(s, q, NarrOpen)
    ensures DescAt(s, i) == Some(Match(c + |NarrOpen|, s[i + |DescTag|..c]))
  {
    LastFromIs(s, i + |DescTag| + 1, NarrOpen, c);
  }

  /** `<narr> Narrative:\n([\w\W]+)`: the group is the rest of the text, which must not be empty. */
  function NarrAt(s: string, i: nat): (r: Option<Match>)
    ensures r.Some? ==> i < r.value.end <= |s|
    ensures r.Some? <==> IsPrefixAt(s, i, NarrTag) && i + |NarrTag| < |s|
    ensures r.Some? ==> r.value.end == |s| && r.value.group == s[i + |NarrTag|..]
  {
    var b := i + |NarrTag|;
    if IsPrefixAt(s, i, NarrTag) && b < |s| then Some(Match(|s|, s[b..])) else None
  }

  /** The literal patterns of `str.replace`. */
  function NewlineAt(s: string, i: nat): (r: Option<Match>)
    ensures r.Some? ==> i < r.value.end <= |s|
    ensures r.Some? <==> i < |s| && s[i] == '\n'
    ensures r.Some? ==> r.value.end == i + 1
  {
    LiteralAt(s, i, "\n")
  }

  function TopCloseAt(s: string, i: nat): (r: Option<Match>)
    ensures r.Some? ==> i < r.value.end <= |s|
    ensures r.Some? <==> IsPrefixAt(s, i, "</top>")
    ensures r.Some? ==> r.value.end == i + 6
  {
    LiteralAt(s, i, "</top>")
  }

  lemma MatchersAdvance()
    ensures Advances(TopBoundaryAt) && Advances(NumAt) && Advances(TitleAt) && Advances(DescAt)
    ensures Advances(NarrAt) && Advances(NewlineAt) && Advances(TopCloseAt)
  {
  }

  // ------------------------------------------------------------- the fields

  /** The `</top>\s*<top>` separators between the topics, left to right. */
  ghost function TopBoundaries(rawData: string): seq<string> {
    MatchersAdvance();
    DelimitersFrom(rawData, 0, TopBoundaryAt)
  }

  /** The topics of a file: the pieces between the separators, which put back between them give the file. */
  function TopicSegments(rawData: string): (segs: seq<string>)
    ensures |segs| == |TopBoundaries(rawData)| + 1
    ensures Interleave(segs, TopBoundaries(rawData)) == rawData
    ensures (forall p :: 0 <= p < |rawData| ==> TopBoundaryAt(rawData, p).None?) ==> segs == [rawData]
  {
    MatchersAdvance();
    SplitRoundTrip(rawData, 0, TopBoundaryAt);
    assert rawData[0..] == rawData;
    Split(rawData, TopBoundaryAt)
  }

  /** `.replace('\n', ' ')`: every line feed becomes a space and nothing else changes. */
  function SpaceNewlines(t: string): (r: string)
    ensures |r| == |t|
    ensures forall k :: 0 <= k < |t| ==> r[k] == if t[k] == '\n' then ' ' else t[k]
    ensures '\n' !in r
  {
    MatchersAdvance();
    SpaceNewlinesFrom(t, 0);
    Sub(t, NewlineAt, Literal(" "))
  }

  /** `.replace('</top>', '')`: one left-to-right pass deleting every `</top>`. */
  function DropTopClose(t: string): (r: string)
    ensures |r| <= |t|
    ensures (forall p :: 0 <= p < |t| ==> TopCloseAt(t, p).None?) ==> r == t
  {
    MatchersAdvance();
    DeletionShrinks(t, TopCloseAt);
    SubFacts(t, TopCloseAt, Literal(""));
    Sub(t, TopCloseAt, Literal(""))
  }

  /** Neither end of `t` is whitespace, as after `str.strip()`. */
  predicate IsStripped(t: string) {
    t == [] || (!IsSpace(t[0]) && !IsSpace(t[|t| - 1]))
  }

  /**
   * The description field made from the `desc` group: the group with its line
   * feeds turned into spaces, cut of the whitespace at both ends.
   */
  function DescText(group: string): (r: string)
    ensures '\n' !in r && IsStripped(r)
    ensures exists i: nat, j: nat :: CutsBlanks(SpaceNewlines(group), i, j) && r == SpaceNewlines(group)[i..j]
  {
    Strip(SpaceNewlines(group))
  }

  /**
   * The narrative field made from the `narr` group: the group with its line
   * feeds turned into spaces and its `</top>` removed, cut of the whitespace at
   * both ends.
   */
  function NarrText(group: string): (r: string)
    ensures '\n' !in r && IsStripped(r)
    ensures exists i: nat, j: nat :: CutsBlanks(DropTopClose(SpaceNewlines(group)), i, j)
                                     && r == DropTopClose(SpaceNewlines(group))[i..j]
  {
    var spaced := SpaceNewlines(group);
    DropTopCloseKeepsNoNewline(spaced);
    Strip(DropTopClose(spaced))
  }

  /** One topic: the four fields, or the first one whose pattern found nothing. */
  function ParseTopic(rawQuery: string): (r: Result<Query, TopicError>)
    ensures r.Ok? <==> Search(rawQuery, NumAt).Some? && Search(rawQuery, TitleAt).Some?
                       && Search(rawQuery, DescAt).Some? && Search(rawQuery, NarrAt).Some?
    ensures r.Err? ==> r.error == (if Search(rawQuery, NumAt).None? then MissingNum
                                   else if Search(rawQuery, TitleAt).None? then MissingTitle
                                   else if Search(rawQuery, DescAt).None? then MissingDesc
                                   else MissingNarr)
    ensures r.Ok? ==> |r.value.title| > 0 && '\n' !in r.value.title
    ensures r.Ok? ==> '\n' !in r.value.desc && IsStripped(r.value.desc)
    ensures r.Ok? ==> '\n' !in r.value.narr && IsStripped(r.value.narr)
    ensures r.Ok? ==> r.value.id == DigitsValue(Search(rawQuery, NumAt).value.1.group)
    ensures r.Ok? ==> r.value.title == Search(rawQuery, TitleAt).value.1.group
    ensures r.Ok? ==> r.value.desc == DescText(Search(rawQuery, DescAt).value.1.group)
    ensures r.Ok? ==> r.value.narr == NarrText(Search(rawQuery, NarrAt).value.1.group)
  {
    match Search(rawQuery, NumAt)
    case None => Err(MissingNum)
    case Some((_, num)) =>
      match Search(rawQuery, TitleAt)
      case None => Err(MissingTitle)
      case Some((_, title)) =>
        match Search(rawQuery, DescAt)
        case None => Err(MissingDesc)
        case Some((_, desc)) =>
          match Search(rawQuery, NarrAt)
          case None => Err(MissingNarr)
          case Some((_, narr)) =>
            Ok(Query(DigitsValue(num.group), title.group, DescText(desc.group), NarrText(narr.group)))
  }

  function TopicParses(segs: seq<string>): (rs: seq<Result<Query, TopicError>>)
    ensures |rs| == |segs| && forall k :: 0 <= k < |segs| ==> rs[k] == ParseTopic(segs[k])
  {
    seq(|segs|, k requires 0 <= k < |segs| => ParseTopic(segs[k]))
  }

  /** What `parse_raw_queries` returns: one query per topic, in file order, or the first failure. */
  function ParseQueries(rawData: string): (r: Result<seq<Query>, TopicError>)
    ensures r.Ok? <==> forall k :: 0 <= k < |TopicSegments(rawData)| ==> ParseTopic(TopicSegments(rawData)[k]).Ok?
  {
    AllOk(TopicParses(TopicSegments(rawData)))
  }

  /** `parse_raw_queries`: the loop appends each topic's query in turn. */
  method ParseRawQueries(rawData: string) returns (r: Result<seq<Query>, TopicError>)
    ensures r == ParseQueries(rawData)
  {
    var rawQueries := TopicSegments(rawData);
    ghost var rs := TopicParses(rawQueries);
    var queries: seq<Query> := [];
    for n := 0 to |rawQueries|
      invariant AllOk(rs[..n]) == Ok(queries)
    {
      var q := ParseTopic(rawQueries[n]);
      if q.Err? {
        AllOkStopsAtError(rs, n);
        return Err(q.error);
      }
      AllOkSnoc(rs, n, queries);
      queries := queries + [q.value];
    }
    assert rs[..|rawQueries|] == rs;
    r := Ok(queries);
  }

  // ------------------------------------------------------------------ lemmas

  /** Each field of a parsed topic comes from the group of its pattern's leftmost match. */
  lemma TopicFieldsLeftmost(rawQuery: string)
    requires ParseTopic(rawQuery).Ok?
    ensures var q := ParseTopic(rawQuery).value;
      && (exists p: nat, g: string :: LeftmostGroup(rawQuery, p, NumAt, g) && q.id == DigitsValue(g))
      && (exists p: nat :: LeftmostGroup(rawQuery, p, TitleAt, q.title))
      && (exists p: nat, g: string :: LeftmostGroup(rawQuery, p, DescAt, g) && q.desc == DescText(g))
      && (exists p: nat, g: string :: LeftmostGroup(rawQuery, p, NarrAt, g) && q.narr == NarrText(g))
  {
    var (pn, num) := Search(rawQuery, NumAt).value;
    var (pt, title) := Search(rawQuery, TitleAt).value;
    var (pd, desc) := Search(rawQuery, DescAt).value;
    var (pr, narr) := Search(rawQuery, NarrAt).value;
    assert LeftmostGroup(rawQuery, pn, NumAt, num.group);
    assert LeftmostGroup(rawQuery, pt, TitleAt, title.group);
    assert LeftmostGroup(rawQuery, pd, DescAt, desc.group);
    assert LeftmostGroup(rawQuery, pr, NarrAt, narr.group);
  }

  lemma {:induction false} SpaceNewlinesFrom(t: string, i: nat)
    requires i <= |t| && Advances(NewlineAt)
    ensures |SubFrom(t, i, NewlineAt, Literal(" "))| == |t| - i
    ensures forall k :: i <= k < |t| ==>
      SubFrom(t, i, NewlineAt, Literal(" "))[k - i] == if t[k] == '\n' then ' ' else t[k]
    decreases |t| - i
  {
    if i < |t| {
      SpaceNewlinesFrom(t, i + 1);
      var c := if t[i] == '\n' then ' ' else t[i];
      assert SubFrom(t, i, NewlineAt, Literal(" ")) == [c] + SubFrom(t, i + 1, NewlineAt, Literal(" "));
    }
  }

  /** Deleting `</top>` cannot bring a line feed back. */
  lemma DropTopCloseKeepsNoNewline(t: string)
    requires '\n' !in t
    ensures '\n' !in DropTopClose(t)
  {
    MatchersAdvance();
    assert MatchesAvoid(t, 0, TopCloseAt, '\n') by {
      forall p | 0 <= p < |t| && TopCloseAt(t, p).Some?
        ensures '\n' !in t[p..TopCloseAt(t, p).value.end]
      {
        assert t[p..p + 6] == "</top>";
      }
    }
    SubCount(t, 0, TopCloseAt, "", '\n');
    assert t[0..] == t;
  }

  /** A parsed file has one query per topic, in file order, duplicates included. */
  lemma QueriesPerTopic(rawData: string)
    requires ParseQueries(rawData).Ok?
    ensures var qs := ParseQueries(rawData).value; var segs := TopicSegments(rawData);
      |qs| == |segs| && forall k :: 0 <= k < |segs| ==> ParseTopic(segs[k]) == Ok(qs[k])
  {
  }

  /** A failed parse reports the first topic that lacks a field. */
  lemma QueriesFailure(rawData: string) returns (k: nat)
    requires ParseQueries(rawData).Err?
    ensures var segs := TopicSegments(rawData);
      k < |segs| && ParseTopic(segs[k]) == Err(ParseQueries(rawData).error)
      && forall j :: 0 <= j < k ==> ParseTopic(segs[j]).Ok?
  {
    k := AllOkFirstError(TopicParses(TopicSegments(rawData)));
  }

  lemma TopCloseSplit()
    ensures ['<'] + "/top>" == "</top>"
  {
  }

  /** A single pass: a `</top>` that the deletion itself brings together survives. */
  lemma DropTopCloseSinglePass()
    ensures DropTopClose("<</top>/top>") == "</top>"
  {
    MatchersAdvance();
    var s := "<</top>/top>";
    var drop := Literal("");
    var tail := SubFrom(s, 7, TopCloseAt, drop);
    assert tail == "/top>" by {
      forall p | 7 <= p < |s| ensures TopCloseAt(s, p).None? {
        assert p + 6 > |s|;
      }
      SubWithoutMatches(s, 7, TopCloseAt, drop);
    }
    assert SubFrom(s, 1, TopCloseAt, drop) == tail by {
      assert s[1..7] == "</top>";
      assert TopCloseAt(s, 1).value.end == 7;
    }
    assert SubFrom(s, 0, TopCloseAt, drop) == [s[0]] + SubFrom(s, 1, TopCloseAt, drop) by {
      NotPrefixAtK(s, 0, "</top>", 1);
    }
    assert s[0] == '<';
    TopCloseSplit();
  }
}
