/**
 * What the corpus parser of index.py guarantees: the shape of the cleaned
 * text after each step, the identifiers and contents of the dictionary, and
 * the failure of the function as it stands.
 */
module CorpusProperties {
  import opened Wrappers
  import opened Scan
  import opened Corpus

  // ------------------------------------------------------------ tag stripping

  /** No `>` comes before the end of the first line of `t`. */
  predicate FirstLineNoGt(t: string)
    decreases |t|
  {
    t == [] || t[0] == '\n' || (t[0] != '>' && FirstLineNoGt(t[1..]))
  }

  /** Every `<` of `t` is followed by no `>` on its own line. */
  predicate NoTagLeft(t: string)
    decreases |t|
  {
    t == [] || ((t[0] == '<' ==> FirstLineNoGt(t[1..])) && NoTagLeft(t[1..]))
  }

  lemma {:induction false} FirstLineAppend(a: string, b: string)
    requires forall k :: 0 <= k < |a| ==> a[k] != '>' && a[k] != '\n'
    requires FirstLineNoGt(b)
    ensures FirstLineNoGt(a + b)
    decreases |a|
  {
    if a != [] {
      FirstLineAppend(a[1..], b);
      assert (a + b)[0] == a[0];
      assert (a + b)[1..] == a[1..] + b;
    } else {
      assert a + b == b;
    }
  }

  /** The text after a `<` that `<.*?>` does not match at has no `>` on its line, once stripped. */
  lemma StrippedAfterUnmatchedLt(s: string, i: nat)
    requires i < |s| && s[i] == '<' && TagAt(s, i).None?
    requires forall j :: i < j <= |s| ==> NoTagLeft(SubFrom(s, j, TagAt, Literal("")))
    ensures FirstLineNoGt(SubFrom(s, i + 1, TagAt, Literal("")))
  {
    MatchersAdvance();
    var k := SkipWhile(s, i + 1, IsTagBodyChar);
    assert k < |s| ==> s[k] == '\n';
    forall j | i + 1 <= j < k ensures TagAt(s, j).None? {
      assert SkipWhile(s, j + 1, IsTagBodyChar) == k;
    }
    SubFromSkips(s, i + 1, k, TagAt, Literal(""));
    var rest := SubFrom(s, k, TagAt, Literal(""));
    if k < |s| {
      assert s[k] == '\n' && TagAt(s, k).None?;
      SubFromAtChar(s, k, TagAt, Literal(""));
      assert rest[0] == '\n';
    }
    assert FirstLineNoGt(rest);
    FirstLineAppend(s[i + 1..k], rest);
  }

  lemma {:induction false} StripTagsFromClean(s: string, i: nat)
    requires i <= |s|
    ensures NoTagLeft(SubFrom(s, i, TagAt, Literal("")))
    decreases |s| - i
  {
    MatchersAdvance();
    if i < |s| {
      forall j | i < j <= |s| ensures NoTagLeft(SubFrom(s, j, TagAt, Literal(""))) {
        StripTagsFromClean(s, j);
      }
      if TagAt(s, i).Some? {
        assert SubFrom(s, i, TagAt, Literal("")) == SubFrom(s, TagAt(s, i).value.end, TagAt, Literal(""));
      } else {
        var r := SubFrom(s, i, TagAt, Literal(""));
        assert r == [s[i]] + SubFrom(s, i + 1, TagAt, Literal(""));
        assert r[1..] == SubFrom(s, i + 1, TagAt, Literal(""));
        if s[i] == '<' {
          StrippedAfterUnmatchedLt(s, i);
        }
      }
    }
  }

  lemma {:induction false} FirstLineNoGtAt(u: string, b: nat)
    requires FirstLineNoGt(u)
    requires b < |u| && forall j :: 0 <= j < b ==> u[j] != '\n'
    ensures u[b] != '>'
    decreases b
  {
    if b > 0 {
      FirstLineNoGtAt(u[1..], b - 1);
    }
  }

  /** `NoTagLeft` spelled out: between a `<` and a later `>` there is always a line feed. */
  lemma {:induction false} NoTagLeftMeans(t: string)
    requires NoTagLeft(t)
    ensures forall a, b :: 0 <= a < b < |t| && t[a] == '<' && t[b] == '>' ==> '\n' in t[a + 1..b]
    decreases |t|
  {
    if t != [] {
      NoTagLeftMeans(t[1..]);
      forall a, b | 0 <= a < b < |t| && t[a] == '<' && t[b] == '>' ensures '\n' in t[a + 1..b] {
        if a == 0 {
          if '\n' !in t[1..b] {
            assert forall j :: 0 <= j < b - 1 ==> t[1..][j] == t[1..b][j];
            FirstLineNoGtAt(t[1..], b - 1);
          }
        } else {
          assert t[1..][a - 1 + 1..b - 1] == t[a + 1..b];
        }
      }
    }
  }

  /** After `re.sub(r'<.*?>', '', text)` no `<` is followed later on its line by a `>`. */
  lemma StripTagsLeavesNoTag(text: string)
    ensures forall a, b :: 0 <= a < b < |StripTags(text)| && StripTags(text)[a] == '<' && StripTags(text)[b] == '>'
              ==> '\n' in StripTags(text)[a + 1..b]
  {
    StripTagsFromClean(text, 0);
    NoTagLeftMeans(StripTags(text));
  }

  /** Stripping tags twice is stripping them once. */
  lemma StripTagsIdempotent(text: string)
    ensures StripTags(StripTags(text)) == StripTags(text)
  {
    MatchersAdvance();
    var r := StripTags(text);
    StripTagsLeavesNoTag(text);
    forall p | 0 <= p < |r| ensures TagAt(r, p).None? {
      var k := SkipWhile(r, p + 1, IsTagBodyChar);
      assert forall j :: p + 1 <= j < k ==> r[j] != '\n';
    }
    SubWithoutMatches(r, 0, TagAt, Literal(""));
  }

  /** Tag stripping keeps every line feed: removed spans never hold one. */
  lemma StripTagsKeepsLines(text: string)
    ensures multiset(StripTags(text))['\n'] == multiset(text)['\n']
  {
    MatchersAdvance();
    SubCount(text, 0, TagAt, "", '\n');
    assert text[0..] == text;
  }

  // -------------------------------------------------------- space compaction

  /** No separator token (`"\r\n"` or `" "`) is immediately followed by another. */
  predicate NoDoubleSeparator(t: string) {
    forall p :: 0 <= p < |t| ==> !DoubleAt(t, p)
  }

  /** A separator token starts at `p` and another follows it at once. */
  predicate DoubleAt(t: string, p: nat) {
    SeparatorAt(t, p) > 0 && SeparatorAt(t, p + SeparatorAt(t, p)) > 0
  }

  lemma SeparatorShift(a: string, b: string, p: nat)
    ensures SeparatorAt(a + b, |a| + p) == SeparatorAt(b, p)
  {
    if p + 2 <= |b| {
      assert (a + b)[|a| + p..|a| + p + 2] == b[p..p + 2];
    }
    if p < |b| {
      assert (a + b)[|a| + p] == b[p];
    }
  }

  /** What compaction makes of `s[i..]`: no doubled separator, and the same first character and token. */
  ghost predicate CompactedFrom(s: string, i: nat)
    requires i <= |s|
  {
    SeparatorRunAdvances();
    var r := SubFrom(s, i, SeparatorRunAt, FirstGroup);
    NoDoubleSeparator(r) && SeparatorAt(r, 0) == SeparatorAt(s, i)
    && (|r| > 0 <==> i < |s|) && (i < |s| ==> r[0] == s[i])
  }

  lemma {:induction false} CompactFrom(s: string, i: nat)
    requires i <= |s|
    ensures CompactedFrom(s, i)
    decreases |s| - i
  {
    MatchersAdvance();
    if i < |s| {
      match SeparatorRunAt(s, i)
      case Some(mt) =>
        CompactFrom(s, mt.end);
        CompactAtRun(s, i);
      case None =>
        CompactFrom(s, i + 1);
        CompactAtChar(s, i);
    }
  }

  lemma CompactAtRun(s: string, i: nat)
    requires i < |s| && SeparatorRunAt(s, i).Some?
    requires CompactedFrom(s, SeparatorRunAt(s, i).value.end)
    ensures CompactedFrom(s, i)
  {
    MatchersAdvance();
    var mt := SeparatorRunAt(s, i).value;
    var r := SubFrom(s, i, SeparatorRunAt, FirstGroup);
    var k := SeparatorAt(s, i);
    var g := s[i..i + k];
    var rest := SubFrom(s, mt.end, SeparatorRunAt, FirstGroup);
    assert r == g + rest;
    if k == 2 {
      assert g == "\r\n";
    } else {
      assert g == " ";
    }
    TokenThenNoDouble(g, rest);
  }

  /** A single separator token before a compacted text that does not start with one. */
  lemma TokenThenNoDouble(g: string, rest: string)
    requires g == "\r\n" || g == " "
    requires NoDoubleSeparator(rest) && SeparatorAt(rest, 0) == 0
    ensures NoDoubleSeparator(g + rest) && SeparatorAt(g + rest, 0) == |g|
  {
    var r := g + rest;
    SeparatorShift(g, rest, 0);
    TokenHead(g, rest);
    forall p | 0 <= p < |r|
      ensures !DoubleAt(r, p)
    {
      if p >= |g| {
        assert !DoubleAt(rest, p - |g|);
        SeparatorShift(g, rest, p - |g|);
        SeparatorShift(g, rest, p - |g| + SeparatorAt(rest, p - |g|));
      }
    }
  }

  /** The token at the head of `g + rest` is `g`, and inside "\r\n" no other starts. */
  lemma TokenHead(g: string, rest: string)
    requires g == "\r\n" || g == " "
    ensures SeparatorAt(g + rest, 0) == |g|
    ensures |g| == 2 ==> SeparatorAt(g + rest, 1) == 0
  {
    var r := g + rest;
    if g == "\r\n" {
      assert r[0] == '\r' && r[1] == '\n';
      assert r[0..2] == "\r\n";
    } else {
      assert r[0] == ' ';
    }
  }

  /** A character that starts no token before a compacted text. */
  lemma CharThenNoDouble(c: char, rest: string)
    requires NoDoubleSeparator(rest) && SeparatorAt([c] + rest, 0) == 0
    ensures NoDoubleSeparator([c] + rest)
  {
    var r := [c] + rest;
    forall p | 0 <= p < |r|
      ensures !DoubleAt(r, p)
    {
      if p > 0 {
        assert !DoubleAt(rest, p - 1);
        SeparatorShift([c], rest, p - 1);
        SeparatorShift([c], rest, p - 1 + SeparatorAt(rest, p - 1));
      }
    }
  }

  lemma CompactAtChar(s: string, i: nat)
    requires i < |s| && SeparatorRunAt(s, i).None?
    requires CompactedFrom(s, i + 1)
    ensures CompactedFrom(s, i)
  {
    SeparatorRunAdvances();
    var r := SubFrom(s, i, SeparatorRunAt, FirstGroup);
    var rest := SubFrom(s, i + 1, SeparatorRunAt, FirstGroup);
    assert r == [s[i]] + rest;
    if i + 1 < |s| {
      assert r[1] == s[i + 1];
      assert r[0..2] == s[i..i + 2];
    }
    CharThenNoDouble(s[i], rest);
  }

  /** After `re.sub(r'(\r\n| )(\r\n| )*', r'\1', text)` no separator token follows another. */
  lemma CompactLeavesNoDouble(text: string)
    ensures NoDoubleSeparator(Compact(text))
  {
    CompactFrom(text, 0);
  }

  /** A text without doubled separators is left as it is by compaction. */
  lemma {:induction false} CompactKeeps(t: string, i: nat)
    requires i <= |t|
    requires NoDoubleSeparator(t)
    ensures SubFrom(t, i, SeparatorRunAt, FirstGroup) == t[i..]
    decreases |t| - i
  {
    SeparatorRunAdvances();
    if i < |t| {
      var k := SeparatorAt(t, i);
      if k > 0 {
        CompactKeeps(t, i + k);
        assert !DoubleAt(t, i);
        KeepsAtToken(t, i);
      } else {
        CompactKeeps(t, i + 1);
        KeepsAtChar(t, i);
      }
    }
  }

  lemma KeepsAtToken(t: string, i: nat)
    requires i < |t| && SeparatorAt(t, i) > 0 && SeparatorAt(t, i + SeparatorAt(t, i)) == 0
    requires SubFrom(t, i + SeparatorAt(t, i), SeparatorRunAt, FirstGroup) == t[i + SeparatorAt(t, i)..]
    ensures SubFrom(t, i, SeparatorRunAt, FirstGroup) == t[i..]
  {
    var k := SeparatorAt(t, i);
    assert SeparatorRunAt(t, i) == Some(Match(i + k, t[i..i + k]));
    SeparatorRunAdvances();
    SubFromAtMatch(t, i, SeparatorRunAt, FirstGroup);
    assert t[i..] == t[i..i + k] + t[i + k..];
  }

  lemma KeepsAtChar(t: string, i: nat)
    requires i < |t| && SeparatorAt(t, i) == 0
    requires SubFrom(t, i + 1, SeparatorRunAt, FirstGroup) == t[i + 1..]
    ensures SubFrom(t, i, SeparatorRunAt, FirstGroup) == t[i..]
  {
    SeparatorRunAdvances();
    SubFromAtChar(t, i, SeparatorRunAt, FirstGroup);
    assert t[i..] == [t[i]] + t[i + 1..];
  }

  /** Compacting twice is compacting once. */
  lemma CompactIdempotent(text: string)
    ensures Compact(Compact(text)) == Compact(text)
  {
    CompactLeavesNoDouble(text);
    CompactKeeps(Compact(text), 0);
  }

  // ---------------------------------------------------------------- entities

  /**
   * Entities are handled in order: every `&blank;` becomes exactly one space
   * before the other entities are dropped, and dropping them removes no space.
   */
  lemma BlanksBecomeSpaces(text: string)
    ensures multiset(DropEntities(ReplaceBlanks(text)))[' ']
            == multiset(text)[' '] + MatchCountFrom(text, 0, BlankAt)
  {
    MatchersAdvance();
    BlanksAvoidSpace(text);
    SubCount(text, 0, BlankAt, " ", ' ');
    var r := ReplaceBlanks(text);
    EntitiesAvoidSpace(r);
    SubCount(r, 0, EntityAt, "", ' ');
    assert text[0..] == text && r[0..] == r;
  }

  lemma BlanksAvoidSpace(text: string)
    ensures Advances(BlankAt) && MatchesAvoid(text, 0, BlankAt, ' ')
  {
    MatchersAdvance();
    forall p | 0 <= p < |text| && BlankAt(text, p).Some?
      ensures ' ' !in text[p..BlankAt(text, p).value.end]
    {
    }
  }

  lemma EntitiesAvoidSpace(r: string)
    ensures Advances(EntityAt) && MatchesAvoid(r, 0, EntityAt, ' ')
  {
    MatchersAdvance();
    forall p | 0 <= p < |r| && EntityAt(r, p).Some?
      ensures ' ' !in r[p..EntityAt(r, p).value.end]
    {
      var e := EntityAt(r, p).value.end;
      assert forall j :: p <= j < e ==> r[j] == '&' || r[j] == ';' || IsWordChar(r[j]);
    }
  }

  /** The order matters: dropping entities first would lose every `&blank;`. */
  lemma EntityOrderMatters()
    ensures DropEntities(ReplaceBlanks("&blank;")) == " "
    ensures ReplaceBlanks(DropEntities("&blank;")) == ""
  {
    MatchersAdvance();
    assert BlankAt("&blank;", 0) == Some(Match(7, ""));
    assert ReplaceBlanks("&blank;") == " ";
    assert EntityAt(" ", 0).None?;
    assert DropEntities(" ") == [' '] + SubFrom(" ", 1, EntityAt, Literal(""));
    assert SkipWhile("&blank;", 1, IsWordChar) == 6;
    assert EntityAt("&blank;", 0) == Some(Match(7, ""));
    assert DropEntities("&blank;") == "";
  }

  /** Cleaning as a whole is not idempotent: an entity can be assembled by dropping another. */
  lemma CleaningNotIdempotent()
    ensures CleanText("&a&b;;") == "&a;"
    ensures CleanText("&a;") == ""
  {
    ShortHasNoBlank("&a&b;;");
    ShortHasNoBlank("&a;");
    InnerEntityDropped();
    AssembledEntityDropped();
    NoTagNoSeparatorKept();
    MatchersAdvance();
    assert StripTags("") == "" && Compact("") == "";
  }

  /** A text shorter than `&blank;` holds none. */
  lemma ShortHasNoBlank(s: string)
    requires |s| < 7
    ensures ReplaceBlanks(s) == s
  {
    MatchersAdvance();
    SubWithoutMatches(s, 0, BlankAt, Literal(" "));
    assert s[0..] == s;
  }

  /** In `&a&b;;` only `&b;` is an entity; dropping it leaves `&a;`. */
  lemma InnerEntityDropped()
    ensures DropEntities("&a&b;;") == "&a;"
  {
    MatchersAdvance();
    var s := "&a&b;;";
    assert SkipWhile(s, 1, IsWordChar) == 2;
    assert SkipWhile(s, 3, IsWordChar) == 4;
    assert EntityAt(s, 0).None? && EntityAt(s, 1).None?;
    assert EntityAt(s, 2) == Some(Match(5, ""));
    assert EntityAt(s, 5).None?;
    SubFromAtChar(s, 0, EntityAt, Literal(""));
    SubFromAtChar(s, 1, EntityAt, Literal(""));
    SubFromAtMatch(s, 2, EntityAt, Literal(""));
    SubFromAtChar(s, 5, EntityAt, Literal(""));
    assert SubFrom(s, 0, EntityAt, Literal("")) == ['&'] + ['a'] + [] + [';'] + [];
  }

  /** `&a;` is an entity, so dropping entities leaves nothing. */
  lemma AssembledEntityDropped()
    ensures DropEntities("&a;") == ""
  {
    MatchersAdvance();
    var u := "&a;";
    assert SkipWhile(u, 1, IsWordChar) == 2;
    assert EntityAt(u, 0) == Some(Match(3, ""));
    SubFromAtMatch(u, 0, EntityAt, Literal(""));
  }

  /** `&a;` holds no tag and no separator, so the last two steps keep it. */
  lemma NoTagNoSeparatorKept()
    ensures Compact(StripTags("&a;")) == "&a;"
  {
    MatchersAdvance();
    var u := "&a;";
    SubWithoutMatches(u, 0, TagAt, Literal(""));
    SubWithoutMatches(u, 0, SeparatorRunAt, FirstGroup);
    assert u[0..] == u;
  }

  // ------------------------------------------------------------- the records

  /** `open\s([\w+-]+)\s close` matches an identifier enclosed by single spaces. */
  lemma TaggedIdMatches(s: string, i: nat, open: string, close: string, id: string)
    requires |open| > 0 && IsPrefixAt(s, i, open) && IsIdentifier(id)
    requires i + |open| + 1 + |id| < |s|
    requires s[i + |open|] == ' ' && s[i + |open| + 1 + |id|] == ' '
    requires s[i + |open| + 1..i + |open| + 1 + |id|] == id
    requires IsPrefixAt(s, i + |open| + 2 + |id|, close)
    ensures TaggedIdAt(s, i, open, close) == Some(Match(i + |open| + 2 + |id| + |close|, id))
  {
    var b := i + |open| + 1;
    var e := b + |id|;
    forall k | b <= k < e ensures IsIdChar(s[k]) {
      assert s[k] == s[b..e][k - b] == id[k - b];
    }
    SkipWhileRun(s, b, e, IsIdChar);
  }

  /** Where the parts of `<DOCNO> id </DOCNO>` sit in a text built around it. */
  lemma DocNoLayout(pre: string, id: string, post: string)
    ensures var s := pre + "<DOCNO> " + id + " </DOCNO>" + post;
      IsPrefixAt(s, |pre|, "<DOCNO>") && IsPrefixAt(s, |pre| + 9 + |id|, "</DOCNO>")
      && s[|pre| + 8..|pre| + 8 + |id|] == id && s[|pre| + 7] == ' ' && s[|pre| + 8 + |id|] == ' '
  {
    OpenTagLayout(pre, id, post);
    CloseTagLayout(pre, id, post);
    IdLayout(pre, id, post);
  }

  lemma OpenTagLayout(pre: string, id: string, post: string)
    ensures IsPrefixAt(pre + "<DOCNO> " + id + " </DOCNO>" + post, |pre|, "<DOCNO>")
  {
    PrefixAtJoin(pre, "<DOCNO>", " " + id + " </DOCNO>" + post);
    assert pre + "<DOCNO>" + (" " + id + " </DOCNO>" + post) == pre + "<DOCNO> " + id + " </DOCNO>" + post;
  }

  lemma CloseTagLayout(pre: string, id: string, post: string)
    ensures IsPrefixAt(pre + "<DOCNO> " + id + " </DOCNO>" + post, |pre| + 9 + |id|, "</DOCNO>")
  {
    PrefixAtJoin(pre + "<DOCNO> " + id + " ", "</DOCNO>", post);
    assert pre + "<DOCNO> " + id + " " + "</DOCNO>" + post == pre + "<DOCNO> " + id + " </DOCNO>" + post;
  }

  lemma IdLayout(pre: string, id: string, post: string)
    ensures var s := pre + "<DOCNO> " + id + " </DOCNO>" + post;
      s[|pre| + 8..|pre| + 8 + |id|] == id && s[|pre| + 7] == ' ' && s[|pre| + 8 + |id|] == ' '
  {
    PrefixAtJoin(pre + "<DOCNO> ", id, " </DOCNO>" + post);
    assert pre + "<DOCNO> " + id + (" </DOCNO>" + post) == pre + "<DOCNO> " + id + " </DOCNO>" + post;
  }

  /** `<DOCNO>\s([\w+-]+)\s</DOCNO>` matches at the tag and captures the identifier. */
  lemma DocNoMatches(pre: string, id: string, post: string)
    requires IsIdentifier(id)
    ensures DocNoAt(pre + "<DOCNO> " + id + " </DOCNO>" + post, |pre|) == Some(Match(|pre| + 17 + |id|, id))
  {
    DocNoLayout(pre, id, post);
    TaggedIdMatches(pre + "<DOCNO> " + id + " </DOCNO>" + post, |pre|, "<DOCNO>", "</DOCNO>", id);
  }

  /** The `<DOCNO>` pattern finds the identifier it encloses when it matches nowhere before it. */
  lemma DocNoFinds(pre: string, id: string, post: string)
    requires IsIdentifier(id)
    requires forall p :: 0 <= p < |pre| ==> DocNoAt(pre + "<DOCNO> " + id + " </DOCNO>" + post, p).None?
    ensures DocNo(pre + "<DOCNO> " + id + " </DOCNO>" + post) == Some(id)
  {
    var s := pre + "<DOCNO> " + id + " </DOCNO>" + post;
    DocNoMatches(pre, id, post);
    SearchFinds(s, |pre|, DocNoAt);
  }

  /** Where the parts of `pre + "<TEXT>" + t + post` sit. */
  lemma TextLayout(pre: string, t: string, post: string)
    ensures var s := pre + "<TEXT>" + t + post;
      IsPrefixAt(s, |pre|, "<TEXT>") && s[|pre| + 6..|pre| + 6 + |t|] == t && s[|pre| + 6 + |t|..] == post
  {
    var s := pre + "<TEXT>" + t + post;
    assert IsPrefixAt(s, |pre|, "<TEXT>") by {
      PrefixAtJoin(pre, "<TEXT>", t + post);
      assert pre + "<TEXT>" + (t + post) == s;
    }
    assert s[|pre| + 6..|pre| + 6 + |t|] == t by {
      PrefixAtJoin(pre + "<TEXT>", t, post);
    }
  }

  /** `</?TEXT>` never matches where no `<` is. */
  lemma NoTextTagWithoutLt(s: string, b: nat, e: nat)
    requires b <= e <= |s|
    requires forall k :: b <= k < e ==> s[k] != '<'
    ensures forall p :: b <= p < e ==> TextTagAt(s, p).None?
  {
    forall p | b <= p < e ensures TextTagAt(s, p).None? {
      NotPrefixAt(s, p, "<TEXT>");
      NotPrefixAt(s, p, "</TEXT>");
    }
  }

  /** The text region is what lies between the first `<TEXT>` and the next tag or the end. */
  lemma TextBetweenTags(pre: string, t: string, post: string)
    requires forall p :: 0 <= p < |pre| ==> TextTagAt(pre + "<TEXT>" + t + post, p).None?
    requires forall p :: |pre| + 6 <= p < |pre| + 6 + |t| ==> TextTagAt(pre + "<TEXT>" + t + post, p).None?
    requires post == [] || TextTagAt(post, 0).Some?
    ensures TextRegion(pre + "<TEXT>" + t + post) == Some(t)
  {
    MatchersAdvance();
    var s := pre + "<TEXT>" + t + post;
    var b := |pre| + 6;
    var e := b + |t|;
    TextLayout(pre, t, post);
    SplitFromFirst(s, 0, |pre|, TextTagAt);
    assert TextTagAt(s, |pre|) == Some(Match(b, ""));
    if post != [] {
      PostStartsWithTag(pre, t, post);
      SplitFromFirst(s, b, e, TextTagAt);
    } else {
      SplitFromLast(s, b, TextTagAt);
      assert s[b..] == s[b..e];
    }
  }

  /** A region without `<` holds no `<TEXT>` or `</TEXT>`. */
  lemma RegionHasNoTextTag(pre: string, t: string, post: string)
    requires '<' !in t
    ensures var s := pre + "<TEXT>" + t + post;
      IsPrefixAt(s, |pre|, "<TEXT>") && s[|pre| + 6..|pre| + 6 + |t|] == t
      && forall p :: |pre| + 6 <= p < |pre| + 6 + |t| ==> TextTagAt(s, p).None?
  {
    var s := pre + "<TEXT>" + t + post;
    var b := |pre| + 6;
    var e := b + |t|;
    TextLayout(pre, t, post);
    forall k | b <= k < e ensures s[k] != '<' {
      assert s[k] == s[b..e][k - b];
    }
    NoTextTagWithoutLt(s, b, e);
  }

  /** A non-empty remainder starts with a text tag. */
  lemma PostStartsWithTag(pre: string, t: string, post: string)
    requires post != [] && TextTagAt(post, 0).Some?
    ensures TextTagAt(pre + "<TEXT>" + t + post, |pre| + 6 + |t|).Some?
  {
    var s := pre + "<TEXT>" + t + post;
    var e := |pre| + 6 + |t|;
    TextLayout(pre, t, post);
    if IsPrefixAt(post, 0, "<TEXT>") {
      PrefixAtSuffix(s, e, "<TEXT>");
    } else {
      PrefixAtSuffix(s, e, "</TEXT>");
    }
  }

  /**
   * A record's content comes only from its text region: whatever surrounds the
   * region, the document is its identifier with the cleaned region.
   */
  lemma ContentFromRegion(rawDoc: string, id: string, pre: string, t: string, post: string)
    requires DocNo(rawDoc) == Some(id)
    requires RemoveParent(rawDoc) == pre + "<TEXT>" + t + post
    requires forall p :: 0 <= p < |pre| ==> TextTagAt(pre + "<TEXT>" + t + post, p).None?
    requires forall p :: |pre| + 6 <= p < |pre| + 6 + |t| ==> TextTagAt(pre + "<TEXT>" + t + post, p).None?
    requires post == [] || TextTagAt(post, 0).Some?
    ensures ParseDocument(rawDoc) == Ok(Document(id, CleanText(t)))
  {
    TextBetweenTags(pre, t, post);
  }

  // -------------------------------------------------------- the dictionary

  /**
   * A successful parse: the dictionary holds, without duplicates, exactly the
   * `<DOCNO>` identifiers of the records, each mapped to what the last record
   * with that identifier assigned.
   */
  lemma CorpusEntries(rawData: string) returns (ds: seq<Document>)
    requires ParseCorpus(rawData).Ok?
    ensures |ds| == |DocSegments(rawData)|
    ensures forall k :: 0 <= k < |ds| ==> ParseDocument(DocSegments(rawData)[k]) == Ok(ds[k])
    ensures forall k :: 0 <= k < |ds| ==> DocNo(DocSegments(rawData)[k]) == Some(ds[k].id)
    ensures NoDupIds(ParseCorpus(rawData).value)
    ensures IdsOf(ParseCorpus(rawData).value) == IdsOf(ds)
    ensures AsMap(ParseCorpus(rawData).value) == Assigned(ds)
  {
    var segs := DocSegments(rawData);
    var rs := Parses(segs);
    ds := AllOk(rs).value;
    assert ParseCorpus(rawData) == Ok(Collect(ds));
    forall k | 0 <= k < |ds|
      ensures ParseDocument(segs[k]) == Ok(ds[k]) && DocNo(segs[k]) == Some(ds[k].id)
    {
      assert rs[k] == Ok(ds[k]);
    }
  }

  /** A failed parse reports the error of the first malformed record, all records before it being well formed. */
  lemma CorpusFailure(rawData: string) returns (k: nat)
    requires ParseCorpus(rawData).Err?
    ensures k < |DocSegments(rawData)|
    ensures ParseDocument(DocSegments(rawData)[k]) == Err(ParseCorpus(rawData).error)
    ensures forall j :: 0 <= j < k ==> ParseDocument(DocSegments(rawData)[j]).Ok?
  {
    var rs := Parses(DocSegments(rawData));
    k := AllOkFirstError(rs);
  }

  /** The record holding `rawDoc` fails exactly when it lacks an identifier or a text tag. */
  lemma MalformedRecord(rawDoc: string)
    ensures DocNo(rawDoc).None? ==> ParseDocument(rawDoc) == Err(MissingDocNo)
    ensures DocNo(rawDoc).Some? && (forall p :: 0 <= p < |RemoveParent(rawDoc)| ==> TextTagAt(RemoveParent(rawDoc), p).None?)
            ==> ParseDocument(rawDoc) == Err(MissingText)
  {
  }

  // ------------------------------------------- the function as it stands

  /** A corpus of one record: an identifier, then the text region running to the end. */
  function OneRecord(id: string, t: string): string {
    "<DOCNO> " + id + " </DOCNO><TEXT>" + t
  }

  /** The only `<` of a one-record corpus outside its text are those of its three tags. */
  lemma OneRecordLayout(id: string, t: string)
    requires IsIdentifier(id) && '<' !in t
    ensures var s := OneRecord(id, t);
      |s| == 23 + |id| + |t|
      && (forall p :: 0 <= p < |s| && s[p] == '<' ==> p == 0 || p == 9 + |id| || p == 17 + |id|)
      && s[1] == 'D' && s[10 + |id|] == '/' && s[11 + |id|] == 'D' && s[14 + |id|] == 'N' && s[18 + |id|] == 'T'
  {
    var s := OneRecord(id, t);
    forall p | 0 <= p < |s| ensures s[p] == '<' ==> p == 0 || p == 9 + |id| || p == 17 + |id| {
      if 8 <= p < 8 + |id| {
        assert s[p] == id[p - 8];
      } else if p >= 23 + |id| {
        assert s[p] == t[p - 23 - |id|];
      }
    }
  }

  /** None of the record patterns other than the two tags it holds matches in a one-record corpus. */
  lemma OneRecordPatterns(id: string, t: string)
    requires IsIdentifier(id) && '<' !in t
    ensures var s := OneRecord(id, t);
      (forall p :: 0 <= p < |s| ==> DocBoundaryAt(s, p).None? && ParentAt(s, p).None?)
      && (forall p :: 0 <= p < 17 + |id| ==> TextTagAt(s, p).None?)
  {
    var s := OneRecord(id, t);
    OneRecordLayout(id, t);
    forall p | 0 <= p < |s| ensures DocBoundaryAt(s, p).None? && ParentAt(s, p).None? {
      if s[p] != '<' {
        NotPrefixAt(s, p, "</DOC>");
        NotPrefixAt(s, p, "<PARENT>");
      } else if p == 9 + |id| {
        NotPrefixAtK(s, p, "</DOC>", 5);
        NotPrefixAtK(s, p, "<PARENT>", 1);
      } else {
        NotPrefixAtK(s, p, "</DOC>", 1);
        NotPrefixAtK(s, p, "<PARENT>", 1);
      }
    }
    forall p | 0 <= p < 17 + |id| ensures TextTagAt(s, p).None? {
      if s[p] != '<' {
        NotPrefixAt(s, p, "<TEXT>");
        NotPrefixAt(s, p, "</TEXT>");
      } else if p == 0 {
        NotPrefixAtK(s, p, "<TEXT>", 1);
        NotPrefixAtK(s, p, "</TEXT>", 1);
      } else {
        NotPrefixAtK(s, p, "<TEXT>", 1);
        NotPrefixAtK(s, p, "</TEXT>", 2);
      }
    }
  }

  /** The tags of a one-record corpus, and the single spaces around its identifier. */
  lemma OneRecordTags(id: string, t: string)
    ensures var s := OneRecord(id, t);
      IsPrefixAt(s, 0, "<DOCNO>") && IsPrefixAt(s, 9 + |id|, "</DOCNO>") && IsPrefixAt(s, 17 + |id|, "<TEXT>")
      && s[7] == ' ' && s[8 + |id|] == ' '
  {
    var s := OneRecord(id, t);
    assert s[0..7] == "<DOCNO>";
    assert s[9 + |id|..17 + |id|] == "</DOCNO>";
    assert s[17 + |id|..23 + |id|] == "<TEXT>";
  }

  /** The identifier and the text of a one-record corpus, where they sit. */
  lemma OneRecordParts(id: string, t: string)
    ensures var s := OneRecord(id, t);
      |s| == 23 + |id| + |t| && s[8..8 + |id|] == id && s[23 + |id|..] == t
  {
    var s := OneRecord(id, t);
    assert s[8..8 + |id|] == id;
    assert s[23 + |id|..] == t;
  }

  /** The identifier of a one-record corpus. */
  lemma OneRecordDocNo(id: string, t: string)
    requires IsIdentifier(id)
    ensures DocNo(OneRecord(id, t)) == Some(id)
  {
    var s := OneRecord(id, t);
    OneRecordTags(id, t);
    OneRecordParts(id, t);
    TaggedIdMatches(s, 0, "<DOCNO>", "</DOCNO>", id);
    SearchFinds(s, 0, DocNoAt);
  }

  /** The text region of a one-record corpus. */
  lemma OneRecordText(id: string, t: string)
    requires IsIdentifier(id) && '<' !in t
    ensures TextRegion(OneRecord(id, t)) == Some(t)
  {
    MatchersAdvance();
    var s := OneRecord(id, t);
    var b := 23 + |id|;
    OneRecordPatterns(id, t);
    OneRecordTags(id, t);
    OneRecordParts(id, t);
    forall k | b <= k < |s| ensures s[k] != '<' {
      assert s[k] == s[b..][k - b];
    }
    NoTextTagWithoutLt(s, b, |s|);
    SplitFromFirst(s, 0, 17 + |id|, TextTagAt);
    SplitFromLast(s, b, TextTagAt);
    assert Split(s, TextTagAt)[1] == t;
  }

  /** A one-record corpus is one segment, and that record parses. */
  lemma OneRecordDocument(id: string, t: string)
    requires IsIdentifier(id) && '<' !in t
    ensures DocSegments(OneRecord(id, t)) == [OneRecord(id, t)]
    ensures ParseDocument(OneRecord(id, t)) == Ok(Document(id, CleanText(t)))
  {
    MatchersAdvance();
    var s := OneRecord(id, t);
    OneRecordPatterns(id, t);
    SplitWithoutMatches(s, DocBoundaryAt);
    SubWithoutMatches(s, 0, ParentAt, Literal(""));
    assert RemoveParent(s) == s;
    OneRecordDocNo(id, t);
    OneRecordText(id, t);
  }

  /** A corpus that is a single well-formed record parses into that record's document. */
  lemma SingleSegmentCorpus(rawData: string, d: Document)
    requires DocSegments(rawData) == [rawData] && ParseDocument(rawData) == Ok(d)
    ensures ParseCorpus(rawData) == Ok([d])
  {
    var rs := Parses([rawData]);
    assert rs == [Ok(d)];
    assert rs[..0] == [];
    assert AllOk(rs).value == [d];
    assert Collect([d]) == Put([], d);
  }

  /**
   * The evidently intended parser reads a one-record corpus into one document,
   * while `parse_raw_data` as written fails on it with a NameError.
   */
  lemma OneRecordParses(id: string, t: string)
    requires IsIdentifier(id) && '<' !in t
    ensures ParseCorpus(OneRecord(id, t)) == Ok([Document(id, CleanText(t))])
    ensures ParseRawDataAsWritten(OneRecord(id, t)) == Err(UndefinedName("raw_documents"))
  {
    OneRecordDocument(id, t);
    SingleSegmentCorpus(OneRecord(id, t), Document(id, CleanText(t)));
  }
}
