/**
 * What the topic parser recovers from a topic written in the TREC layout:
 * a one-topic file built from a query gives back exactly that query.
 */
module TopicProperties {
  import opened Wrappers
  import opened Scan
  import opened Topics

  /** A query the topic layout carries unchanged: a one-line title, and fields without tags, line feeds or outer whitespace. */
  predicate Renderable(q: Query) {
    |q.title| > 0 && '\n' !in q.title && '<' !in q.title
    && '\n' !in q.desc && '<' !in q.desc && IsStripped(q.desc)
    && '\n' !in q.narr && '<' !in q.narr && IsStripped(q.narr)
  }

  const TopOpen: string := "<top>\n"
  const TopClose: string := "</top>\n"

  function NumLine(q: Query): string {
    NumTag + NatToString(q.id) + "\n"
  }

  function TitleLine(q: Query): string {
    TitleTag + q.title + "\n"
  }

  function DescLine(q: Query): string {
    DescTag + q.desc + "\n"
  }

  function NarrLine(q: Query): string {
    NarrTag + q.narr + "\n"
  }

  /** A file holding the one topic `q`, laid out as in the TREC topic files. */
  function TopicText(q: Query): string {
    TopOpen + NumLine(q) + TitleLine(q) + DescLine(q) + NarrLine(q) + TopClose
  }

  // Where each line of `TopicText(q)` starts.
  function TitlePos(q: Query): nat {
    21 + |NatToString(q.id)|
  }

  function DescPos(q: Query): nat {
    TitlePos(q) + 16 + |q.title|
  }

  function NarrPos(q: Query): nat {
    DescPos(q) + 21 + |q.desc|
  }

  function ClosePos(q: Query): nat {
    NarrPos(q) + 19 + |q.narr|
  }

  // ------------------------------------------------------------ the layout

  /** Where each of six concatenated texts lies in the whole. */
  lemma SixParts(p0: string, p1: string, p2: string, p3: string, p4: string, p5: string)
    ensures var s := p0 + p1 + p2 + p3 + p4 + p5;
      var o1 := |p0|; var o2 := o1 + |p1|; var o3 := o2 + |p2|; var o4 := o3 + |p3|; var o5 := o4 + |p4|;
      |s| == o5 + |p5| && s[..o1] == p0 && s[o1..o2] == p1 && s[o2..o3] == p2 && s[o3..o4] == p3
      && s[o4..o5] == p4 && s[o5..] == p5 && s[o4..] == p4 + p5
  {
  }

  /** The lines of a one-topic file: what lies between each two tag positions. */
  ghost predicate InLines(s: string, q: Query) {
    var a, b, c, z := TitlePos(q), DescPos(q), NarrPos(q), ClosePos(q);
    |s| == z + 7 && s[..6] == TopOpen && s[6..a] == NumLine(q) && s[a..b] == TitleLine(q)
    && s[b..c] == DescLine(q) && s[c..z] == NarrLine(q) && s[z..] == TopClose && s[c..] == NarrLine(q) + TopClose
  }

  lemma TopicLines(q: Query)
    ensures InLines(TopicText(q), q)
  {
    SixParts(TopOpen, NumLine(q), TitleLine(q), DescLine(q), NarrLine(q), TopClose);
  }

  /** A tag, a field and a line feed at offset `o`: where each lies, and the only `<` is the tag's first character. */
  lemma LineAt(s: string, o: nat, line: string, tag: string, field: string)
    requires o + |line| <= |s| && s[o..o + |line|] == line && line == tag + field + "\n"
    requires |tag| >= 3 && '<' !in tag[1..] && '<' !in field
    ensures IsPrefixAt(s, o, tag)
    ensures s[o + |tag|..o + |tag| + |field|] == field && s[o + |tag| + |field|] == '\n'
    ensures s[o + 1] == tag[1] && s[o + 2] == tag[2]
    ensures forall k :: o < k < o + |line| ==> s[k] != '<'
  {
    var f := o + |tag|;
    forall k | 0 <= k < |line| ensures s[o + k] == line[k] {
      assert s[o + k] == s[o..o + |line|][k];
    }
    forall k | 0 <= k < |tag| ensures s[o + k] == tag[k] {
      assert line[k] == (tag + field)[k];
    }
    forall k | 0 <= k < |field| ensures s[f + k] == field[k] {
      assert line[|tag| + k] == (tag + field)[|tag| + k];
    }
    assert s[f + |field|] == line[|tag| + |field|] == '\n';
    assert s[o..f] == tag;
    assert s[f..f + |field|] == field;
    assert s[o + 1] == tag[1] && s[o + 2] == tag[2];
    forall k | o < k < o + |line| ensures s[k] != '<' {
      if k < f {
        assert s[k] == tag[k - o] == tag[1..][k - o - 1];
      } else if k < f + |field| {
        assert s[k] == field[k - f];
      }
    }
  }

  lemma DigitsHaveNoLt(n: nat)
    ensures '<' !in NatToString(n) && '\n' !in NatToString(n)
  {
    var ds := NatToString(n);
    forall k | 0 <= k < |ds| ensures ds[k] != '<' && ds[k] != '\n' {
      assert IsDigit(ds[k]);
    }
  }

  lemma OpenLayout(s: string)
    requires 6 <= |s| && s[..6] == TopOpen
    ensures s[0] == '<' && s[1] == 't' && s[2] == 'o' && forall k :: 0 < k < 6 ==> s[k] != '<'
  {
    forall k | 0 <= k < 6 ensures s[k] == TopOpen[k] {
      assert s[k] == s[..6][k];
    }
  }

  lemma CloseLayout(s: string, z: nat)
    requires z <= |s| && s[z..] == TopClose
    ensures |s| == z + 7 && s[z] == '<' && s[z + 1] == '/' && (forall k :: z < k < |s| ==> s[k] != '<')
    ensures IsPrefixAt(s, z, "</top>") && s[z + 6] == '\n'
  {
    forall k | z < k < |s| ensures s[k] != '<' {
      assert s[k] == s[z..][k - z];
    }
    assert s[z..z + 6] == s[z..][..6];
    assert s[z] == s[z..][0] && s[z + 1] == s[z..][1] && s[z + 6] == s[z..][6];
  }

  lemma NumLineAt(s: string, q: Query)
    requires InLines(s, q)
    ensures var n := |NatToString(q.id)|;
      IsPrefixAt(s, 6, NumTag) && s[7] == 'n' && s[8] == 'u'
      && s[20..20 + n] == NatToString(q.id) && s[20 + n] == '\n'
      && forall k :: 6 < k < TitlePos(q) ==> s[k] != '<'
  {
    DigitsHaveNoLt(q.id);
    LineAt(s, 6, NumLine(q), NumTag, NatToString(q.id));
  }

  lemma TitleLineAt(s: string, q: Query)
    requires InLines(s, q) && '<' !in q.title
    ensures var a := TitlePos(q);
      IsPrefixAt(s, a, TitleTag) && s[a + 1] == 't'
      && s[a + 15..a + 15 + |q.title|] == q.title && s[a + 15 + |q.title|] == '\n'
      && forall k :: a < k < DescPos(q) ==> s[k] != '<'
  {
    LineAt(s, TitlePos(q), TitleLine(q), TitleTag, q.title);
  }

  lemma DescLineAt(s: string, q: Query)
    requires InLines(s, q) && '<' !in q.desc
    ensures var b := DescPos(q);
      IsPrefixAt(s, b, DescTag) && s[b + 1] == 'd'
      && s[b + 20..b + 20 + |q.desc|] == q.desc && s[b + 20 + |q.desc|] == '\n'
      && forall k :: b < k < NarrPos(q) ==> s[k] != '<'
  {
    LineAt(s, DescPos(q), DescLine(q), DescTag, q.desc);
  }

  lemma NarrLineAt(s: string, q: Query)
    requires InLines(s, q) && '<' !in q.narr
    ensures var c := NarrPos(q);
      IsPrefixAt(s, c, NarrTag) && s[c + 1] == 'n' && s[c + 2] == 'a'
      && s[c + 18..] == q.narr + "\n" + TopClose
      && forall k :: c < k < ClosePos(q) ==> s[k] != '<'
  {
    var c := NarrPos(q);
    LineAt(s, c, NarrLine(q), NarrTag, q.narr);
    assert s[c + 18..] == s[c..][18..];
  }

  // ------------------------------------------------------------ the fields

  /** A one-topic file holds no topic boundary, so it is one segment. */
  lemma OneSegment(s: string, q: Query)
    requires InLines(s, q) && Renderable(q)
    ensures TopicSegments(s) == [s]
  {
    MatchersAdvance();
    CloseTagOnlyAtEnd(s, q);
    NoBoundaryAtEnd(s, ClosePos(q));
    forall p | 0 <= p < |s| ensures TopBoundaryAt(s, p).None? {
    }
    SplitWithoutMatches(s, TopBoundaryAt);
  }

  /** The only `</top>` of a one-topic file is the closing line. */
  lemma CloseTagOnlyAtEnd(s: string, q: Query)
    requires InLines(s, q) && Renderable(q)
    ensures forall p :: 0 <= p < |s| && IsPrefixAt(s, p, "</top>") ==> p == ClosePos(q)
  {
    var a, b, c, z := TitlePos(q), DescPos(q), NarrPos(q), ClosePos(q);
    OpenLayout(s);
    NumLineAt(s, q);
    TitleLineAt(s, q);
    DescLineAt(s, q);
    NarrLineAt(s, q);
    CloseLayout(s, z);
    forall p | 0 <= p < |s| ensures !IsPrefixAt(s, p, "</top>") || p == z {
      if p == 0 || p == 6 || p == a || p == b || p == c {
        NotPrefixAtK(s, p, "</top>", 1);
      }
    }
  }

  /** The closing line is followed by no `<top>`, so no boundary starts there. */
  lemma NoBoundaryAtEnd(s: string, z: nat)
    requires z <= |s| && s[z..] == TopClose
    ensures TopBoundaryAt(s, z).None?
  {
    CloseLayout(s, z);
    SkipWhileRun(s, z + 6, |s|, IsSpace);
  }

  /** No `<num>` tag before the one of the number line. */
  lemma NumTagFirst(s: string, q: Query)
    requires InLines(s, q)
    ensures forall p :: 0 <= p < 6 ==> !IsPrefixAt(s, p, NumTag)
  {
    OpenLayout(s);
    forall p | 0 <= p < 6 ensures !IsPrefixAt(s, p, NumTag) {
      if p == 0 {
        NotPrefixAtK(s, p, NumTag, 1);
      } else {
        NotPrefixAt(s, p, NumTag);
      }
    }
  }

  lemma NumFound(s: string, q: Query)
    requires InLines(s, q)
    ensures var n := |NatToString(q.id)|;
      Search(s, NumAt) == Some((6, Match(20 + n, NatToString(q.id))))
  {
    NumMatch(s, q);
    NumTagFirst(s, q);
    SearchFinds(s, 6, NumAt);
  }

  /** The number pattern matches the number line, capturing the digits. */
  lemma NumMatch(s: string, q: Query)
    requires InLines(s, q)
    ensures NumAt(s, 6) == Some(Match(20 + |NatToString(q.id)|, NatToString(q.id)))
  {
    var n := |NatToString(q.id)|;
    var ds := NatToString(q.id);
    NumLineAt(s, q);
    forall k | 20 <= k < 20 + n ensures IsDigit(s[k]) {
      assert s[k] == s[20..20 + n][k - 20] == ds[k - 20];
    }
    SkipWhileRun(s, 20, 20 + n, IsDigit);
  }

  /** No `<title>` tag before the one of the title line. */
  lemma TitleTagFirst(s: string, q: Query)
    requires InLines(s, q)
    ensures forall p :: 0 <= p < TitlePos(q) ==> !IsPrefixAt(s, p, TitleTag)
  {
    OpenLayout(s);
    NumLineAt(s, q);
    forall p | 0 <= p < TitlePos(q) ensures !IsPrefixAt(s, p, TitleTag) {
      if p == 0 {
        NotPrefixAtK(s, p, TitleTag, 2);
      } else if p == 6 {
        NotPrefixAtK(s, p, TitleTag, 1);
      } else {
        NotPrefixAt(s, p, TitleTag);
      }
    }
  }

  lemma TitleFound(s: string, q: Query)
    requires InLines(s, q) && Renderable(q)
    ensures var a := TitlePos(q);
      Search(s, TitleAt) == Some((a, Match(a + 15 + |q.title|, q.title)))
  {
    TitleMatch(s, q);
    TitleTagFirst(s, q);
    SearchFinds(s, TitlePos(q), TitleAt);
  }

  /** The title pattern matches the title line, capturing the title. */
  lemma TitleMatch(s: string, q: Query)
    requires InLines(s, q) && Renderable(q)
    ensures var a := TitlePos(q);
      TitleAt(s, a) == Some(Match(a + 15 + |q.title|, q.title))
  {
    var a := TitlePos(q);
    var e := a + 15 + |q.title|;
    TitleLineAt(s, q);
    forall k | a + 15 <= k < e ensures NotNewline(s[k]) {
      assert s[k] == s[a + 15..e][k - a - 15] == q.title[k - a - 15];
    }
    SkipWhileRun(s, a + 15, e, NotNewline);
  }

  lemma NarrOpenStartsTag()
    ensures NarrTag[..|NarrOpen|] == NarrOpen
  {
  }

  /** After the `<narr>` that opens the narrative, no other follows. */
  lemma NarrOpenIsLast(s: string, q: Query)
    requires InLines(s, q) && Renderable(q)
    ensures IsPrefixAt(s, NarrPos(q), NarrOpen)
    ensures forall p :: NarrPos(q) < p <= |s| ==> !IsPrefixAt(s, p, NarrOpen)
  {
    var c, z := NarrPos(q), ClosePos(q);
    NarrLineAt(s, q);
    CloseLayout(s, z);
    NarrOpenStartsTag();
    PrefixAtShorter(s, c, NarrTag, NarrOpen);
    forall p | c < p <= |s| ensures !IsPrefixAt(s, p, NarrOpen) {
      if p == z {
        NotPrefixAtK(s, p, NarrOpen, 1);
      } else if p < |s| {
        NotPrefixAt(s, p, NarrOpen);
      }
    }
  }

  /** No `<desc>` tag before the one of the description line. */
  lemma DescTagFirst(s: string, q: Query)
    requires InLines(s, q) && Renderable(q)
    ensures forall p :: 0 <= p < DescPos(q) ==> !IsPrefixAt(s, p, DescTag)
  {
    var a := TitlePos(q);
    OpenLayout(s);
    NumLineAt(s, q);
    TitleLineAt(s, q);
    forall p | 0 <= p < DescPos(q) ensures !IsPrefixAt(s, p, DescTag) {
      if p == 0 || p == 6 || p == a {
        NotPrefixAtK(s, p, DescTag, 1);
      } else {
        NotPrefixAt(s, p, DescTag);
      }
    }
  }

  lemma SliceSnoc(s: string, i: nat, j: nat)
    requires i <= j < |s|
    ensures s[i..j + 1] == s[i..j] + [s[j]]
  {
  }

  /** The description pattern at its line: the group runs to the last `<narr>`. */
  lemma DescMatch(s: string, q: Query)
    requires InLines(s, q) && Renderable(q)
    ensures DescAt(s, DescPos(q)) == Some(Match(NarrPos(q) + 6, q.desc + "\n"))
  {
    var b, c := DescPos(q), NarrPos(q);
    DescLineAt(s, q);
    NarrOpenIsLast(s, q);
    DescAtLast(s, b, c);
    SliceSnoc(s, b + 20, b + 20 + |q.desc|);
  }

  lemma DescFound(s: string, q: Query)
    requires InLines(s, q) && Renderable(q)
    ensures Search(s, DescAt) == Some((DescPos(q), Match(NarrPos(q) + 6, q.desc + "\n")))
  {
    DescMatch(s, q);
    DescTagFirst(s, q);
    SearchFinds(s, DescPos(q), DescAt);
  }

  /** No `<narr>` tag before the one of the narrative line. */
  lemma NarrTagFirst(s: string, q: Query)
    requires InLines(s, q) && Renderable(q)
    ensures forall p :: 0 <= p < NarrPos(q) ==> !IsPrefixAt(s, p, NarrTag)
  {
    var a, b := TitlePos(q), DescPos(q);
    OpenLayout(s);
    NumLineAt(s, q);
    TitleLineAt(s, q);
    DescLineAt(s, q);
    forall p | 0 <= p < NarrPos(q) ensures !IsPrefixAt(s, p, NarrTag) {
      if p == 0 || p == a || p == b {
        NotPrefixAtK(s, p, NarrTag, 1);
      } else if p == 6 {
        NotPrefixAtK(s, p, NarrTag, 2);
      } else {
        NotPrefixAt(s, p, NarrTag);
      }
    }
  }

  lemma NarrFound(s: string, q: Query)
    requires InLines(s, q) && Renderable(q)
    ensures Search(s, NarrAt) == Some((NarrPos(q), Match(|s|, q.narr + "\n" + TopClose)))
  {
    var c := NarrPos(q);
    NarrLineAt(s, q);
    assert NarrAt(s, c) == Some(Match(|s|, q.narr + "\n" + TopClose));
    NarrTagFirst(s, q);
    SearchFinds(s, c, NarrAt);
  }

  // ------------------------------------------------ cleaning the two blocks

  /** Trimming the start of a text of whitespace only leaves nothing. */
  lemma {:induction false} TrimStartBlank(pad: string)
    requires forall k :: 0 <= k < |pad| ==> IsSpace(pad[k])
    ensures TrimStart(pad) == []
    decreases |pad|
  {
    if pad != [] {
      TrimStartBlank(pad[1..]);
    }
  }

  /** Trimming the end of a text with whitespace appended removes exactly the whitespace. */
  lemma {:induction false} TrimEndPadded(x: string, pad: string)
    requires x != [] && !IsSpace(x[|x| - 1])
    requires forall k :: 0 <= k < |pad| ==> IsSpace(pad[k])
    ensures TrimEnd(x + pad) == x
    decreases |pad|
  {
    if pad != [] {
      var shorter := pad[..|pad| - 1];
      assert (x + pad)[..|x + pad| - 1] == x + shorter;
      TrimEndPadded(x, shorter);
    } else {
      assert x + pad == x;
    }
  }

  /** Stripping undoes trailing whitespace added to an already stripped text. */
  lemma StripPadded(x: string, pad: string)
    requires IsStripped(x) && forall k :: 0 <= k < |pad| ==> IsSpace(pad[k])
    ensures Strip(x + pad) == x
  {
    if x == [] {
      assert x + pad == pad;
      TrimStartBlank(pad);
    } else {
      assert (x + pad)[0] == x[0];
      assert TrimStart(x + pad) == x + pad;
      TrimEndPadded(x, pad);
    }
  }

  /** Deleting `</top>` from a text whose only `<` is that tag's. */
  lemma DropTopCloseAt(x: string, y: string)
    requires '<' !in x && '<' !in y
    ensures DropTopClose(x + "</top>" + y) == x + y
  {
    MatchersAdvance();
    var s := x + "</top>" + y;
    var e := |x| + 6;
    forall p | 0 <= p < |x| ensures TopCloseAt(s, p).None? {
      assert s[p] == x[p];
      NotPrefixAt(s, p, "</top>");
    }
    SubFromSkips(s, 0, |x|, TopCloseAt, Literal(""));
    assert s[|x|..e] == "</top>";
    assert SubFrom(s, |x|, TopCloseAt, Literal("")) == SubFrom(s, e, TopCloseAt, Literal(""));
    forall p | e <= p < |s| ensures TopCloseAt(s, p).None? {
      assert s[p] == y[p - e];
      NotPrefixAt(s, p, "</top>");
    }
    SubWithoutMatches(s, e, TopCloseAt, Literal(""));
    assert s[0..|x|] == x && s[e..] == y;
  }

  lemma DescTextOf(desc: string)
    requires '\n' !in desc && IsStripped(desc)
    ensures DescText(desc + "\n") == desc
  {
    var g := desc + "\n";
    assert SpaceNewlines(g) == desc + " ";
    StripPadded(desc, " ");
  }

  lemma NarrTextOf(narr: string)
    requires '\n' !in narr && '<' !in narr && IsStripped(narr)
    ensures NarrText(narr + "\n" + TopClose) == narr
  {
    var g := narr + "\n" + TopClose;
    assert SpaceNewlines(g) == (narr + " ") + "</top>" + " ";
    DropTopCloseAt(narr + " ", " ");
    assert (narr + " ") + " " == narr + "  ";
    StripPadded(narr, "  ");
  }

  // -------------------------------------------------------- the round trip

  /** A topic written in the TREC layout parses back into the query it was written from. */
  lemma TopicRoundTrip(q: Query)
    requires Renderable(q)
    ensures ParseTopic(TopicText(q)) == Ok(q)
  {
    var s := TopicText(q);
    TopicLines(q);
    NumFound(s, q);
    TitleFound(s, q);
    DescFound(s, q);
    NarrFound(s, q);
    DigitsRoundTrip(q.id);
    DescTextOf(q.desc);
    NarrTextOf(q.narr);
  }

  /** A one-topic file parses into the one query. */
  lemma OneTopicFile(q: Query)
    requires Renderable(q)
    ensures ParseQueries(TopicText(q)) == Ok([q])
  {
    TopicLines(q);
    OneSegment(TopicText(q), q);
    TopicRoundTrip(q);
    SingleTopicParses(TopicText(q), q);
  }

  /** A file that is a single topic parses into that topic's query alone. */
  lemma SingleTopicParses(s: string, q: Query)
    requires TopicSegments(s) == [s] && ParseTopic(s) == Ok(q)
    ensures ParseQueries(s) == Ok([q])
  {
    var rs := TopicParses([s]);
    assert rs == [Ok(q)];
    AllOkSingle(rs[0]);
  }
}
