/*
 * What the run file written by `run_treceval` says about the result map:
 * topics ascend, every topic contributes exactly its hits, ranked by their
 * position, one line per hit; and a reader of the TREC run format gets the
 * lines back from the text.
 */
module EvaluationProperties {
  import opened Wrappers
  import opened Scan
  import opened Retrieval
  import opened Evaluation

  // ---------------------------------------------------------------- order

  /** Every line of `LinesFor(results, ks)` belongs to a topic of `ks`. */
  lemma {:induction false} LinesForTopics(results: map<nat, seq<Hit>>, ks: seq<nat>)
    requires forall k :: k in ks ==> k in results
    ensures forall i :: 0 <= i < |LinesFor(results, ks)| ==> LinesFor(results, ks)[i].qid in ks
    decreases |ks|
  {
    if ks != [] {
      LinesForTopics(results, ks[1..]);
      var head := QueryLines(ks[0], results[ks[0]]);
      var tail := LinesFor(results, ks[1..]);
      var lines: seq<Line> := head + tail;
      forall i | 0 <= i < |lines| ensures lines[i].qid in ks {
        if i >= |head| {
          assert lines[i] == tail[i - |head|];
          assert tail[i - |head|].qid in ks[1..];
        }
      }
    }
  }

  /** Lines grouped by topic, the topics in ascending order. */
  predicate TopicsAscending(lines: seq<Line>) {
    forall i, j :: 0 <= i <= j < |lines| ==> lines[i].qid <= lines[j].qid
  }

  /** Topics listed in ascending order give lines in ascending topic order. */
  lemma {:induction false} LinesForOrdered(results: map<nat, seq<Hit>>, ks: seq<nat>)
    requires forall k :: k in ks ==> k in results
    requires forall i, j :: 0 <= i < j < |ks| ==> ks[i] < ks[j]
    ensures TopicsAscending(LinesFor(results, ks))
    decreases |ks|
  {
    if ks != [] {
      LinesForOrdered(results, ks[1..]);
      LinesForTopics(results, ks[1..]);
      var head := QueryLines(ks[0], results[ks[0]]);
      var tail := LinesFor(results, ks[1..]);
      var lines := head + tail;
      assert TopicsAscending(tail);
      forall i, j | 0 <= i <= j < |lines| ensures lines[i].qid <= lines[j].qid {
        if j < |head| {
          assert lines[i] == head[i] && lines[j] == head[j];
          assert head[i].qid == ks[0] == head[j].qid;
        } else if i < |head| {
          assert lines[i] == head[i] && lines[j] == tail[j - |head|];
          assert head[i].qid == ks[0];
          assert tail[j - |head|].qid in ks[1..];
          var k :| 0 <= k < |ks[1..]| && ks[1..][k] == tail[j - |head|].qid;
          assert ks[1..][k] == ks[k + 1];
          assert ks[0] < ks[k + 1];
        } else {
          assert lines[i] == tail[i - |head|] && lines[j] == tail[j - |head|];
          assert tail[i - |head|].qid <= tail[j - |head|].qid;
        }
      }
    }
  }

  /** The run file lists the topics in ascending order of their numbers. */
  lemma SubmissionOrdered(results: map<nat, seq<Hit>>)
    ensures TopicsAscending(Submission(results))
  {
    LinesForOrdered(results, SortedKeys(results.Keys));
  }

  // ------------------------------------------------------------ per topic

  /** The lines of topic `q`, in order. */
  function Only(lines: seq<Line>, q: nat): seq<Line>
    decreases |lines|
  {
    if lines == [] then []
    else if lines[0].qid == q then [lines[0]] + Only(lines[1..], q)
    else Only(lines[1..], q)
  }

  lemma {:induction false} OnlyAppend(a: seq<Line>, b: seq<Line>, q: nat)
    ensures Only(a + b, q) == Only(a, q) + Only(b, q)
    decreases |a|
  {
    if a == [] {
      assert a + b == b;
    } else {
      OnlyAppend(a[1..], b, q);
      assert (a + b)[0] == a[0];
      assert (a + b)[1..] == a[1..] + b;
    }
  }

  lemma {:induction false} OnlyAll(lines: seq<Line>, q: nat)
    requires forall i :: 0 <= i < |lines| ==> lines[i].qid == q
    ensures Only(lines, q) == lines
    decreases |lines|
  {
    if lines != [] {
      OnlyAll(lines[1..], q);
    }
  }

  lemma {:induction false} OnlyNone(lines: seq<Line>, q: nat)
    requires forall i :: 0 <= i < |lines| ==> lines[i].qid != q
    ensures Only(lines, q) == []
    decreases |lines|
  {
    if lines != [] {
      OnlyNone(lines[1..], q);
    }
  }

  /** Among distinct topics, the lines of `q` are those of its hits, or none. */
  lemma {:induction false} LinesForOnly(results: map<nat, seq<Hit>>, ks: seq<nat>, q: nat)
    requires forall k :: k in ks ==> k in results
    requires forall i, j :: 0 <= i < j < |ks| ==> ks[i] != ks[j]
    ensures Only(LinesFor(results, ks), q) == if q in ks then QueryLines(q, results[q]) else []
    decreases |ks|
  {
    if ks != [] {
      LinesForOnly(results, ks[1..], q);
      var head := QueryLines(ks[0], results[ks[0]]);
      OnlyAppend(head, LinesFor(results, ks[1..]), q);
      if q == ks[0] {
        OnlyAll(head, q);
        assert q !in ks[1..] by {
          forall k | 0 <= k < |ks[1..]| ensures ks[1..][k] != q {
            assert ks[1..][k] == ks[k + 1];
          }
        }
        assert head + [] == head;
      } else {
        OnlyNone(head, q);
        assert q in ks <==> q in ks[1..];
      }
    }
  }

  /**
   * The lines of topic `q` in the run file: one per hit of `q`, in the order
   * the engine returned them, ranked by their position from 0; none for a
   * topic without results.
   */
  lemma SubmissionPerQuery(results: map<nat, seq<Hit>>, q: nat)
    ensures var own := Only(Submission(results), q);
      if q in results then
        |own| == |results[q]| &&
        forall i :: 0 <= i < |own| ==> own[i] == Line(q, results[q][i].id, i, results[q][i].score)
      else own == []
  {
    LinesForOnly(results, SortedKeys(results.Keys), q);
  }

  // ---------------------------------------------------------------- count

  /** The number of hits in the result map, independently of any order. */
  ghost function HitTotal(results: map<nat, seq<Hit>>): nat
    decreases |results|
  {
    if results == map[] then 0
    else
      var k :| k in results;
      assert (results - {k}).Keys == results.Keys - {k};
      |results[k]| + HitTotal(results - {k})
  }

  /** Any topic can be counted first. */
  lemma {:induction false} HitTotalRemove(results: map<nat, seq<Hit>>, k: nat)
    requires k in results
    ensures HitTotal(results) == |results[k]| + HitTotal(results - {k})
    decreases |results|
  {
    var j :| j in results && HitTotal(results) == |results[j]| + HitTotal(results - {j});
    if j != k {
      assert (results - {j}).Keys == results.Keys - {j};
      assert (results - {k}).Keys == results.Keys - {k};
      HitTotalRemove(results - {j}, k);
      HitTotalRemove(results - {k}, j);
      assert results - {j} - {k} == results - {k} - {j};
    }
  }

  /** The entries of `results` for the topics of `s`. */
  function Restrict(results: map<nat, seq<Hit>>, s: set<nat>): map<nat, seq<Hit>> {
    map k | k in s && k in results :: results[k]
  }

  /** The ascending keys start with the least one. */
  lemma SortedKeysStep(s: set<nat>)
    requires s != {}
    ensures SortedKeys(s) == [Least(s)] + SortedKeys(s - {Least(s)})
  {
  }

  lemma RestrictRemove(results: map<nat, seq<Hit>>, s: set<nat>, m: nat)
    requires m in s && s <= results.Keys
    ensures m in Restrict(results, s) && Restrict(results, s)[m] == results[m]
    ensures Restrict(results, s) - {m} == Restrict(results, s - {m})
  {
  }

  lemma LinesForStep(results: map<nat, seq<Hit>>, ks: seq<nat>)
    requires ks != [] && forall k :: k in ks ==> k in results
    ensures |LinesFor(results, ks)| == |results[ks[0]]| + |LinesFor(results, ks[1..])|
  {
  }

  lemma {:induction false} LinesForCount(results: map<nat, seq<Hit>>, s: set<nat>)
    requires s <= results.Keys
    ensures |LinesFor(results, SortedKeys(s))| == HitTotal(Restrict(results, s))
    decreases s
  {
    if s == {} {
      assert Restrict(results, s) == map[];
    } else {
      var m := Least(s);
      SortedKeysStep(s);
      LinesForStep(results, SortedKeys(s));
      assert SortedKeys(s)[1..] == SortedKeys(s - {m});
      LinesForCount(results, s - {m});
      RestrictRemove(results, s, m);
      HitTotalRemove(Restrict(results, s), m);
    }
  }

  lemma RestrictAll(results: map<nat, seq<Hit>>)
    ensures Restrict(results, results.Keys) == results
  {
  }

  /** The run file has one line per hit. */
  lemma SubmissionCount(results: map<nat, seq<Hit>>)
    ensures |Submission(results)| == HitTotal(results)
  {
    LinesForCount(results, results.Keys);
    RestrictAll(results);
  }

  // ----------------------------------------------------------- reading back

  /** A character that may appear inside a field of a run-file line. */
  predicate InField(c: char) {
    c != ' ' && c != '\n'
  }

  /** The longest prefix of `s` whose characters satisfy `p`, and the rest. */
  function Span(s: string, p: char -> bool): (r: (string, string))
    ensures r.0 + r.1 == s
  {
    var k := SkipWhile(s, 0, p);
    assert s[..k] + s[k..] == s;
    (s[..k], s[k..])
  }

  /** What follows `lit` at the start of `s`, if it is there. */
  function Expect(s: string, lit: string): (r: Option<string>)
    ensures r.Some? ==> |r.value| == |s| - |lit|
  {
    if IsPrefixAt(s, 0, lit) then Some(s[|lit|..]) else None
  }

  /** A decimal number at the start of `s`, and the text after it. */
  function Number(s: string): (r: Option<(nat, string)>)
    ensures r.Some? ==> |r.value.1| < |s|
  {
    var (ds, rest) := Span(s, IsDigit);
    if ds == [] then None
    else
      assert forall k :: 0 <= k < |ds| ==> IsDigit(ds[k]);
      Some((DigitsValue(ds), rest))
  }

  /** The second half of a line: rank, score and run tag. */
  function ParseRanking(s: string): (r: Option<(nat, string, string)>)
    ensures r.Some? ==> |r.value.2| < |s|
  {
    match Number(s)
    case None => None
    case Some((rank, s1)) =>
      match Expect(s1, " ")
      case None => None
      case Some(s2) =>
        var (score, s3) := Span(s2, InField);
        match Expect(s3, " " + RunTag + "\n")
        case None => None
        case Some(rest) => Some((rank, score, rest))
  }

  /** A reader of the TREC run format: one line, and the text after it. */
  function ParseLine(s: string): (r: Option<(Line, string)>)
    ensures r.Some? ==> |r.value.1| < |s|
  {
    match Number(s)
    case None => None
    case Some((qid, s1)) =>
      match Expect(s1, " 0 ")
      case None => None
      case Some(s2) =>
        var (docId, s3) := Span(s2, InField);
        match Expect(s3, " ")
        case None => None
        case Some(s4) =>
          match ParseRanking(s4)
          case None => None
          case Some((rank, score, rest)) => Some((Line(qid, docId, rank, score), rest))
  }

  /** A reader of a whole run file. */
  function ParseLines(s: string): Option<seq<Line>>
    decreases |s|
  {
    if s == [] then Some([])
    else match ParseLine(s)
      case None => None
      case Some((l, rest)) =>
        match ParseLines(rest)
        case None => None
        case Some(ls) => Some([l] + ls)
  }

  lemma SpanOf(x: string, y: string, p: char -> bool)
    requires forall k :: 0 <= k < |x| ==> p(x[k])
    requires y == [] || !p(y[0])
    ensures Span(x + y, p) == (x, y)
  {
    var s := x + y;
    forall k | 0 <= k < |x| ensures p(s[k]) {
      assert s[k] == x[k];
    }
    SkipWhileRun(s, 0, |x|, p);
    assert s[..|x|] == x && s[|x|..] == y;
  }

  lemma ExpectOf(lit: string, y: string)
    ensures Expect(lit + y, lit) == Some(y)
  {
    assert (lit + y)[0..|lit|] == lit;
    assert (lit + y)[|lit|..] == y;
  }

  lemma NumberOf(n: nat, y: string)
    requires y == [] || !IsDigit(y[0])
    ensures Number(NatToString(n) + y) == Some((n, y))
  {
    SpanOf(NatToString(n), y, IsDigit);
    DigitsRoundTrip(n);
  }

  lemma Assoc(a: string, b: string, c: string)
    ensures (a + b) + c == a + (b + c)
  {
  }

  /** A line whose document identifier and score hold no blank reads back. */
  predicate Printable(l: Line) {
    (forall k :: 0 <= k < |l.docId| ==> InField(l.docId[k])) &&
    (forall k :: 0 <= k < |l.score| ==> InField(l.score[k]))
  }

  lemma RankingRoundTrip(rank: nat, score: string, rest: string)
    requires forall k :: 0 <= k < |score| ==> InField(score[k])
    ensures ParseRanking(NatToString(rank) + (" " + (score + (" " + RunTag + "\n" + rest))))
      == Some((rank, score, rest))
  {
    var tag := " " + RunTag + "\n";
    var s2 := score + (tag + rest);
    NumberOf(rank, " " + s2);
    ExpectOf(" ", s2);
    SpanOf(score, tag + rest, InField);
    ExpectOf(tag, rest);
  }

  /** Reading a written line gives the line back, and the text after it untouched. */
  lemma LineRoundTrip(l: Line, rest: string)
    requires Printable(l)
    ensures ParseLine(Render(l) + rest) == Some((l, rest))
  {
    var qs, rs := NatToString(l.qid), NatToString(l.rank);
    var tag := " " + RunTag + "\n";
    var tail := rs + (" " + (l.score + (tag + rest)));
    RenderParts(l, rest);
    var s2 := l.docId + (" " + tail);
    NumberOf(l.qid, " 0 " + s2);
    ExpectOf(" 0 ", s2);
    SpanOf(l.docId, " " + tail, InField);
    ExpectOf(" ", tail);
    RankingRoundTrip(l.rank, l.score, rest);
  }

  /** A written line followed by more text, regrouped field by field. */
  lemma RenderParts(l: Line, rest: string)
    ensures Render(l) + rest == NatToString(l.qid) + (" 0 " + (l.docId + (" " +
      (NatToString(l.rank) + (" " + (l.score + (" " + RunTag + "\n" + rest)))))))
  {
    var qs, rs := NatToString(l.qid), NatToString(l.rank);
    var tag := " " + RunTag + "\n";
    assert Render(l) == qs + " 0 " + l.docId + " " + rs + " " + l.score + tag;
    Assoc(qs + " 0 " + l.docId + " " + rs + " " + l.score, tag, rest);
    Assoc(qs + " 0 " + l.docId + " " + rs + " ", l.score, tag + rest);
    Assoc(qs + " 0 " + l.docId + " " + rs, " ", l.score + (tag + rest));
    Assoc(qs + " 0 " + l.docId + " ", rs, " " + (l.score + (tag + rest)));
    Assoc(qs + " 0 " + l.docId, " ", rs + (" " + (l.score + (tag + rest))));
    Assoc(qs + " 0 ", l.docId, " " + (rs + (" " + (l.score + (tag + rest)))));
    Assoc(qs, " 0 ", l.docId + (" " + (rs + (" " + (l.score + (tag + rest))))));
  }

  /** One line read, then the rest of the file. */
  lemma ParseLinesStep(s: string, l: Line, rest: string, ls: seq<Line>)
    requires ParseLine(s) == Some((l, rest)) && ParseLines(rest) == Some(ls)
    ensures ParseLines(s) == Some([l] + ls)
  {
  }

  lemma ConsSplit(lines: seq<Line>)
    requires lines != []
    ensures [lines[0]] + lines[1..] == lines
  {
  }

  /** The run file starts with its first line. */
  lemma TextStep(lines: seq<Line>)
    requires lines != []
    ensures Text(lines) == Render(lines[0]) + Text(lines[1..])
  {
  }

  /** The first line of a written run file reads back, leaving the other lines. */
  lemma FirstLineRoundTrip(lines: seq<Line>)
    requires lines != [] && Printable(lines[0])
    ensures ParseLine(Text(lines)) == Some((lines[0], Text(lines[1..])))
  {
    LineRoundTrip(lines[0], Text(lines[1..]));
    TextStep(lines);
  }

  /** Reading a written run file gives its lines back. */
  lemma {:induction false} TextRoundTrip(lines: seq<Line>)
    requires forall i :: 0 <= i < |lines| ==> Printable(lines[i])
    ensures ParseLines(Text(lines)) == Some(lines)
    decreases |lines|
  {
    if lines != [] {
      TextRoundTrip(lines[1..]);
      FirstLineRoundTrip(lines);
      ParseLinesStep(Text(lines), lines[0], Text(lines[1..]), lines[1..]);
      ConsSplit(lines);
    }
  }

  /** Hits whose identifiers and scores hold no blank. */
  predicate PrintableHits(results: map<nat, seq<Hit>>) {
    forall q :: q in results ==>
      forall i :: 0 <= i < |results[q]| ==>
        Printable(Line(q, results[q][i].id, i, results[q][i].score))
  }

  lemma {:induction false} LinesForPrintable(results: map<nat, seq<Hit>>, ks: seq<nat>)
    requires forall k :: k in ks ==> k in results
    requires PrintableHits(results)
    ensures forall i :: 0 <= i < |LinesFor(results, ks)| ==> Printable(LinesFor(results, ks)[i])
    decreases |ks|
  {
    if ks != [] {
      LinesForPrintable(results, ks[1..]);
      var head := QueryLines(ks[0], results[ks[0]]);
      var tail := LinesFor(results, ks[1..]);
      var lines: seq<Line> := head + tail;
      forall i | 0 <= i < |lines| ensures Printable(lines[i]) {
        if i >= |head| {
          assert lines[i] == tail[i - |head|];
        }
      }
    }
  }

  /** The run file written for a result map reads back as its lines. */
  lemma SubmissionRoundTrip(results: map<nat, seq<Hit>>)
    requires PrintableHits(results)
    ensures ParseLines(Text(Submission(results))) == Some(Submission(results))
  {
    LinesForPrintable(results, SortedKeys(results.Keys));
    TextRoundTrip(Submission(results));
  }
}
