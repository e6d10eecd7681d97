/*
 * Evaluating a run with trec_eval (search.py, run_treceval): the result map is
 * written as a TREC run file, one line `qid 0 docid rank score ES_DEMO` per
 * hit, topics in ascending order; the evaluator binary is resolved, run on the
 * qrels and the run file, and its output is returned unless it complained.
 */
module Evaluation {
  import opened Wrappers
  import opened Scan
  import opened Retrieval

  // ------------------------------------------------------------ the run file

  /** One line of a TREC run file. */
  datatype Line = Line(qid: nat, docId: string, rank: nat, score: string)

  /** The run tag closing every line. */
  const RunTag: string := "ES_DEMO"

  /** A line as written: `qid 0 docid rank score ES_DEMO` and a newline. */
  function Render(l: Line): (r: string)
    ensures |r| > 0 && r[|r| - 1] == '\n'
    ensures |r| > |NatToString(l.qid)| + 3 && r[..|NatToString(l.qid)| + 3] == NatToString(l.qid) + " 0 "
  {
    NatToString(l.qid) + " 0 " + l.docId + " " + NatToString(l.rank) + " " + l.score + " " + RunTag + "\n"
  }

  /** The run file holding `lines`, in order. */
  function Text(lines: seq<Line>): string
    decreases |lines|
  {
    if lines == [] then [] else Render(lines[0]) + Text(lines[1..])
  }

  /** `m` is the least number of `s`. */
  predicate IsLeast(m: nat, s: set<nat>) {
    m in s && forall k :: k in s ==> m <= k
  }

  /** Every non-empty set of numbers has a least element. */
  lemma {:induction false} HasLeast(s: set<nat>)
    requires s != {}
    ensures exists m :: IsLeast(m, s)
    decreases s
  {
    var x :| x in s;
    var least := x;
    if s - {x} != {} {
      HasLeast(s - {x});
      var m :| IsLeast(m, s - {x});
      least := if x < m then x else m;
    }
    forall k | k in s
      ensures least <= k
    {
      if k != x {
        assert k in s - {x};
      }
    }
    assert IsLeast(least, s);
  }

  /** The least number of a non-empty set. */
  function Least(s: set<nat>): (m: nat)
    requires s != {}
    ensures m in s && forall k :: k in s ==> m <= k
  {
    HasLeast(s);
    var m :| IsLeast(m, s);
    m
  }

  /** The numbers of `s` in ascending order, as `sorted` lists the keys of a dictionary. */
  function SortedKeys(s: set<nat>): (ks: seq<nat>)
    ensures forall k :: k in ks <==> k in s
    ensures forall i, j :: 0 <= i < j < |ks| ==> ks[i] < ks[j]
    decreases s
  {
    if s == {} then []
    else
      var m := Least(s);
      var rest := SortedKeys(s - {m});
      assert forall i :: 0 <= i < |rest| ==> m < rest[i] by {
        forall i | 0 <= i < |rest| ensures m < rest[i] {
          assert rest[i] in s - {m};
        }
      }
      [m] + rest
  }

  /** The lines of one topic: its hits in list order, ranked from 0. */
  function QueryLines(qid: nat, hits: seq<Hit>): (ls: seq<Line>)
    ensures |ls| == |hits|
    ensures forall i :: 0 <= i < |ls| ==> ls[i].qid == qid && ls[i].rank == i
    ensures forall i :: 0 <= i < |ls| ==> ls[i].docId == hits[i].id && ls[i].score == hits[i].score
  {
    seq(|hits|, i requires 0 <= i < |hits| => Line(qid, hits[i].id, i, hits[i].score))
  }

  /** The lines of the topics `ks`, one topic after the other. */
  function LinesFor(results: map<nat, seq<Hit>>, ks: seq<nat>): (ls: seq<Line>)
    requires forall k :: k in ks ==> k in results
    ensures forall i :: 0 <= i < |ls| ==> ls[i].qid in ks
    decreases |ks|
  {
    if ks == [] then [] else QueryLines(ks[0], results[ks[0]]) + LinesFor(results, ks[1..])
  }

  /** The run file's lines for a result map: topics in ascending order. */
  function Submission(results: map<nat, seq<Hit>>): (ls: seq<Line>)
    ensures forall i :: 0 <= i < |ls| ==> ls[i].qid in results
  {
    LinesFor(results, SortedKeys(results.Keys))
  }

  lemma {:induction false} TextAppend(a: seq<Line>, b: seq<Line>)
    ensures Text(a + b) == Text(a) + Text(b)
    decreases |a|
  {
    if a == [] {
      assert a + b == b;
    } else {
      ConsAppend(a, b);
      TextAppend(a[1..], b);
    }
  }

  lemma ConsAppend(a: seq<Line>, b: seq<Line>)
    requires a != []
    ensures a + b != [] && (a + b)[0] == a[0] && (a + b)[1..] == a[1..] + b
  {
  }

  lemma TextSnoc(lines: seq<Line>, l: Line)
    ensures Text(lines + [l]) == Text(lines) + Render(l)
  {
    TextAppend(lines, [l]);
    assert Text([l]) == Render(l) + Text([]);
  }

  lemma QueryLinesSnoc(qid: nat, hits: seq<Hit>, i: nat)
    requires i < |hits|
    ensures QueryLines(qid, hits[..i + 1]) == QueryLines(qid, hits[..i]) + [Line(qid, hits[i].id, i, hits[i].score)]
  {
  }

  lemma {:induction false} LinesForSnoc(results: map<nat, seq<Hit>>, ks: seq<nat>, n: nat)
    requires n < |ks| && forall k :: k in ks ==> k in results
    ensures LinesFor(results, ks[..n + 1]) == LinesFor(results, ks[..n]) + QueryLines(ks[n], results[ks[n]])
    decreases n
  {
    if n > 0 {
      LinesForSnoc(results, ks[1..], n - 1);
      PrefixTail(ks, n);
    }
  }

  lemma PrefixTail(ks: seq<nat>, n: nat)
    requires 0 < n < |ks|
    ensures ks[..n + 1][1..] == ks[1..][..n] && ks[..n][1..] == ks[1..][..n - 1]
    ensures ks[..n + 1][0] == ks[0] && ks[..n][0] == ks[0]
  {
  }

  /** The inner loop of `run_treceval`: one line per hit of a topic, ranked by position. */
  method WriteHits(qid: nat, hits: seq<Hit>) returns (part: string)
    ensures part == Text(QueryLines(qid, hits))
  {
    part := [];
    for i := 0 to |hits|
      invariant part == Text(QueryLines(qid, hits[..i]))
    {
      var line := Line(qid, hits[i].id, i, hits[i].score);
      QueryLinesSnoc(qid, hits, i);
      TextSnoc(QueryLines(qid, hits[..i]), line);
      part := part + Render(line);
    }
    assert hits[..|hits|] == hits;
  }

  /** The outer loop of `run_treceval`: the topics in ascending order, each with its lines. */
  method WriteSubmission(results: map<nat, seq<Hit>>) returns (text: string)
    ensures text == Text(Submission(results))
  {
    var ks := SortedKeys(results.Keys);
    text := [];
    for n := 0 to |ks|
      invariant text == Text(LinesFor(results, ks[..n]))
    {
      var qid := ks[n];
      var part := WriteHits(qid, results[qid]);
      LinesForSnoc(results, ks, n);
      TextAppend(LinesFor(results, ks[..n]), QueryLines(qid, results[qid]));
      text := text + part;
    }
    assert ks[..|ks|] == ks;
  }

  // ------------------------------------------------------- running trec_eval

  /** The files the evaluation sees, by path, and the name of the operating system. */
  class FileSystem {
    var files: map<string, string>
    const platform: string

    constructor (files: map<string, string>, platform: string)
      ensures this.files == files && this.platform == platform
    {
      this.files := files;
      this.platform := platform;
    }
  }

  /**
   * The evaluator binary, seen from the outside: given the command line and
   * the files, its standard output and error, or `None` when the binary
   * cannot be started.
   */
  type Evaluator = (seq<string>, map<string, string>) -> Option<(string, string)>

  datatype EvalError = LaunchFailed | EvaluatorFailed(stderr: string)

  /** The binary to run: the given path when it exists, else its platform-specific build. */
  function BinaryPath(path: string, present: bool, platform: string): (r: string)
    ensures present ==> r == path
    ensures !present ==> r == path + "_" + platform
  {
    if present then path else path + "_" + platform
  }

  /** What the evaluator's output means: anything on standard error is an error. */
  function Outcome(stdout: string, stderr: string): (r: Result<string, EvalError>)
    ensures r.Err? <==> stderr != []
    ensures r.Err? ==> r.error == EvaluatorFailed(stderr)
    ensures r.Ok? ==> r.value == [] || (!IsSpace(r.value[0]) && !IsSpace(r.value[|r.value| - 1]))
    ensures r.Ok? ==> forall c :: c in r.value ==> c in stdout
    ensures r.Ok? ==> r.value == Strip(stdout)
  {
    if stderr != [] then Err(EvaluatorFailed(stderr)) else Ok(Strip(stdout))
  }

  /**
   * `run_treceval`: writes the run file to `tmpName`, runs the evaluator on
   * the qrels and the run file, removes the run file once the evaluator has
   * run, and reports its stripped output or its complaint.
   */
  method RunTrecEval(fs: FileSystem, run: Evaluator, results: map<nat, seq<Hit>>,
                     qrelsPath: string, trecevalPath: string, tmpName: string)
    returns (r: Result<string, EvalError>)
    modifies fs
    ensures var written := old(fs.files)[tmpName := Text(Submission(results))];
      var binary := BinaryPath(trecevalPath, trecevalPath in written, fs.platform);
      var reply := run(["./" + binary, qrelsPath, tmpName], written);
      if reply.None? then r == Err(LaunchFailed) && fs.files == written
      else r == Outcome(reply.value.0, reply.value.1) && fs.files == written - {tmpName}
  {
    var text := WriteSubmission(results);
    fs.files := fs.files[tmpName := text];
    var binary := trecevalPath;
    if trecevalPath !in fs.files {
      binary := trecevalPath + "_" + fs.platform;
    }
    var cmd := ["./" + binary, qrelsPath, tmpName];
    var reply := run(cmd, fs.files);
    if reply.None? {
      return Err(LaunchFailed);
    }
    var (msgOut, msgErr) := reply.value;
    fs.files := fs.files - {tmpName};
    if msgErr != [] {
      return Err(EvaluatorFailed(msgErr));
    }
    return Ok(Strip(msgOut));
  }
}
