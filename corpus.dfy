/**
 * The corpus parser of index.py (`parse_raw_data`): a TREC-style corpus is
 * cut into records at `</DOC>\s*<DOC>`; each record yields its `<DOCNO>`
 * identifier and the cleaned text between its first two TEXT tags; the
 * documents are gathered into an identifier-to-text dictionary in which a
 * later record with the same identifier overwrites the earlier one.
 */
module Corpus {
  import opened Wrappers
  import opened Scan

  datatype Document = Document(id: string, content: string)

  /** Python's exceptions on a malformed record: no DOCNO match (`None.group`), no TEXT tag (`[1]` out of range). */
  datatype ParseError = MissingDocNo | MissingText | UndefinedName(name: string)

  // ---------------------------------------------------------------- matchers

  /** `[\w+-]`, the characters of a document identifier. */
  predicate IsIdChar(c: char) {
    IsWordChar(c) || c == '+' || c == '-'
  }

  predicate IsIdentifier(id: string) {
    |id| > 0 && forall k :: 0 <= k < |id| ==> IsIdChar(id[k])
  }

  /** `</DOC>\s*<DOC>`. */
  function DocBoundaryAt(s: string, i: nat): (r: Option<Match>)
    ensures r.Some? ==> i < r.value.end <= |s|
    ensures r.Some? ==> IsPrefixAt(s, i, "</DOC>")
  {
    BoundaryAt(s, i, "</DOC>", "<DOC>")
  }

  /**
   * `open\s([\w+-]+)\s close`. The identifier run is taken whole: the character
   * after a maximal run is not an identifier character, and only there may the
   * second `\s` match, so no backtracking into the run can succeed.
   */
  function TaggedIdAt(s: string, i: nat, open: string, close: string): (r: Option<Match>)
    ensures r.Some? ==> i < r.value.end <= |s|
    ensures r.Some? ==> IsIdentifier(r.value.group) && IsPrefixAt(s, i, open)
  {
    var b := i + |open| + 1;
    if |open| > 0 && IsPrefixAt(s, i, open) && b <= |s| && IsSpace(s[b - 1]) then
      var e := SkipWhile(s, b, IsIdChar);
      if b < e < |s| && IsSpace(s[e]) && IsPrefixAt(s, e + 1, close) then
        Some(Match(e + 1 + |close|, s[b..e]))
      else None
    else None
  }

  /** `<DOCNO>\s([\w+-]+)\s</DOCNO>`. */
  function DocNoAt(s: string, i: nat): (r: Option<Match>)
    ensures r.Some? ==> i < r.value.end <= |s|
    ensures r.Some? ==> IsIdentifier(r.value.group) && IsPrefixAt(s, i, "<DOCNO>")
  {
    TaggedIdAt(s, i, "<DOCNO>", "</DOCNO>")
  }

  /** `<PARENT>\s([\w+-]+)\s</PARENT>`. */
  function ParentAt(s: string, i: nat): (r: Option<Match>)
    ensures r.Some? ==> i < r.value.end <= |s|
    ensures r.Some? ==> IsPrefixAt(s, i, "<PARENT>")
  {
    TaggedIdAt(s, i, "<PARENT>", "</PARENT>")
  }

  /** `</?TEXT>`. */
  function TextTagAt(s: string, i: nat): (r: Option<Match>)
    ensures r.Some? ==> i < r.value.end <= |s|
    ensures r.Some? <==> IsPrefixAt(s, i, "<TEXT>") || IsPrefixAt(s, i, "</TEXT>")
  {
    if IsPrefixAt(s, i, "<TEXT>") then Some(Match(i + 6, ""))
    else if IsPrefixAt(s, i, "</TEXT>") then Some(Match(i + 7, ""))
    else None
  }

  /** `&blank;`. */
  function BlankAt(s: string, i: nat): (r: Option<Match>)
    ensures r.Some? ==> i < r.value.end <= |s|
    ensures r.Some? ==> s[i..r.value.end] == "&blank;"
  {
    LiteralAt(s, i, "&blank;")
  }

  /** `&\w+;`; as for identifiers, the word run is taken whole. */
  function EntityAt(s: string, i: nat): (r: Option<Match>)
    ensures r.Some? ==> i < r.value.end <= |s|
    ensures r.Some? ==> s[i] == '&' && s[r.value.end - 1] == ';'
    ensures r.Some? ==> forall k :: i < k < r.value.end - 1 ==> IsWordChar(s[k])
  {
    if i < |s| && s[i] == '&' then
      var e := SkipWhile(s, i + 1, IsWordChar);
      if i + 1 < e < |s| && s[e] == ';' then Some(Match(e + 1, "")) else None
    else None
  }

  /** What `.` may cross while the lazy `.*?` looks for the first `>`. */
  predicate IsTagBodyChar(c: char) {
    c != '>' && c != '\n'
  }

  /** `<.*?>`: from a `<` to the first `>` after it, provided no line feed comes first. */
  function TagAt(s: string, i: nat): (r: Option<Match>)
    ensures r.Some? ==> i < r.value.end <= |s|
    ensures r.Some? ==> s[i] == '<' && s[r.value.end - 1] == '>'
    ensures r.Some? ==> forall k :: i <= k < r.value.end ==> s[k] != '\n'
    ensures r.Some? ==> forall k :: i < k < r.value.end - 1 ==> s[k] != '>'
  {
    if i < |s| && s[i] == '<' then
      var k := SkipWhile(s, i + 1, IsTagBodyChar);
      if k < |s| && s[k] == '>' then Some(Match(k + 1, "")) else None
    else None
  }

  /** The separator token at `i`: 2 for "\r\n", 1 for " ", 0 when there is none. */
  function SeparatorAt(s: string, i: nat): (k: nat)
    ensures k <= 2
    ensures k > 0 ==> i + k <= |s|
  {
    if IsPrefixAt(s, i, "\r\n") then 2 else if i < |s| && s[i] == ' ' then 1 else 0
  }

  /** `s[i..e]` is a sequence of whole separator tokens. */
  ghost predicate IsSeparatorRun(s: string, i: nat, e: nat)
    decreases e - i
  {
    i == e || (i < e && SeparatorAt(s, i) > 0 && IsSeparatorRun(s, i + SeparatorAt(s, i), e))
  }

  /** The end of the run of separator tokens starting at `i`, taken greedily. */
  function RunEnd(s: string, i: nat): (e: nat)
    requires i <= |s|
    ensures i <= e <= |s|
    ensures IsSeparatorRun(s, i, e) && SeparatorAt(s, e) == 0
    decreases |s| - i
  {
    var k := SeparatorAt(s, i);
    if k == 0 then i else RunEnd(s, i + k)
  }

  /** `(\r\n| )(\r\n| )*`, whose first group is the first token of the run. */
  function SeparatorRunAt(s: string, i: nat): (r: Option<Match>)
    ensures r.Some? ==> i < r.value.end <= |s|
    ensures r.Some? <==> SeparatorAt(s, i) > 0
    ensures r.Some? ==> r.value.group == s[i..i + SeparatorAt(s, i)]
    ensures r.Some? ==> IsSeparatorRun(s, i, r.value.end) && SeparatorAt(s, r.value.end) == 0
    ensures r.Some? ==> i + SeparatorAt(s, i) <= r.value.end
  {
    var k := SeparatorAt(s, i);
    if k == 0 then None else Some(Match(RunEnd(s, i + k), s[i..i + k]))
  }

  lemma MatchersAdvance()
    ensures Advances(DocBoundaryAt) && Advances(DocNoAt) && Advances(ParentAt) && Advances(TextTagAt)
    ensures Advances(BlankAt) && Advances(EntityAt) && Advances(TagAt) && Advances(SeparatorRunAt)
  {
  }

  lemma SeparatorRunAdvances()
    ensures Advances(SeparatorRunAt)
  {
  }

  // ---------------------------------------------------------- the pipeline

  /** The `</DOC>\s*<DOC>` separators between the records, left to right. */
  ghost function DocBoundaries(rawData: string): seq<string> {
    MatchersAdvance();
    DelimitersFrom(rawData, 0, DocBoundaryAt)
  }

  /** The records of a corpus: the pieces between the separators, which put back between them give the corpus. */
  function DocSegments(rawData: string): (segs: seq<string>)
    ensures |segs| == |DocBoundaries(rawData)| + 1
    ensures Interleave(segs, DocBoundaries(rawData)) == rawData
    ensures (forall p :: 0 <= p < |rawData| ==> DocBoundaryAt(rawData, p).None?) ==> segs == [rawData]
  {
    MatchersAdvance();
    SplitRoundTrip(rawData, 0, DocBoundaryAt);
    assert rawData[0..] == rawData;
    Split(rawData, DocBoundaryAt)
  }

  /** The `<DOCNO>` identifier of a record: the group of the leftmost match. */
  function DocNo(rawDoc: string): (r: Option<string>)
    ensures r.Some? ==> IsIdentifier(r.value)
    ensures r.None? <==> forall p :: 0 <= p < |rawDoc| ==> DocNoAt(rawDoc, p).None?
    ensures r.Some? ==> exists p: nat :: LeftmostGroup(rawDoc, p, DocNoAt, r.value)
  {
    match Search(rawDoc, DocNoAt)
    case None => None
    case Some((p, mt)) => assert LeftmostGroup(rawDoc, p, DocNoAt, mt.group); Some(mt.group)
  }

  /** The record with every `<PARENT> id </PARENT>` element deleted. */
  function RemoveParent(rawDoc: string): (r: string)
    ensures |r| <= |rawDoc|
    ensures (forall p :: 0 <= p < |rawDoc| ==> ParentAt(rawDoc, p).None?) ==> r == rawDoc
  {
    MatchersAdvance();
    DeletionShrinks(rawDoc, ParentAt);
    SubFacts(rawDoc, ParentAt, Literal(""));
    Sub(rawDoc, ParentAt, Literal(""))
  }

  /** `re.split(r'</?TEXT>', doc)[1]`: the text after the first tag, up to the second tag or the end. */
  function TextRegion(doc: string): (r: Option<string>)
    ensures r.None? <==> forall p :: 0 <= p < |doc| ==> TextTagAt(doc, p).None?
  {
    MatchersAdvance();
    var parts := Split(doc, TextTagAt);
    if |parts| >= 2 then Some(parts[1]) else None
  }

  /** Every `&blank;` made a single space. */
  function ReplaceBlanks(text: string): (r: string)
    ensures |r| <= |text|
    ensures (forall p :: 0 <= p < |text| ==> BlankAt(text, p).None?) ==> r == text
  {
    MatchersAdvance();
    SubFacts(text, BlankAt, Literal(" "));
    Sub(text, BlankAt, Literal(" "))
  }

  /** Every remaining `&name;` entity deleted. */
  function DropEntities(text: string): (r: string)
    ensures |r| <= |text|
    ensures (forall p :: 0 <= p < |text| ==> EntityAt(text, p).None?) ==> r == text
  {
    MatchersAdvance();
    DeletionShrinks(text, EntityAt);
    SubFacts(text, EntityAt, Literal(""));
    Sub(text, EntityAt, Literal(""))
  }

  /** Every single-line `<...>` tag deleted. */
  function StripTags(text: string): (r: string)
    ensures |r| <= |text|
    ensures (forall p :: 0 <= p < |text| ==> TagAt(text, p).None?) ==> r == text
  {
    MatchersAdvance();
    DeletionShrinks(text, TagAt);
    SubFacts(text, TagAt, Literal(""));
    Sub(text, TagAt, Literal(""))
  }

  /** Every run of spaces and `\r\n` pairs cut down to its first token. */
  function Compact(text: string): (r: string)
    ensures |r| <= |text|
    ensures (forall p :: 0 <= p < |text| ==> SeparatorRunAt(text, p).None?) ==> r == text
  {
    MatchersAdvance();
    SubFacts(text, SeparatorRunAt, FirstGroup);
    Sub(text, SeparatorRunAt, FirstGroup)
  }

  /** The cleaning steps of one record's text region, in the source's order. */
  function CleanText(region: string): (r: string)
    ensures |r| <= |region|
  {
    Compact(StripTags(DropEntities(ReplaceBlanks(region))))
  }

  /** One record: its identifier and its cleaned text, or the first thing missing. */
  function ParseDocument(rawDoc: string): (r: Result<Document, ParseError>)
    ensures r.Ok? ==> IsIdentifier(r.value.id) && Some(r.value.id) == DocNo(rawDoc)
    ensures r.Ok? <==> DocNo(rawDoc).Some? && TextRegion(RemoveParent(rawDoc)).Some?
    ensures r.Ok? ==> r.value.content == CleanText(TextRegion(RemoveParent(rawDoc)).value)
    ensures r.Err? ==> r.error == (if DocNo(rawDoc).None? then MissingDocNo else MissingText)
  {
    match DocNo(rawDoc)
    case None => Err(MissingDocNo)
    case Some(id) =>
      match TextRegion(RemoveParent(rawDoc))
      case None => Err(MissingText)
      case Some(region) => Ok(Document(id, CleanText(region)))
  }

  // -------------------------------------------------- the document dictionary

  function IdsOf(docs: seq<Document>): set<string> {
    set d | d in docs :: d.id
  }

  predicate NoDupIds(docs: seq<Document>) {
    forall a, b :: 0 <= a < b < |docs| ==> docs[a].id != docs[b].id
  }

  /** The dictionary a duplicate-free entry list stands for. */
  ghost function AsMap(docs: seq<Document>): map<string, string>
    decreases |docs|
  {
    if docs == [] then map[] else AsMap(docs[1..])[docs[0].id := docs[0].content]
  }

  /** The dictionary obtained by assigning `ds` in order, a later assignment winning. */
  ghost function Assigned(ds: seq<Document>): map<string, string>
    decreases |ds|
  {
    if ds == [] then map[] else Assigned(ds[..|ds| - 1])[ds[|ds| - 1].id := ds[|ds| - 1].content]
  }

  /** `documents[d.id] = d.content`: overwrite the entry in place, or append a new one. */
  function Put(docs: seq<Document>, d: Document): (r: seq<Document>)
    ensures IdsOf(r) == IdsOf(docs) + {d.id}
    decreases |docs|
  {
    if docs == [] then [d]
    else if docs[0].id == d.id then [d] + docs[1..]
    else
      var r := [docs[0]] + Put(docs[1..], d);
      assert IdsOf(r) == {docs[0].id} + IdsOf(Put(docs[1..], d));
      assert IdsOf(docs) == {docs[0].id} + IdsOf(docs[1..]);
      r
  }

  /** `Put` is a dictionary assignment. */
  lemma {:induction false} PutAssigns(docs: seq<Document>, d: Document)
    ensures AsMap(Put(docs, d)) == AsMap(docs)[d.id := d.content]
    decreases |docs|
  {
    if docs != [] && docs[0].id != d.id {
      var r := Put(docs, d);
      assert r[1..] == Put(docs[1..], d);
      PutAssigns(docs[1..], d);
    } else if docs != [] {
      assert Put(docs, d)[1..] == docs[1..];
    }
  }

  /** `Put` never creates a second entry for an identifier. */
  lemma {:induction false} PutKeepsUnique(docs: seq<Document>, d: Document)
    requires NoDupIds(docs)
    ensures NoDupIds(Put(docs, d))
    decreases |docs|
  {
    if docs != [] && docs[0].id != d.id {
      var tail := Put(docs[1..], d);
      PutKeepsUnique(docs[1..], d);
      HeadIdFresh(docs);
      assert forall e :: e in tail ==> e.id in IdsOf(docs[1..]) + {d.id};
    } else if docs != [] {
      HeadIdFresh(docs);
    }
  }

  /** In a duplicate-free list the first identifier occurs nowhere after it. */
  lemma HeadIdFresh(docs: seq<Document>)
    requires docs != [] && NoDupIds(docs)
    ensures NoDupIds(docs[1..]) && docs[0].id !in IdsOf(docs[1..])
  {
    forall e | e in docs[1..] ensures e.id != docs[0].id {
      var b :| 0 <= b < |docs[1..]| && docs[1..][b] == e;
      assert docs[b + 1] == e;
    }
  }

  lemma IdsOfSnoc(ds: seq<Document>)
    requires ds != []
    ensures IdsOf(ds) == IdsOf(ds[..|ds| - 1]) + {ds[|ds| - 1].id}
  {
    assert ds == ds[..|ds| - 1] + [ds[|ds| - 1]];
  }

  /** The dictionary built by assigning each document in turn. */
  function Collect(ds: seq<Document>): (r: seq<Document>)
    ensures NoDupIds(r) && AsMap(r) == Assigned(ds)
    ensures IdsOf(r) == IdsOf(ds)
    decreases |ds|
  {
    if ds == [] then []
    else
      var r := Put(Collect(ds[..|ds| - 1]), ds[|ds| - 1]);
      IdsOfSnoc(ds);
      PutKeepsUnique(Collect(ds[..|ds| - 1]), ds[|ds| - 1]);
      PutAssigns(Collect(ds[..|ds| - 1]), ds[|ds| - 1]);
      r
  }

  /** Assigning one more document updates the dictionary built so far. */
  lemma CollectSnoc(ds: seq<Document>, d: Document)
    ensures Collect(ds + [d]) == Put(Collect(ds), d)
  {
    assert (ds + [d])[..|ds|] == ds;
  }

  /** The keys of the assigned dictionary are the identifiers assigned. */
  lemma {:induction false} AssignedKeys(ds: seq<Document>)
    ensures Assigned(ds).Keys == IdsOf(ds)
    decreases |ds|
  {
    if ds != [] {
      AssignedKeys(ds[..|ds| - 1]);
      assert ds == ds[..|ds| - 1] + [ds[|ds| - 1]];
    }
  }

  /** The last assignment to an identifier is the one the dictionary holds. */
  lemma {:induction false} AssignedLastWins(ds: seq<Document>, k: nat)
    requires k < |ds|
    requires forall j :: k < j < |ds| ==> ds[j].id != ds[k].id
    ensures ds[k].id in Assigned(ds) && Assigned(ds)[ds[k].id] == ds[k].content
    decreases |ds|
  {
    if k < |ds| - 1 {
      AssignedLastWins(ds[..|ds| - 1], k);
    }
  }

  /** Each record's parse, in order. */
  function Parses(segs: seq<string>): (rs: seq<Result<Document, ParseError>>)
    ensures |rs| == |segs| && forall k :: 0 <= k < |segs| ==> rs[k] == ParseDocument(segs[k])
  {
    seq(|segs|, k requires 0 <= k < |segs| => ParseDocument(segs[k]))
  }

  /** What `parse_raw_data` evidently means to compute (see `ParseRawDataAsWritten`). */
  function ParseCorpus(rawData: string): (r: Result<seq<Document>, ParseError>)
    ensures r.Ok? <==> forall k :: 0 <= k < |DocSegments(rawData)| ==> ParseDocument(DocSegments(rawData)[k]).Ok?
    ensures r.Ok? ==> NoDupIds(r.value)
  {
    match AllOk(Parses(DocSegments(rawData)))
    case Err(e) => Err(e)
    case Ok(ds) => Ok(Collect(ds))
  }

  /**
   * `parse_raw_data` as it stands: the split is bound to `raw_textuments` but the
   * loop reads `raw_documents`, a name bound nowhere, so every call fails there.
   */
  function ParseRawDataAsWritten(rawData: string): (r: Result<seq<Document>, ParseError>)
    ensures r.Err?
  {
    var rawTextuments := DocSegments(rawData);
    Err(UndefinedName("raw_documents"))
  }

  /** `parse_raw_data` with the loop over the split records, filling the dictionary in place. */
  method ParseRawData(rawData: string) returns (r: Result<seq<Document>, ParseError>)
    ensures r == ParseCorpus(rawData)
  {
    var rawDocuments := DocSegments(rawData);
    ghost var rs := Parses(rawDocuments);
    var documents: seq<Document> := [];
    ghost var parsed: seq<Document> := [];
    for n := 0 to |rawDocuments|
      invariant AllOk(rs[..n]) == Ok(parsed)
      invariant documents == Collect(parsed)
    {
      var doc := ParseDocument(rawDocuments[n]);
      if doc.Err? {
        AllOkStopsAtError(rs, n);
        return Err(doc.error);
      }
      AllOkSnoc(rs, n, parsed);
      CollectSnoc(parsed, doc.value);
      documents := Put(documents, doc.value);
      parsed := parsed + [doc.value];
    }
    assert rs[..|rawDocuments|] == rs;
    r := Ok(documents);
  }
}
