# elasticsearch-demo, modelled in Dafny

The demo indexes a TREC-style newswire corpus into Elasticsearch, then
evaluates retrieval with `trec_eval`. It runs the TREC topics as full-text
title queries, collects the hit lists per topic and scores them. This
project models the core of that pipeline and proves properties of the model.

- **Corpus parser** (`Corpus`, `CorpusProperties`) — `parse_raw_data` in
  index.py.
  - It cuts the corpus into records at `</DOC>\s*<DOC>`.
  - From each record it takes the `<DOCNO>` identifier, removes the
    `<PARENT>` element, and keeps the text between the first two TEXT tags.
  - That text is cleaned in four steps: `&blank;` becomes a space, other
    entities are dropped, tags are removed, and separator runs are compacted.
  - The records are gathered into an identifier-to-text dictionary.
- **Ingestion** (`Ingest`) — `create_index`, `index_parsed_data` and
  `bulk_index_parsed_data`, run against an `Engine` class.
  - The engine keeps the index flag, the document store and the log of the
    requests it received.
  - The one-by-one strategy stops at the first conflicting create.
  - The bulk strategy buffers create operations and flushes them every
    `bulk_max_ops_cnt` documents, plus once at the end.
- **Topic parser** (`Topics`, `TopicProperties`) — `parse_raw_queries` in
  search.py.
  - It cuts the file at `</top>\s*<top>`.
  - It reads the number, title, description and narrative of each topic, with
    the same greedy and backtracking behaviour as the source's patterns.
- **Retrieval** (`Retrieval`) — `make_query_dsl` and the result-map loop of
  `search_queries`. The search engine is a function parameter.
- **Evaluation** (`Evaluation`, `EvaluationProperties`) — `run_treceval`.
  - It writes the TREC run file with topics in ascending order, one line per
    hit, and the hit's position as its rank.
  - It falls back to the platform-specific binary when the given path is
    absent.
  - It reports an error whenever the evaluator writes to standard error.
  - The file system is a class holding a map from paths to contents. The
    evaluator binary is a function parameter.

`Scan` supplies the parts of Python's `re` and `str` that the parsers use:
- leftmost-first `Search`, `Split` and `Sub`, driven by hand-written
  deterministic matchers;
- `strip`;
- decimal digits.

Character classes follow Python 2, which the code targets (`file(...)` in
search.py): the patterns run on byte strings, so `\s` and `\w` are ASCII,
and `strip` removes ASCII whitespace. `Wrappers` holds `Option`, `Result` and
`AllOk`. `AllOk` is the "first raised exception ends the loop" behaviour of
the parsers' loops.

Two behaviours of the code are worth knowing before reading the model:
- **Cleaning is not idempotent.** Cleaning `&a&b;;` gives `&a;`, and
  cleaning that again gives the empty text (`CleaningNotIdempotent`). Tag
  stripping and compaction are idempotent on their own.
- **The temporary run file is not always removed.** `os.remove` comes after
  `Popen`. When the evaluator binary cannot be started, the file stays
  (`RunTrecEval`, the `LaunchFailed` branch).

## Model

| member | source | states |
|---|---|---|
| Corpus.DocBoundaryAt | index.py:30 | a record boundary match starts with `</DOC>` and stays inside the text |
| Corpus.DocNoAt | index.py:34 | a `<DOCNO>` match starts at the tag and captures an identifier of `[\w+-]` characters |
| Corpus.DocNo | index.py:34 | the identifier is absent exactly when no position matches the DOCNO pattern; a found one is an identifier and is the group of the leftmost match |
| Corpus.DocSegments | index.py:30 | the records, with the `</DOC>\s*<DOC>` separators put back between them, give the corpus; a corpus without a separator is one record |
| Corpus.RemoveParent | index.py:37 | deleting the PARENT element never lengthens the record and leaves a record without one as it is |
| Corpus.ReplaceBlanks | index.py:44 | replacing `&blank;` by a space never lengthens the text and leaves a text without one as it is |
| Corpus.DropEntities | index.py:45 | deleting `&\w+;` entities never lengthens the text and leaves a text without one as it is |
| Corpus.StripTags | index.py:48 | deleting `<.*?>` tags never lengthens the text and leaves a text without one as it is |
| Corpus.Compact | index.py:51 | cutting separator runs to their first token never lengthens the text and leaves a text without a run as it is |
| Corpus.CleanText | index.py:44-51 | the four cleaning steps in order never lengthen the text region |
| Corpus.ParentAt | index.py:37 | a parent match starts with `<PARENT>` |
| Corpus.TextTagAt | index.py:41 | `</?TEXT>` matches exactly where `<TEXT>` or `</TEXT>` starts |
| Corpus.TextRegion | index.py:41 | there is no second split piece exactly when no TEXT tag occurs |
| Corpus.BlankAt | index.py:44 | a match covers exactly `&blank;` |
| Corpus.EntityAt | index.py:45 | a match is `&`, word characters, `;` |
| Corpus.TagAt | index.py:48 | a lazy tag match starts with `<`, ends at the first `>`, and crosses no line feed |
| Corpus.SeparatorRunAt | index.py:51 | a match is a whole run of `\r\n`/space tokens, its group is the first token, and no token follows the run |
| Corpus.ParseDocument | index.py:34-51 | a record parses exactly when it has a DOCNO and a TEXT tag; the id is its DOCNO and the content its cleaned text region; a failure names what is missing first |
| Corpus.ParseCorpus | index.py:30-54 | the corpus parses exactly when every record does; the dictionary has no repeated identifier |
| Corpus.Put | index.py:54 | assigning into the dictionary adds the key to the key set |
| Corpus.PutAssigns | index.py:54 | the dictionary after the assignment maps the id to the new text and leaves other keys alone |
| Corpus.PutKeepsUnique | index.py:54 | the dictionary keeps one entry per identifier |
| Corpus.Collect | index.py:26-54 | gathering parsed records gives a duplicate-free dictionary equal to assigning them in order |
| Corpus.AssignedKeys | index.py:26-54 | the dictionary's keys are the identifiers of the records |
| Corpus.AssignedLastWins | index.py:54 | a record with no later duplicate decides its key's text: later records overwrite earlier ones |
| Corpus.ParseRawDataAsWritten | index.py:30-32 | the code as written fails on every input, because the loop reads a name that nothing binds |
| Corpus.ParseRawData | index.py:15-56 | the loop over the records yields the dictionary of all parsed records, or the first record's error |
| CorpusProperties.StripTagsLeavesNoTag | index.py:48 | after tag removal, a `<` followed later by `>` always has a line feed in between |
| CorpusProperties.StripTagsIdempotent | index.py:48 | removing tags twice is removing them once |
| CorpusProperties.StripTagsKeepsLines | index.py:48 | tag removal keeps every line feed |
| CorpusProperties.CompactLeavesNoDouble | index.py:51 | after compaction no separator token directly follows another |
| CorpusProperties.CompactKeeps | index.py:51 | text without doubled separators is left unchanged by compaction |
| CorpusProperties.CompactIdempotent | index.py:51 | compacting twice is compacting once |
| CorpusProperties.BlanksBecomeSpaces | index.py:44-45 | after both entity steps the space count is the original count plus one per `&blank;` |
| CorpusProperties.EntityOrderMatters | index.py:44-45 | running the entity steps in the other order loses the `&blank;` space |
| CorpusProperties.CleaningNotIdempotent | index.py:44-51 | the cleaning chain applied twice can differ from it applied once |
| CorpusProperties.DocNoFinds | index.py:34 | a `<DOCNO> id </DOCNO>` with no DOCNO match before it gives the record's identifier |
| CorpusProperties.TextBetweenTags | index.py:41 | the text region is what lies between the first `<TEXT>` and the next TEXT tag or the end, whatever the region holds besides TEXT tags |
| CorpusProperties.ContentFromRegion | index.py:34-51 | a record's document is its identifier with its cleaned text region, whatever surrounds the region |
| CorpusProperties.CorpusEntries | index.py:30-54 | a successful parse has one document per record; the dictionary holds their identifiers, last record winning |
| CorpusProperties.CorpusFailure | index.py:30-54 | a failed parse reports the error of the first record that fails, and all records before it parse |
| CorpusProperties.MalformedRecord | index.py:34-41 | a record without DOCNO fails with MissingDocNo; one with DOCNO but no TEXT tag fails with MissingText |
| CorpusProperties.OneRecordDocument | index.py:30-51 | a single well-formed record is one segment and parses to its identifier and cleaned text |
| CorpusProperties.OneRecordParses | index.py:15-56 | a single well-formed record parses to a one-entry dictionary; the code as written fails on it |
| Wrappers.AllOk | index.py:32-54 | the loop succeeds exactly when every entry succeeds, and then yields every value in order |
| Wrappers.AllOkFirstError | index.py:32-54 | a failing loop fails with the first failing entry's error |
| Ingest.CreateInto | index.py:78-81 | a create adds a new id with its content and leaves existing entries alone |
| Ingest.Engine.Create | index.py:78-81 | the create call is logged; it succeeds exactly when the id is new |
| Ingest.Engine.Bulk | index.py:115 | the bulk body's creates are applied in order and the call is logged |
| Ingest.Engine.IndexExists | index.py:140 | reports whether the index exists |
| Ingest.Engine.DeleteIndex | index.py:141 | the index and its documents are gone |
| Ingest.Engine.CreateIndex | index.py:144 | an empty index exists with the given settings |
| Ingest.CreateIndex | index.py:124-144 | afterwards an empty index exists; a delete was sent exactly when one existed before, then the create |
| Ingest.IndexParsedData | index.py:59-81 | one create per document in order; success exactly when no create conflicts; a failure names the first conflicting id and keeps the documents before it |
| Ingest.BulkIndexParsedData | index.py:84-121 | the calls sent are one bulk call per batch of `bulk_max_ops_cnt` documents plus the final remainder call, and the store ends as loading the documents in order |
| Ingest.AddToBuffer | index.py:106-119 | adding one document keeps the buffer equal to the unsent documents' operations and flushes exactly when the count reaches the limit |
| Ingest.SendBatch | index.py:113-119 | a full buffer is sent as the next expected bulk call |
| Ingest.SendLast | index.py:121 | the remainder is sent as the last bulk call, completing the expected log |
| Ingest.OpsOf | index.py:108-110 | two bulk lines per document |
| Ingest.ApplyOpsOf | index.py:108-110 | applying a document's action and source lines is creating it |
| Ingest.BatchCount | index.py:103-121 | a limit of b gives ⌊n/b⌋+1 bulk calls, the last one possibly empty |
| Ingest.BatchSizes | index.py:103-121 | every bulk call but the last holds exactly b documents; the last holds n mod b |
| Ingest.BatchesFlatten | index.py:103-121 | the batches, concatenated, are the documents in order: none lost, none repeated |
| Ingest.ConflictFreeFromEmpty | index.py:59-81 | creating documents none of which is stored conflicts nowhere exactly when their ids are distinct |
| Ingest.LoadDocsFresh | index.py:59-81 | loading distinct fresh documents adds exactly the dictionary |
| Ingest.StrategiesAgree | index.py:59-121 | on a fresh index both strategies succeed and store exactly the parsed dictionary |
| Retrieval.MakeQueryDsl | search.py:64-85 | the body asks for no stored fields and an `or` match of the text on `content` |
| Retrieval.HitsFor | search.py:116-121 | the engine's answer for a topic: its title as a match query on the index, size 1000 |
| Retrieval.QueryDslInjective | search.py:74-84 | different query texts give different bodies |
| Retrieval.SearchQueries | search.py:88-127 | the loop files each topic's hits, got by a title query of size 1000, under its number; the first failed search ends it with that error |
| Retrieval.ResultMapOk | search.py:113-125 | a run succeeds exactly when every topic's search succeeds |
| Retrieval.ResultMapStopsAt | search.py:120-121 | once a search fails, the later topics change nothing |
| Retrieval.ResultMapFailure | search.py:113-125 | a failed run reports the error of the first failed search, all searches before it having succeeded |
| Retrieval.ResultMapKeys | search.py:111-125 | a successful run's keys are exactly the topic numbers |
| Retrieval.ResultMapLastWins | search.py:125 | in a successful run, a topic number's entry holds the hits of its last topic |
| Topics.TopBoundaryAt | search.py:39 | a topic boundary match starts with `</top>` |
| Topics.NumAt | search.py:43 | `<num> Number: (\d+)` captures the whole maximal digit run |
| Topics.TitleAt | search.py:46 | `<title> Topic: (.+)` captures the rest of the line, which is non-empty |
| Topics.DescAt | search.py:49-50 | the greedy description group ends at the last `<narr>` of the topic, and a match exists exactly when such a `<narr>` follows |
| Topics.DescAtLast | search.py:49-50 | given the last `<narr>`, the group is the text before it |
| Topics.NarrAt | search.py:54-55 | the narrative group is all the rest of the topic and is non-empty |
| Topics.NewlineAt | search.py:51 | matches exactly one line feed |
| Topics.TopCloseAt | search.py:56 | matches exactly `</top>` |
| Topics.LastFrom | search.py:50 | finds the last occurrence of a literal |
| Topics.DescText | search.py:49-51 | the description is the group with line feeds made spaces, cut of whitespace at both ends only; it has no line feed and no surrounding whitespace |
| Topics.NarrText | search.py:54-56 | the narrative is the group with line feeds made spaces and `</top>` dropped, cut of whitespace at both ends only; it has no line feed and no surrounding whitespace |
| Topics.ParseTopic | search.py:41-59 | a topic parses exactly when all four patterns match; a failure names the first missing one; the number is `int()` of the `<num>` search's group, the title the title search's group, the description and narrative the cleaned groups of their searches |
| Topics.TopicFieldsLeftmost | search.py:41-56 | each field of a parsed topic comes from the group of its pattern's leftmost match |
| Topics.ParseRawQueries | search.py:18-61 | the loop yields one query per topic in order, or the first topic's error |
| Topics.SpaceNewlines | search.py:51 | `.replace('\n', ' ')` keeps the length and changes exactly the line feeds, into spaces |
| Topics.DropTopClose | search.py:56 | `.replace('</top>', '')` never lengthens the text and leaves a text without `</top>` as it is |
| Topics.TopicSegments | search.py:39 | the topics, with the `</top>\s*<top>` separators put back between them, give the file; a file without a separator is one topic |
| Topics.ParseQueries | search.py:35-61 | the parse succeeds exactly when every topic segment parses |
| Topics.DropTopCloseKeepsNoNewline | search.py:56 | dropping `</top>` adds no line feed |
| Topics.DropTopCloseSinglePass | search.py:56 | `.replace` is one pass: `<</top>/top>` leaves a `</top>` |
| Topics.QueriesPerTopic | search.py:39-61 | a successful parse has one query per segment, in order |
| Topics.QueriesFailure | search.py:39-61 | a failed parse reports the first failing topic's error |
| TopicProperties.OneSegment | search.py:39 | one well-formed topic is not split |
| TopicProperties.NumFound | search.py:43 | the number pattern finds the topic's number |
| TopicProperties.TitleFound | search.py:46 | the title pattern finds the topic's title line |
| TopicProperties.DescFound | search.py:49-50 | the description pattern captures the description line |
| TopicProperties.NarrFound | search.py:54-55 | the narrative pattern captures the narrative and the closing tag |
| TopicProperties.DropTopCloseAt | search.py:56 | dropping `</top>` from the narrative removes just it |
| TopicProperties.TopicRoundTrip | search.py:41-59 | parsing the text of a well-formed topic gives the topic back |
| TopicProperties.OneTopicFile | search.py:18-61 | a file of one well-formed topic parses to that topic alone |
| Scan.SearchFrom | search.py:43 | the match found is the leftmost one; none is reported only when nothing matches |
| Scan.LeftmostUnique | search.py:43 | a pattern has one leftmost match, so the group `re.search(...).group(1)` returns is determined |
| Scan.SplitRoundTrip | index.py:30 | the split pieces interleaved with the matched separators give back the text |
| Scan.SkipWhile | search.py:39 | `\s*` takes the longest run of matching characters |
| Scan.Strip | search.py:51 | `.strip()` is a slice of its input with only whitespace cut off on either side, and it starts and ends with a non-whitespace character |
| Scan.StripUnique | search.py:51 | any such slice ending on non-whitespace at both sides is the stripped text |
| Scan.StripKeeps | search.py:51 | stripping a stripped text changes nothing |
| Scan.DigitsRoundTrip | search.py:43 | `int()` of a number's decimal digits is the number |
| Evaluation.Least | search.py:148 | the least topic number of a set |
| Evaluation.SortedKeys | search.py:148 | `sorted(results.items())` visits every topic number once, in ascending order |
| Evaluation.Render | search.py:150-151 | a run-file line starts with the topic number and ` 0 ` and ends with a line feed |
| Evaluation.QueryLines | search.py:149-151 | one line per hit of the topic, in list order, ranked from 0 with the hit's id and score |
| Evaluation.Submission | search.py:148-151 | every line of the run file belongs to a topic of the result map |
| Evaluation.BinaryPath | search.py:160-162 | the given path when it exists, else the path suffixed with `_` and the platform name |
| Evaluation.WriteHits | search.py:149-151 | the lines written for one topic are its hits with their ranks |
| Evaluation.WriteSubmission | search.py:148-151 | the text written is the run file of all topics |
| Evaluation.Outcome | search.py:176-180 | an error exactly when standard error is non-empty; otherwise exactly the stripped standard output |
| Evaluation.RunTrecEval | search.py:130-180 | writes the run file, runs the fallback-resolved binary on qrels and run file, removes the file once the binary ran, and reports its outcome |
| EvaluationProperties.SubmissionOrdered | search.py:148 | topics appear in ascending order in the run file |
| EvaluationProperties.SubmissionPerQuery | search.py:148-151 | the lines of a topic are exactly its hits, in engine order, ranked from 0 |
| EvaluationProperties.SubmissionCount | search.py:148-151 | the run file has one line per hit |
| EvaluationProperties.LineRoundTrip | search.py:150-151 | a line as written reads back as the same line |
| EvaluationProperties.SubmissionRoundTrip | search.py:148-151 | the run file reads back as the submission's lines |

## Left out

- The Elasticsearch client is replaced by the `Engine` class and the
  `SearchEngine` function. HTTP, timeouts, mappings, analysis and scoring are
  not part of this model.
- Topics.DescText: under `unicode_literals` the `.replace` decodes the group
  as ASCII, so a description with a non-ASCII byte raises
  `UnicodeDecodeError`, and the unicode `strip` also removes the separators
  `\x1c`-`\x1f`. The model has no decode error and strips ASCII whitespace
  only.
- Topics.NarrText: the same decoding and `strip` difference as for the
  description applies to the narrative.
- Retrieval.SearchQueries: the at-most-1000 bound on hits is the engine's
  promise. The model passes the size on but does not enforce it.
- Evaluation.RunTrecEval: the `{score:.5f}` float formatting is not modelled.
  A hit's score is kept as the text the engine would have formatted.
- Evaluation.RunTrecEval: the temporary file's name is a parameter, and the
  file is written as one whole text.
- Evaluation.RunTrecEval: `subprocess`, `os.path.exists`, `os.remove` and
  `platform.system` are reached through the `FileSystem` class and the
  `Evaluator` function.
- Ingest.BulkIndexParsedData: the final bulk call can be empty. The client
  library rejects an empty body with a `ValueError`; the model sends it as an
  empty call instead.
- Ingest.Engine.Bulk: per-item conflicts of a bulk request are reported by
  the engine, not raised. A conflicting item changes nothing.
- The `main` functions and the `documents.update` merge of several corpus
  files are out of scope, together with the timing and printing around them.
- The general regular-expression engine is not modelled. Only the source's
  patterns are, each as a hand-written matcher.
- Corpus: the order of `documents.items()` is not modelled. Python 2
  dictionaries do not fix it; the dictionary is a duplicate-free sequence
  in first-insertion order, and the ingestion properties hold for any order.
- Ingest.AddToBuffer, Ingest.SendBatch and Ingest.SendLast are the loop body
  and the two flushes of `bulk_index_parsed_data`, split out as methods.

## Findings

| source | as written | input that shows it | evidently intended | confidence | as-written member | corrected member |
|---|---|---|---|---|---|---|
| index.py:30-32 | the split is bound to `raw_textuments`, but the loop iterates `raw_documents`, which nothing binds, so every call raises `NameError` | any corpus, e.g. one record `<DOCNO> d1 </DOCNO><TEXT>x` | loop over the split records | not executed | Corpus.ParseRawDataAsWritten | Corpus.ParseRawData |
