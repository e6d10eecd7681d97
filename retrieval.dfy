/*
 * Searching the index with the parsed topics (search.py, make_query_dsl and
 * search_queries): every topic title becomes a full-text `match` request, and
 * the hit list the engine returns is filed under the topic's number.
 */
module Retrieval {
  import opened Wrappers
  import opened Topics

  /** A JSON value, as far as the request bodies sent to the engine need one. */
  datatype Json = JString(str: string) | JArray(items: seq<Json>) | JObject(members: seq<(string, Json)>)

  /** The value of the first member named `key`. */
  function Member(members: seq<(string, Json)>, key: string): Option<Json>
    decreases |members|
  {
    if members == [] then None
    else if members[0].0 == key then Some(members[0].1)
    else Member(members[1..], key)
  }

  /** The value reached by following `path` through nested objects, as `body[k1][k2]...` would. */
  function Lookup(j: Json, path: seq<string>): Option<Json>
    decreases |path|
  {
    if path == [] then Some(j)
    else match j
      case JObject(ms) =>
        (match Member(ms, path[0])
           case None => None
           case Some(v) => Lookup(v, path[1..]))
      case _ => None
  }

  /** Following a path one member at a time. */
  lemma LookupStep(ms: seq<(string, Json)>, key: string, rest: seq<string>)
    requires Member(ms, key).Some?
    ensures Lookup(JObject(ms), [key] + rest) == Lookup(Member(ms, key).value, rest)
  {
    assert ([key] + rest)[1..] == rest;
  }

  /** The member names of an object, in order. */
  function Names(j: Json): seq<string> {
    if j.JObject? then seq(|j.members|, i requires 0 <= i < |j.members| => j.members[i].0) else []
  }

  /**
   * The request body for a full-text search of `text` over the `content`
   * field: any of the words may match, and no stored fields are returned.
   */
  function MakeQueryDsl(text: string): (dsl: Json)
    ensures Lookup(dsl, ["query", "match", "content", "query"]) == Some(JString(text))
    ensures Lookup(dsl, ["query", "match", "content", "operator"]) == Some(JString("or"))
    ensures Lookup(dsl, ["fields"]) == Some(JArray([]))
    ensures Names(dsl) == ["fields", "query"]
  {
    var content := JObject([("query", JString(text)), ("operator", JString("or"))]);
    var match_ := JObject([("content", content)]);
    var query := JObject([("match", match_)]);
    var dsl := JObject([("fields", JArray([])), ("query", query)]);
    LookupStep(content.members, "query", []);
    LookupStep(content.members, "operator", []);
    LookupStep(match_.members, "content", ["query"]);
    LookupStep(match_.members, "content", ["operator"]);
    LookupStep(query.members, "match", ["content", "query"]);
    LookupStep(query.members, "match", ["content", "operator"]);
    LookupStep(dsl.members, "query", ["match", "content", "query"]);
    LookupStep(dsl.members, "query", ["match", "content", "operator"]);
    LookupStep(dsl.members, "fields", []);
    dsl
  }

  /** Nothing but the search text tells two request bodies apart. */
  lemma QueryDslInjective(a: string, b: string)
    requires MakeQueryDsl(a) == MakeQueryDsl(b)
    ensures a == b
  {
    var path := ["query", "match", "content", "query"];
    assert Lookup(MakeQueryDsl(a), path) == Some(JString(a));
  }

  /** One hit of a search: the document identifier and its score, already rendered with five decimals. */
  datatype Hit = Hit(id: string, score: string)

  /** The number of hits asked for per topic. */
  const SearchSize: nat := 1000

  /** Whatever the client raises when a search fails: a refused connection, a missing index, a timeout. */
  datatype SearchError = SearchError(reason: string)

  /**
   * The engine's search, seen from the outside: the hits for a request body
   * on an index, at most `size` of them, or the error the client raises.
   * Scoring and ranking are the engine's.
   */
  type SearchEngine = (string, Json, nat) -> Result<seq<Hit>, SearchError>

  /** What the engine answers for topic `q`: its title is the query. */
  function HitsFor(search: SearchEngine, indexName: string, q: Query): Result<seq<Hit>, SearchError> {
    search(indexName, MakeQueryDsl(q.title), SearchSize)
  }

  /**
   * The result map after the topics of `queries` were searched in order; a
   * repeated number takes the later hits. The first failed search ends the
   * run with its error.
   */
  function ResultMap(search: SearchEngine, indexName: string, queries: seq<Query>): Result<map<nat, seq<Hit>>, SearchError>
    decreases |queries|
  {
    if queries == [] then Ok(map[])
    else
      var n := |queries| - 1;
      match ResultMap(search, indexName, queries[..n])
      case Err(e) => Err(e)
      case Ok(m) =>
        match HitsFor(search, indexName, queries[n])
        case Err(e) => Err(e)
        case Ok(hits) => Ok(m[queries[n].id := hits])
  }

  /** `search_queries`: searches every topic and files its hits under the topic number, stopping at the first failure. */
  method SearchQueries(search: SearchEngine, indexName: string, queries: seq<Query>)
    returns (results: Result<map<nat, seq<Hit>>, SearchError>)
    ensures results == ResultMap(search, indexName, queries)
  {
    var filed := map[];
    for n := 0 to |queries|
      invariant ResultMap(search, indexName, queries[..n]) == Ok(filed)
    {
      var q := queries[n];
      var queryDsl := MakeQueryDsl(q.title);
      var rawResults := search(indexName, queryDsl, SearchSize);
      assert queries[..n + 1][..n] == queries[..n];
      if rawResults.Err? {
        ResultMapStopsAt(search, indexName, queries, n + 1);
        return Err(rawResults.error);
      }
      filed := filed[q.id := rawResults.value];
    }
    assert queries[..|queries|] == queries;
    return Ok(filed);
  }

  /** A successful run is the successful run of all topics but the last, with the last one's hits filed. */
  lemma ResultMapLast(search: SearchEngine, indexName: string, queries: seq<Query>)
    requires queries != [] && ResultMap(search, indexName, queries).Ok?
    ensures var n := |queries| - 1;
      ResultMap(search, indexName, queries[..n]).Ok? && HitsFor(search, indexName, queries[n]).Ok?
      && ResultMap(search, indexName, queries).value
         == ResultMap(search, indexName, queries[..n]).value[queries[n].id := HitsFor(search, indexName, queries[n]).value]
  {
  }

  /** A run succeeds exactly when every one of its searches does. */
  lemma {:induction false} ResultMapOk(search: SearchEngine, indexName: string, queries: seq<Query>)
    ensures ResultMap(search, indexName, queries).Ok? <==> forall k :: 0 <= k < |queries| ==> HitsFor(search, indexName, queries[k]).Ok?
    decreases |queries|
  {
    if queries != [] {
      var n := |queries| - 1;
      ResultMapOk(search, indexName, queries[..n]);
      assert forall k :: 0 <= k < n ==> queries[..n][k] == queries[k];
    }
  }

  /** Once a prefix of the topics has failed, searching the rest changes nothing. */
  lemma {:induction false} ResultMapStopsAt(search: SearchEngine, indexName: string, queries: seq<Query>, n: nat)
    requires n <= |queries|
    requires ResultMap(search, indexName, queries[..n]).Err?
    ensures ResultMap(search, indexName, queries) == ResultMap(search, indexName, queries[..n])
    decreases |queries|
  {
    if n < |queries| {
      var m := |queries| - 1;
      assert queries[..m][..n] == queries[..n];
      ResultMapStopsAt(search, indexName, queries[..m], n);
    } else {
      assert queries[..n] == queries;
    }
  }

  /** A failed run reports the error of the first failed search, every search before it having succeeded. */
  lemma {:induction false} ResultMapFailure(search: SearchEngine, indexName: string, queries: seq<Query>) returns (k: nat)
    requires ResultMap(search, indexName, queries).Err?
    ensures k < |queries|
    ensures HitsFor(search, indexName, queries[k]) == Err(ResultMap(search, indexName, queries).error)
    ensures forall j :: 0 <= j < k ==> HitsFor(search, indexName, queries[j]).Ok?
    decreases |queries|
  {
    var n := |queries| - 1;
    if ResultMap(search, indexName, queries[..n]).Err? {
      k := ResultMapFailure(search, indexName, queries[..n]);
      assert queries[..n][k] == queries[k];
      forall j | 0 <= j < k ensures HitsFor(search, indexName, queries[j]).Ok? {
        assert queries[..n][j] == queries[j];
      }
    } else {
      k := n;
      ResultMapOk(search, indexName, queries[..n]);
      forall j | 0 <= j < k ensures HitsFor(search, indexName, queries[j]).Ok? {
        assert queries[..n][j] == queries[j];
      }
    }
  }

  /** A successful run has exactly one entry per distinct topic number. */
  lemma {:induction false} ResultMapKeys(search: SearchEngine, indexName: string, queries: seq<Query>)
    requires ResultMap(search, indexName, queries).Ok?
    ensures ResultMap(search, indexName, queries).value.Keys == set i | 0 <= i < |queries| :: queries[i].id
    decreases |queries|
  {
    if queries != [] {
      var n := |queries| - 1;
      ResultMapLast(search, indexName, queries);
      ResultMapKeys(search, indexName, queries[..n]);
      var before := set i | 0 <= i < n :: queries[..n][i].id;
      var after := set i | 0 <= i < |queries| :: queries[i].id;
      assert before == set i | 0 <= i < n :: queries[i].id;
      assert after == before + {queries[n].id};
    }
  }

  /**
   * In a successful run, the entry of a topic number holds the engine's hits,
   * unmodified, for the last topic carrying that number.
   */
  lemma {:induction false} ResultMapLastWins(search: SearchEngine, indexName: string, queries: seq<Query>, k: nat)
    requires ResultMap(search, indexName, queries).Ok?
    requires k < |queries|
    requires forall j :: k < j < |queries| ==> queries[j].id != queries[k].id
    ensures queries[k].id in ResultMap(search, indexName, queries).value
    ensures HitsFor(search, indexName, queries[k]) == Ok(ResultMap(search, indexName, queries).value[queries[k].id])
    decreases |queries|
  {
    var n := |queries| - 1;
    ResultMapLast(search, indexName, queries);
    if k < n {
      ResultMapLastWins(search, indexName, queries[..n], k);
    }
  }
}
