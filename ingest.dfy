/**
 * The two ingestion strategies of index.py against an abstract search engine:
 * `index_parsed_data` creates the documents one call at a time, and
 * `bulk_index_parsed_data` collects create operations in a buffer that it
 * flushes every `bulk_max_ops_cnt` documents and once more at the end.
 * `create_index` resets the index by deleting it when it exists and creating
 * it again.
 *
 * The engine keeps only what the strategies can observe: whether the index
 * exists, the identifier-to-content store, and the log of calls it received.
 * The document dictionary is handed over as a duplicate-free sequence in the
 * order `documents.items()` yields it.
 */
module Ingest {
  import opened Wrappers
  import opened Corpus

  /** `BULK_MAX_OPS_CNT` of config.py: documents per bulk request. */
  const BulkMaxOpsCnt: int := 1000

  /** One entry of a bulk body: the create action line, or the source line after it. */
  datatype BulkOp = CreateAction(id: string) | Source(content: string)

  /** What the engine received, in order. */
  datatype Call =
    | CreateCall(id: string, content: string)
    | BulkCall(ops: seq<BulkOp>)
    | DeleteIndexCall
    | CreateIndexCall(settings: string)

  /** A create into `store`: the document is added unless its identifier is already there. */
  function CreateInto(store: map<string, string>, d: Document): (r: map<string, string>)
    ensures d.id in r && r.Keys == store.Keys + {d.id}
    ensures d.id !in store ==> r[d.id] == d.content
    ensures forall k :: k in store ==> r[k] == store[k]
  {
    if d.id in store then store else store[d.id := d.content]
  }

  /** The store after creating each document of `docs` in turn. */
  function LoadDocs(store: map<string, string>, docs: seq<Document>): map<string, string>
    decreases |docs|
  {
    if docs == [] then store else LoadDocs(CreateInto(store, docs[0]), docs[1..])
  }

  /** What the engine does with a bulk body: each create action with its source, in order; a create on a present identifier is skipped. */
  function ApplyOps(store: map<string, string>, ops: seq<BulkOp>): map<string, string>
    decreases |ops|
  {
    if |ops| >= 2 && ops[0].CreateAction? && ops[1].Source? then
      ApplyOps(CreateInto(store, Document(ops[0].id, ops[1].content)), ops[2..])
    else store
  }

  /** The bulk body for `docs`: a create action and a source per document. */
  function OpsOf(docs: seq<Document>): (ops: seq<BulkOp>)
    ensures |ops| == 2 * |docs|
    decreases |docs|
  {
    if docs == [] then [] else [CreateAction(docs[0].id), Source(docs[0].content)] + OpsOf(docs[1..])
  }

  /**
   * The documents of each bulk request of the bulk strategy: full batches of
   * `bulkMaxOpsCnt` documents, then the remainder, which may be empty. A size
   * below one never triggers a flush, so everything goes in the final request.
   */
  function Batches(docs: seq<Document>, bulkMaxOpsCnt: int): (bs: seq<seq<Document>>)
    ensures |bs| >= 1
    decreases |docs|
  {
    if bulkMaxOpsCnt >= 1 && |docs| >= bulkMaxOpsCnt then
      [docs[..bulkMaxOpsCnt]] + Batches(docs[bulkMaxOpsCnt..], bulkMaxOpsCnt)
    else [docs]
  }

  function BulkCalls(bs: seq<seq<Document>>): (calls: seq<Call>)
    ensures |calls| == |bs|
    ensures forall k :: 0 <= k < |bs| ==> calls[k] == BulkCall(OpsOf(bs[k]))
  {
    seq(|bs|, k requires 0 <= k < |bs| => BulkCall(OpsOf(bs[k])))
  }

  function CreateCalls(docs: seq<Document>): (calls: seq<Call>)
    ensures |calls| == |docs|
    ensures forall k :: 0 <= k < |docs| ==> calls[k] == CreateCall(docs[k].id, docs[k].content)
  {
    seq(|docs|, k requires 0 <= k < |docs| => CreateCall(docs[k].id, docs[k].content))
  }

  function Flatten(bs: seq<seq<Document>>): seq<Document>
    decreases |bs|
  {
    if bs == [] then [] else bs[0] + Flatten(bs[1..])
  }

  /** No document of `docs` meets an identifier already present when it is created. */
  predicate ConflictFree(store: map<string, string>, docs: seq<Document>)
    decreases |docs|
  {
    docs == [] || (docs[0].id !in store && ConflictFree(CreateInto(store, docs[0]), docs[1..]))
  }

  /** The search engine as the strategies see it. */
  class Engine {
    var live: bool
    var store: map<string, string>
    var log: seq<Call>

    constructor ()
      ensures !live && store == map[] && log == []
    {
      live := false;
      store := map[];
      log := [];
    }

    /** `es_client.create`: a new document is stored; a present identifier is a conflict and changes nothing. */
    method Create(id: string, content: string) returns (ok: bool)
      modifies this
      ensures ok == (id !in old(store))
      ensures store == CreateInto(old(store), Document(id, content))
      ensures log == old(log) + [CreateCall(id, content)] && live == old(live)
    {
      ok := id !in store;
      store := CreateInto(store, Document(id, content));
      log := log + [CreateCall(id, content)];
    }

    /** `es_client.bulk`: every create of the body is applied; conflicts are reported per item, not raised. */
    method Bulk(ops: seq<BulkOp>)
      modifies this
      ensures store == ApplyOps(old(store), ops)
      ensures log == old(log) + [BulkCall(ops)] && live == old(live)
    {
      store := ApplyOps(store, ops);
      log := log + [BulkCall(ops)];
    }

    /** `es_client.indices.exists`. */
    method IndexExists() returns (b: bool)
      ensures b == live
    {
      b := live;
    }

    /** `es_client.indices.delete`: the index and its documents are gone. */
    method DeleteIndex()
      modifies this
      ensures !live && store == map[] && log == old(log) + [DeleteIndexCall]
    {
      live := false;
      store := map[];
      log := log + [DeleteIndexCall];
    }

    /** `es_client.indices.create`: an empty index with the given settings. */
    method CreateIndex(settings: string)
      modifies this
      ensures live && store == map[] && log == old(log) + [CreateIndexCall(settings)]
    {
      live := true;
      store := map[];
      log := log + [CreateIndexCall(settings)];
    }
  }

  /** `create_index`: delete the index if it exists, then create it anew. */
  method CreateIndex(engine: Engine, settings: string)
    modifies engine
    ensures engine.live && engine.store == map[]
    ensures engine.log == old(engine.log) + (if old(engine.live) then [DeleteIndexCall] else []) + [CreateIndexCall(settings)]
  {
    var present := engine.IndexExists();
    if present {
      engine.DeleteIndex();
    }
    engine.CreateIndex(settings);
  }

  /**
   * `index_parsed_data`: one create call per document, in order. A conflict
   * raises in the client, which ends the loop; the error carries the
   * identifier of the document that met it.
   */
  method IndexParsedData(engine: Engine, docs: seq<Document>) returns (r: Result<(), string>)
    modifies engine
    ensures r.Ok? <==> ConflictFree(old(engine.store), docs)
    ensures r.Ok? ==> engine.store == LoadDocs(old(engine.store), docs)
                      && engine.log == old(engine.log) + CreateCalls(docs)
    ensures r.Err? ==> exists k :: 0 <= k < |docs| && r.error == docs[k].id
                                   && ConflictFree(old(engine.store), docs[..k])
                                   && docs[k].id in LoadDocs(old(engine.store), docs[..k])
                                   && engine.store == LoadDocs(old(engine.store), docs[..k])
                                   && engine.log == old(engine.log) + CreateCalls(docs[..k + 1])
    ensures engine.live == old(engine.live)
  {
    ghost var store0 := engine.store;
    ghost var log0 := engine.log;
    var n := 0;
    while n < |docs|
      invariant 0 <= n <= |docs|
      invariant ConflictFree(store0, docs[..n])
      invariant engine.store == LoadDocs(store0, docs[..n])
      invariant engine.log == log0 + CreateCalls(docs[..n])
      invariant engine.live == old(engine.live)
    {
      CreateStep(store0, docs, n);
      var ok := engine.Create(docs[n].id, docs[n].content);
      if !ok {
        ConflictFreeExtends(store0, docs, n);
        return Err(docs[n].id);
      }
      n := n + 1;
    }
    assert docs[..n] == docs;
    r := Ok(());
  }

  /**
   * `bulk_index_parsed_data`: a create action and a source per document go
   * into the buffer; when the counter reaches `bulkMaxOpsCnt` the buffer is
   * sent and cleared; whatever is left is sent at the end, even when empty.
   */
  method BulkIndexParsedData(engine: Engine, docs: seq<Document>, bulkMaxOpsCnt: int)
    modifies engine
    ensures engine.log == old(engine.log) + BulkCalls(Batches(docs, bulkMaxOpsCnt))
    ensures engine.store == LoadDocs(old(engine.store), docs)
    ensures engine.live == old(engine.live)
  {
    ghost var store0 := engine.store;
    ghost var target := engine.log + BulkCalls(Batches(docs, bulkMaxOpsCnt));
    var cntOps: nat := 0;
    var opts: seq<BulkOp> := [];
    ghost var sent: nat := 0;
    assert docs[0..] == docs;
    for n := 0 to |docs|
      invariant sent <= n && cntOps == n - sent
      invariant opts == OpsOf(docs[sent..n])
      invariant bulkMaxOpsCnt >= 1 ==> cntOps < bulkMaxOpsCnt
      invariant target == engine.log + BulkCalls(Batches(docs[sent..], bulkMaxOpsCnt))
      invariant engine.store == LoadDocs(store0, docs[..sent])
      invariant engine.live == old(engine.live)
    {
      opts, cntOps, sent := AddToBuffer(engine, store0, target, docs, sent, n, bulkMaxOpsCnt, opts, cntOps);
    }
    SendLast(engine, store0, target, docs, sent, bulkMaxOpsCnt, opts);
  }

  /**
   * One turn of the loop of `bulk_index_parsed_data`: the document at `n`
   * goes into the buffer, which is sent and cleared once it holds
   * `bulkMaxOpsCnt` documents. The buffer holds the documents from
   * `sent` on, and everything before them has been sent.
   */
  method AddToBuffer(engine: Engine, ghost store0: map<string, string>, ghost target: seq<Call>,
                     docs: seq<Document>, ghost sent: nat, n: nat, bulkMaxOpsCnt: int, opts: seq<BulkOp>, cntOps: nat)
    returns (opts': seq<BulkOp>, cntOps': nat, ghost sent': nat)
    requires n < |docs| && sent <= n && cntOps == n - sent
    requires opts == OpsOf(docs[sent..n])
    requires bulkMaxOpsCnt >= 1 ==> cntOps < bulkMaxOpsCnt
    requires target == engine.log + BulkCalls(Batches(docs[sent..], bulkMaxOpsCnt))
    requires engine.store == LoadDocs(store0, docs[..sent])
    modifies engine
    ensures sent' <= n + 1 && cntOps' == n + 1 - sent'
    ensures opts' == OpsOf(docs[sent'..n + 1])
    ensures bulkMaxOpsCnt >= 1 ==> cntOps' < bulkMaxOpsCnt
    ensures target == engine.log + BulkCalls(Batches(docs[sent'..], bulkMaxOpsCnt))
    ensures engine.store == LoadDocs(store0, docs[..sent'])
    ensures engine.live == old(engine.live)
  {
    OpsOfExtend(docs, sent, n);
    opts' := opts + [CreateAction(docs[n].id), Source(docs[n].content)];
    cntOps' := cntOps + 1;
    sent' := sent;
    if cntOps' == bulkMaxOpsCnt {
      SendBatch(engine, store0, target, docs, sent, n + 1, bulkMaxOpsCnt, opts');
      opts' := [];
      cntOps' := 0;
      sent' := n + 1;
      assert docs[n + 1..n + 1] == [];
    }
  }

  /** Sending the full buffer `docs[sent..n]`: one batch moves from the pending requests to the log and the store. */
  method SendBatch(engine: Engine, ghost store0: map<string, string>, ghost target: seq<Call>,
                   docs: seq<Document>, ghost sent: nat, n: nat, bulkMaxOpsCnt: int, opts: seq<BulkOp>)
    requires bulkMaxOpsCnt >= 1 && sent + bulkMaxOpsCnt == n <= |docs|
    requires opts == OpsOf(docs[sent..n])
    requires target == engine.log + BulkCalls(Batches(docs[sent..], bulkMaxOpsCnt))
    requires engine.store == LoadDocs(store0, docs[..sent])
    modifies engine
    ensures target == engine.log + BulkCalls(Batches(docs[n..], bulkMaxOpsCnt))
    ensures engine.store == LoadDocs(store0, docs[..n])
    ensures engine.live == old(engine.live)
  {
    FlushLog(target, engine.log, docs, sent, bulkMaxOpsCnt, opts);
    FlushStore(store0, docs, sent, n);
    engine.Bulk(opts);
  }

  /** Sending what is left in the buffer after the loop: the last batch, possibly empty. */
  method SendLast(engine: Engine, ghost store0: map<string, string>, ghost target: seq<Call>,
                  docs: seq<Document>, ghost sent: nat, bulkMaxOpsCnt: int, opts: seq<BulkOp>)
    requires sent <= |docs| && (bulkMaxOpsCnt >= 1 ==> |docs| - sent < bulkMaxOpsCnt)
    requires opts == OpsOf(docs[sent..|docs|])
    requires target == engine.log + BulkCalls(Batches(docs[sent..], bulkMaxOpsCnt))
    requires engine.store == LoadDocs(store0, docs[..sent])
    modifies engine
    ensures engine.log == target
    ensures engine.store == LoadDocs(store0, docs)
    ensures engine.live == old(engine.live)
  {
    FinalLog(target, engine.log, docs, sent, bulkMaxOpsCnt);
    FlushStore(store0, docs, sent, |docs|);
    assert docs[..|docs|] == docs;
    engine.Bulk(opts);
  }

  /** Sending a full buffer moves one batch from the pending requests to the log. */
  lemma FlushLog(target: seq<Call>, log: seq<Call>, docs: seq<Document>, sent: nat, bulkMaxOpsCnt: int,
                  ops: seq<BulkOp>)
    requires bulkMaxOpsCnt >= 1 && sent + bulkMaxOpsCnt <= |docs|
    requires ops == OpsOf(docs[sent..sent + bulkMaxOpsCnt])
    requires target == log + BulkCalls(Batches(docs[sent..], bulkMaxOpsCnt))
    ensures target == (log + [BulkCall(ops)]) + BulkCalls(Batches(docs[sent + bulkMaxOpsCnt..], bulkMaxOpsCnt))
  {
    var rest := docs[sent..];
    BatchesFirst(rest, bulkMaxOpsCnt);
    assert rest[..bulkMaxOpsCnt] == docs[sent..sent + bulkMaxOpsCnt];
    assert rest[bulkMaxOpsCnt..] == docs[sent + bulkMaxOpsCnt..];
  }

  /** The buffer left after the loop is the last batch. */
  lemma FinalLog(target: seq<Call>, log: seq<Call>, docs: seq<Document>, sent: nat, bulkMaxOpsCnt: int)
    requires sent <= |docs| && (bulkMaxOpsCnt >= 1 ==> |docs| - sent < bulkMaxOpsCnt)
    requires target == log + BulkCalls(Batches(docs[sent..], bulkMaxOpsCnt))
    ensures target == log + [BulkCall(OpsOf(docs[sent..|docs|]))]
  {
    assert docs[sent..] == docs[sent..|docs|];
    assert Batches(docs[sent..], bulkMaxOpsCnt) == [docs[sent..]];
  }

  /** Sending the buffer for `docs[sent..n]` leaves the store loaded with `docs[..n]`. */
  lemma FlushStore(store0: map<string, string>, docs: seq<Document>, sent: nat, n: nat)
    requires sent <= n <= |docs|
    ensures ApplyOps(LoadDocs(store0, docs[..sent]), OpsOf(docs[sent..n])) == LoadDocs(store0, docs[..n])
  {
    ApplyOpsOf(LoadDocs(store0, docs[..sent]), docs[sent..n]);
    LoadDocsAppend(store0, docs[..sent], docs[sent..n]);
    assert docs[..sent] + docs[sent..n] == docs[..n];
  }

  // ------------------------------------------------------------------ lemmas

  /** Creating the document at `n` after those before it, as the one-by-one strategy does. */
  lemma CreateStep(store0: map<string, string>, docs: seq<Document>, n: nat)
    requires n < |docs|
    ensures LoadDocs(store0, docs[..n + 1]) == CreateInto(LoadDocs(store0, docs[..n]), docs[n])
    ensures ConflictFree(store0, docs[..n + 1]) <==> ConflictFree(store0, docs[..n]) && docs[n].id !in LoadDocs(store0, docs[..n])
    ensures CreateCalls(docs[..n + 1]) == CreateCalls(docs[..n]) + [CreateCall(docs[n].id, docs[n].content)]
  {
    LoadDocsSnoc(store0, docs[..n], docs[n]);
    ConflictFreeSnoc(store0, docs[..n], docs[n]);
    assert docs[..n + 1] == docs[..n] + [docs[n]];
  }

  lemma OpsOfExtend(docs: seq<Document>, sent: nat, n: nat)
    requires sent <= n < |docs|
    ensures OpsOf(docs[sent..n + 1]) == OpsOf(docs[sent..n]) + [CreateAction(docs[n].id), Source(docs[n].content)]
  {
    OpsOfSnoc(docs[sent..n], docs[n]);
    assert docs[sent..n + 1] == docs[sent..n] + [docs[n]];
  }

  lemma {:induction false} OpsOfSnoc(docs: seq<Document>, d: Document)
    ensures OpsOf(docs + [d]) == OpsOf(docs) + [CreateAction(d.id), Source(d.content)]
    decreases |docs|
  {
    if docs != [] {
      assert (docs + [d])[1..] == docs[1..] + [d];
      OpsOfSnoc(docs[1..], d);
    } else {
      assert OpsOf([d]) == [CreateAction(d.id), Source(d.content)] + OpsOf([]);
    }
  }

  /** The engine applies a body built by the bulk strategy as the creates of its documents, in order. */
  lemma {:induction false} ApplyOpsOf(store: map<string, string>, docs: seq<Document>)
    ensures ApplyOps(store, OpsOf(docs)) == LoadDocs(store, docs)
    decreases |docs|
  {
    if docs != [] {
      var ops := OpsOf(docs);
      assert ops[2..] == OpsOf(docs[1..]);
      ApplyOpsOf(CreateInto(store, docs[0]), docs[1..]);
    }
  }

  lemma {:induction false} LoadDocsAppend(store: map<string, string>, a: seq<Document>, b: seq<Document>)
    ensures LoadDocs(store, a + b) == LoadDocs(LoadDocs(store, a), b)
    decreases |a|
  {
    if a != [] {
      assert (a + b)[1..] == a[1..] + b;
      LoadDocsAppend(CreateInto(store, a[0]), a[1..], b);
    } else {
      assert a + b == b;
    }
  }

  lemma LoadDocsSnoc(store: map<string, string>, docs: seq<Document>, d: Document)
    ensures LoadDocs(store, docs + [d]) == CreateInto(LoadDocs(store, docs), d)
  {
    LoadDocsAppend(store, docs, [d]);
  }

  lemma {:induction false} ConflictFreeAppend(store: map<string, string>, a: seq<Document>, b: seq<Document>)
    ensures ConflictFree(store, a + b) <==> ConflictFree(store, a) && ConflictFree(LoadDocs(store, a), b)
    decreases |a|
  {
    if a != [] {
      assert (a + b)[1..] == a[1..] + b;
      ConflictFreeAppend(CreateInto(store, a[0]), a[1..], b);
    } else {
      assert a + b == b;
    }
  }

  lemma ConflictFreeSnoc(store: map<string, string>, docs: seq<Document>, d: Document)
    ensures ConflictFree(store, docs + [d]) <==> ConflictFree(store, docs) && d.id !in LoadDocs(store, docs)
  {
    ConflictFreeAppend(store, docs, [d]);
  }

  /** A conflict at `n` after a conflict-free prefix makes the whole run conflicting. */
  lemma ConflictFreeExtends(store: map<string, string>, docs: seq<Document>, n: nat)
    requires n < |docs| && docs[n].id in LoadDocs(store, docs[..n])
    ensures !ConflictFree(store, docs)
  {
    ConflictFreeAppend(store, docs[..n + 1], docs[n + 1..]);
    ConflictFreeSnoc(store, docs[..n], docs[n]);
    assert docs[..n + 1] + docs[n + 1..] == docs;
    assert docs[..n + 1] == docs[..n] + [docs[n]];
  }

  lemma BatchesFirst(docs: seq<Document>, bulkMaxOpsCnt: int)
    requires bulkMaxOpsCnt >= 1 && |docs| >= bulkMaxOpsCnt
    ensures BulkCalls(Batches(docs, bulkMaxOpsCnt))
            == [BulkCall(OpsOf(docs[..bulkMaxOpsCnt]))] + BulkCalls(Batches(docs[bulkMaxOpsCnt..], bulkMaxOpsCnt))
  {
  }

  lemma MulZero(x: int, b: int)
    requires b >= 1 && -b < x * b < b
    ensures x == 0
  {
  }

  lemma DivUnique(n: int, b: int, q: int, r: int)
    requires b >= 1 && 0 <= r < b && n == q * b + r
    ensures n / b == q && n % b == r
  {
    assert (n / b - q) * b == r - n % b;
    MulZero(n / b - q, b);
  }

  lemma DivStep(n: int, b: int)
    requires n >= b >= 1
    ensures n / b == (n - b) / b + 1 && n % b == (n - b) % b
  {
    var q, r := (n - b) / b, (n - b) % b;
    assert n == (q + 1) * b + r;
    DivUnique(n, b, q + 1, r);
  }

  lemma DivSmall(n: int, b: int)
    requires 0 <= n < b
    ensures n / b == 0 && n % b == n
  {
  }

  /** For a batch size of at least one, the bulk strategy makes `n / B + 1` requests. */
  lemma {:induction false} BatchCount(docs: seq<Document>, bulkMaxOpsCnt: int)
    requires bulkMaxOpsCnt >= 1
    ensures |Batches(docs, bulkMaxOpsCnt)| == |docs| / bulkMaxOpsCnt + 1
    decreases |docs|
  {
    if |docs| >= bulkMaxOpsCnt {
      BatchCount(docs[bulkMaxOpsCnt..], bulkMaxOpsCnt);
      DivStep(|docs|, bulkMaxOpsCnt);
    } else {
      DivSmall(|docs|, bulkMaxOpsCnt);
    }
  }

  /** Every request but the last holds exactly `B` documents; the last holds the remaining `n % B`. */
  lemma {:induction false} BatchSizes(docs: seq<Document>, bulkMaxOpsCnt: int)
    requires bulkMaxOpsCnt >= 1
    ensures var bs := Batches(docs, bulkMaxOpsCnt);
      (forall k :: 0 <= k < |bs| - 1 ==> |bs[k]| == bulkMaxOpsCnt)
      && |bs[|bs| - 1]| == |docs| % bulkMaxOpsCnt
    decreases |docs|
  {
    if |docs| >= bulkMaxOpsCnt {
      var rest := docs[bulkMaxOpsCnt..];
      BatchSizes(rest, bulkMaxOpsCnt);
      var bs := Batches(docs, bulkMaxOpsCnt);
      assert bs[1..] == Batches(rest, bulkMaxOpsCnt);
      DivStep(|docs|, bulkMaxOpsCnt);
    } else {
      DivSmall(|docs|, bulkMaxOpsCnt);
    }
  }

  /** The requests together list the documents once each, in iteration order. */
  lemma {:induction false} BatchesFlatten(docs: seq<Document>, bulkMaxOpsCnt: int)
    ensures Flatten(Batches(docs, bulkMaxOpsCnt)) == docs
    decreases |docs|
  {
    var bs := Batches(docs, bulkMaxOpsCnt);
    if bulkMaxOpsCnt >= 1 && |docs| >= bulkMaxOpsCnt {
      BatchesFlatten(docs[bulkMaxOpsCnt..], bulkMaxOpsCnt);
      assert bs[1..] == Batches(docs[bulkMaxOpsCnt..], bulkMaxOpsCnt);
      assert docs == docs[..bulkMaxOpsCnt] + docs[bulkMaxOpsCnt..];
    } else {
      assert bs[1..] == [];
      assert docs + [] == docs;
    }
  }

  /** From an empty index, the one-by-one strategy meets a conflict exactly when two documents share an identifier. */
  lemma {:induction false} ConflictFreeFromEmpty(store: map<string, string>, docs: seq<Document>)
    requires forall d :: d in docs ==> d.id !in store
    ensures ConflictFree(store, docs) <==> NoDupIds(docs)
    decreases |docs|
  {
    if docs != [] {
      var rest := docs[1..];
      var st := CreateInto(store, docs[0]);
      if docs[0].id in IdsOf(rest) {
        var d :| d in rest && d.id == docs[0].id;
        var b :| 0 <= b < |rest| && rest[b] == d;
        assert docs[b + 1] == d;
        ConflictStays(st, rest, b);
      } else {
        forall d | d in rest ensures d.id !in st {
          assert d in docs;
          assert d.id != docs[0].id;
        }
        ConflictFreeFromEmpty(st, rest);
        assert NoDupIds(docs) <==> NoDupIds(rest) by {
          forall b | 0 < b < |docs| ensures docs[b].id != docs[0].id {
            assert docs[b] == rest[b - 1];
            assert docs[b] in rest;
          }
          forall a, b | 0 <= a < b < |rest| ensures (docs[a + 1].id != docs[b + 1].id) == (rest[a].id != rest[b].id) {
          }
        }
      }
    }
  }

  /** An identifier already in the store makes the document at `b` conflict. */
  lemma {:induction false} ConflictStays(store: map<string, string>, docs: seq<Document>, b: nat)
    requires b < |docs| && docs[b].id in store
    ensures !ConflictFree(store, docs)
    decreases b
  {
    if b > 0 && docs[0].id !in store {
      ConflictStays(CreateInto(store, docs[0]), docs[1..], b - 1);
    }
  }

  /** Creating duplicate-free documents into a store without their identifiers adds exactly their entries. */
  lemma {:induction false} LoadDocsFresh(store: map<string, string>, docs: seq<Document>)
    requires NoDupIds(docs) && forall d :: d in docs ==> d.id !in store
    ensures LoadDocs(store, docs) == store + AsMap(docs)
    decreases |docs|
  {
    if docs != [] {
      var rest := docs[1..];
      var st := CreateInto(store, docs[0]);
      FreshRest(store, docs);
      LoadDocsFresh(st, rest);
      AsMapKeys(rest);
      MergeUpdate(store, AsMap(rest), docs[0].id, docs[0].content);
    }
  }

  /** After the first document is created, the others are still duplicate-free and absent, and none shares its identifier. */
  lemma FreshRest(store: map<string, string>, docs: seq<Document>)
    requires docs != [] && NoDupIds(docs) && forall d :: d in docs ==> d.id !in store
    ensures NoDupIds(docs[1..]) && forall d :: d in docs[1..] ==> d.id !in CreateInto(store, docs[0])
    ensures docs[0].id !in IdsOf(docs[1..])
  {
    var rest := docs[1..];
    var st := CreateInto(store, docs[0]);
    forall d | d in rest ensures d.id !in st {
      var b :| 0 <= b < |rest| && rest[b] == d;
      assert docs[b + 1] == d;
    }
    forall a, b | 0 <= a < b < |rest| ensures rest[a].id != rest[b].id {
      assert rest[a] == docs[a + 1] && rest[b] == docs[b + 1];
    }
    forall b | 0 <= b < |rest| ensures rest[b].id != docs[0].id {
      assert rest[b] == docs[b + 1];
    }
  }

  lemma MergeUpdate(m: map<string, string>, r: map<string, string>, k: string, v: string)
    requires k !in r
    ensures m[k := v] + r == m + r[k := v]
  {
  }

  lemma {:induction false} AsMapKeys(docs: seq<Document>)
    ensures AsMap(docs).Keys == IdsOf(docs)
    decreases |docs|
  {
    if docs != [] {
      AsMapKeys(docs[1..]);
      assert docs == [docs[0]] + docs[1..];
      assert IdsOf(docs) == {docs[0].id} + IdsOf(docs[1..]);
    }
  }

  /**
   * Into an empty index, a duplicate-free document map is indexed without
   * conflict by both strategies, and both leave exactly that map in the store.
   */
  lemma StrategiesAgree(docs: seq<Document>)
    requires NoDupIds(docs)
    ensures ConflictFree(map[], docs)
    ensures LoadDocs(map[], docs) == AsMap(docs)
  {
    ConflictFreeFromEmpty(map[], docs);
    LoadDocsFresh(map[], docs);
    assert map[] + AsMap(docs) == AsMap(docs);
  }
}
