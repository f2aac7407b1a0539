/**
  The query orchestrator of src/lib/rag.ts (`RAGChain.query`): check the
  semantic cache, otherwise embed the query, search the collection, build a
  numbered context, generate an answer, cache it and return it.

  The embedding API, the vector search and the language model are oracles;
  the query is a pure function of the keyspace and their answers, and it
  also reports the calls it made to its collaborators, in order.
 */
module Rag {
  import opened Wrappers
  import opened Strings
  import opened SemanticCache
  import CacheKeys

  /** Number of chunks requested from the vector store. */
  const TopK: nat := 4

  /** The fixed answer when the search finds nothing. */
  const NoResultsResponse: string :=
    "I could not find any relevant information in the uploaded documents to answer your question."

  /** Separator between numbered chunks of the context. */
  const ChunkSeparator: string := "\n\n"

  /** `'cache' | 'vectordb'`. */
  datatype Origin = FromCache | FromVectorDb

  /** `ChatResponse` of src/types/index.ts; absent optional fields are `None`. */
  datatype ChatResponse = ChatResponse(response: string, source: Origin, similarity: Option<real>,
                                       sources: Option<seq<string>>)

  /** One search hit: its score and the payload's `text` and `source`. */
  datatype SearchResult = SearchResult(score: real, text: string, source: string)

  /** `qdrantClient.similaritySearch(collectionId, vector, limit)`. */
  type Searcher = (string, Vector, nat) -> Result<seq<SearchResult>, string>

  /** The prompt-and-model chain: the answer for a context and a question. */
  type Generator = (string, string) -> Result<string, string>

  /** A call the orchestrator makes to a collaborator. */
  datatype Call =
    | CacheGet(query: string, collectionId: string)
    | Embed(query: string)
    | Search(collectionId: string, vector: Vector, limit: nat)
    | Generate(context: string, question: string)
    | CacheSet(query: string, response: string, collectionId: string)

  /** Everything outside the orchestrator for one query. */
  datatype World = World(
    cacheRead: ReadIo,
    embedding: Result<Vector, string>,
    search: Searcher,
    generate: Generator,
    cacheWrite: WriteIo,
    score: Scorer)

  /** The answer (or the error that escaped), the keyspace afterwards, and the calls made. */
  datatype Outcome = Outcome(result: Result<ChatResponse, string>, store: Store, calls: seq<Call>)

  /** `similarity` only on cache answers, `sources` only on vector-store answers. */
  predicate WellShaped(r: ChatResponse) {
    && (r.similarity.Some? <==> r.source == FromCache)
    && (r.sources.Some? <==> r.source == FromVectorDb)
  }

  // ----- context construction -----

  /** `[${idx + 1}] ${text}`. */
  function Numbered(idx: nat, text: string): string {
    "[" + Decimal(idx + 1) + "] " + text
  }

  /** The numbered chunk texts in retriever order. */
  function NumberedTexts(results: seq<SearchResult>): (parts: seq<string>)
    ensures |parts| == |results|
  {
    seq(|results|, i requires 0 <= i < |results| => Numbered(i, results[i].text))
  }

  /** The context block handed to the model. */
  function Context(results: seq<SearchResult>): string {
    Join(NumberedTexts(results), ChunkSeparator)
  }

  /** A single hit gives exactly `[1] text`. */
  lemma ContextOfOne(r: SearchResult)
    ensures Context([r]) == "[1] " + r.text
  {
    assert Decimal(1) == "1";
  }

  /** Each further hit appends a separator and the next number. */
  lemma ContextAppend(rs: seq<SearchResult>, r: SearchResult)
    requires |rs| > 0
    ensures Context(rs + [r]) == Context(rs) + ChunkSeparator + Numbered(|rs|, r.text)
  {
    var parts := NumberedTexts(rs + [r]);
    assert parts[..|parts| - 1] == NumberedTexts(rs);
    assert parts[|parts| - 1] == Numbered(|rs|, r.text);
  }

  /** The context starts with the first hit's text numbered 1. */
  lemma {:induction false} ContextStartsWithFirst(rs: seq<SearchResult>)
    requires |rs| > 0
    ensures StartsWith(Context(rs), "[1] " + rs[0].text)
  {
    if |rs| == 1 {
      ContextOfOne(rs[0]);
      assert rs == [rs[0]];
    } else {
      var init := rs[..|rs| - 1];
      ContextStartsWithFirst(init);
      ContextAppend(init, rs[|rs| - 1]);
      assert rs == init + [rs[|rs| - 1]];
      var p := "[1] " + rs[0].text;
      assert Context(init)[..|p|] == p;
    }
  }

  /** The `map(...).join('\n\n')` of the source, one chunk at a time. */
  method BuildContext(results: seq<SearchResult>) returns (context: string)
    ensures context == Context(results)
  {
    context := "";
    var i := 0;
    while i < |results|
      invariant 0 <= i <= |results|
      invariant context == Context(results[..i])
    {
      assert results[..i + 1] == results[..i] + [results[i]];
      if i == 0 {
        ContextOfOne(results[0]);
        context := Numbered(0, results[0].text);
      } else {
        ContextAppend(results[..i], results[i]);
        context := context + ChunkSeparator + Numbered(i, results[i].text);
      }
      i := i + 1;
    }
    assert results[..i] == results;
  }

  // ----- source labels -----

  /** `searchResults.map((result) => result.payload.source)`. */
  function SourceLabels(results: seq<SearchResult>): (labels: seq<string>)
    ensures |labels| == |results|
    ensures forall i :: 0 <= i < |results| ==> labels[i] == results[i].source
  {
    seq(|results|, i requires 0 <= i < |results| => results[i].source)
  }

  predicate NoDuplicates<T(==)>(xs: seq<T>) {
    forall i, j :: 0 <= i < j < |xs| ==> xs[i] != xs[j]
  }

  /** Position of the first occurrence of `x` in `xs`. */
  function FirstIndex<T(==)>(xs: seq<T>, x: T): (i: nat)
    requires x in xs
    ensures i < |xs| && xs[i] == x && x !in xs[..i]
  {
    if xs[0] == x then 0 else 1 + FirstIndex(xs[1..], x)
  }

  /** An element's first occurrence does not move when more elements are appended. */
  lemma FirstIndexAppend<T>(xs: seq<T>, y: T, x: T)
    requires x in xs
    ensures FirstIndex(xs + [y], x) == FirstIndex(xs, x)
  {
    var i := FirstIndex(xs, x);
    var ys := xs + [y];
    assert ys[i] == x && ys[..i] == xs[..i];
  }

  /** `[...new Set(labels)]`: each label once, in the order of its first occurrence. */
  function Dedupe(xs: seq<string>): (r: seq<string>)
    ensures NoDuplicates(r)
    ensures forall x :: x in r <==> x in xs
    ensures forall i, j :: 0 <= i < j < |r| ==> FirstIndex(xs, r[i]) < FirstIndex(xs, r[j])
  {
    if |xs| == 0 then []
    else
      var init, last := xs[..|xs| - 1], xs[|xs| - 1];
      var prev := Dedupe(init);
      assert xs == init + [last];
      FirstIndexesKept(init, last, prev);
      if last in prev then prev
      else
        assert FirstIndex(xs, last) == |xs| - 1;
        prev + [last]
  }

  /** Helper of `Dedupe`: elements of the prefix keep their first positions. */
  lemma FirstIndexesKept(init: seq<string>, last: string, prev: seq<string>)
    requires forall x :: x in prev ==> x in init
    ensures forall x :: x in prev ==> FirstIndex(init + [last], x) == FirstIndex(init, x) < |init|
  {
    forall x | x in prev
      ensures FirstIndex(init + [last], x) == FirstIndex(init, x) < |init|
    {
      FirstIndexAppend(init, last, x);
    }
  }

  /** The source's `new Set(...)` walk: keep a label when it has not been seen yet. */
  method DedupeWithSet(labels: seq<string>) returns (unique: seq<string>)
    ensures unique == Dedupe(labels)
  {
    unique := [];
    var seen: set<string> := {};
    var i := 0;
    while i < |labels|
      invariant 0 <= i <= |labels|
      invariant unique == Dedupe(labels[..i])
      invariant seen == set x | x in unique
    {
      assert labels[..i + 1][..i] == labels[..i];
      if labels[i] !in seen {
        seen := seen + {labels[i]};
        unique := unique + [labels[i]];
      }
      i := i + 1;
    }
    assert labels[..i] == labels;
  }

  // ----- the query -----

  /** `RAGChain.query`: cache check, then retrieval, synthesis and cache write-back. */
  function Query(store: Store, query: string, collectionId: string, w: World, threshold: real): (o: Outcome)
    ensures o.result.Success? ==> WellShaped(o.result.value)
    ensures |o.calls| >= 1 && o.calls[0] == CacheGet(query, collectionId)
  {
    var checked := [CacheGet(query, collectionId)];
    match Get(store, w.cacheRead, collectionId, w.score, threshold)
    case Failure(e) => Outcome(Failure(e), store, checked)
    case Success(cached) =>
      if cached.Some? && cached.value.similarity >= threshold then
        Outcome(Success(ChatResponse(cached.value.response, FromCache, Some(cached.value.similarity), None)),
                store, checked)
      else
        var o := Retrieve(store, query, collectionId, w);
        Outcome(o.result, o.store, checked + o.calls)
  }

  /** The cache-miss path of `query`: embed, search, and either give the fixed answer
      for no results or generate, cache and return the answer. */
  function Retrieve(store: Store, query: string, collectionId: string, w: World): (o: Outcome)
    ensures o.result.Success? ==> o.result.value.source == FromVectorDb && WellShaped(o.result.value)
    ensures |o.calls| >= 1 && o.calls[0] == Embed(query)
    ensures w.embedding.Success? ==> |o.calls| >= 2 && o.calls[1] == Search(collectionId, w.embedding.value, TopK)
  {
    var embedded := [Embed(query)];
    match w.embedding
    case Failure(e) => Outcome(Failure(e), store, embedded)
    case Success(vector) =>
      var searched := embedded + [Search(collectionId, vector, TopK)];
      match w.search(collectionId, vector, TopK)
      case Failure(e) => Outcome(Failure(e), store, searched)
      case Success(results) =>
        if |results| == 0 then
          Outcome(Success(ChatResponse(NoResultsResponse, FromVectorDb, None, Some([]))), store, searched)
        else
          var context := Context(results);
          var generated := searched + [Generate(context, query)];
          match w.generate(context, query)
          case Failure(e) => Outcome(Failure(e), store, generated)
          case Success(response) =>
            var written := generated + [CacheSet(query, response, collectionId)];
            match Set(store, w.cacheWrite, query, response, collectionId, DefaultTtl)
            case Failure(e) => Outcome(Failure(e), store, written)
            case Success(after) =>
              Outcome(Success(ChatResponse(response, FromVectorDb, None, Some(Dedupe(SourceLabels(results))))),
                      after, written)
  }

  /** A cache match is answered from the cache alone: nothing is embedded, searched,
      generated or written. */
  lemma CacheHitShortCircuits(store: Store, query: string, collectionId: string, w: World, threshold: real,
                              m: CacheResult)
    requires Get(store, w.cacheRead, collectionId, w.score, threshold) == Success(Some(m))
    ensures Query(store, query, collectionId, w, threshold)
            == Outcome(Success(ChatResponse(m.response, FromCache, Some(m.similarity), None)),
                       store, [CacheGet(query, collectionId)])
  {
  }

  /** A failed Redis connection during the cache check fails the whole query. */
  lemma CacheConnectFailureFailsQuery(store: Store, query: string, collectionId: string, w: World, threshold: real)
    requires w.cacheRead.link.Unreachable?
    ensures var o := Query(store, query, collectionId, w, threshold);
            o.result == Failure(w.cacheRead.link.reason) && o.store == store && |o.calls| == 1
  {
  }

  /** On a miss the query's vector is searched in the same collection for exactly four chunks. */
  lemma MissSearchesSameCollection(store: Store, query: string, collectionId: string, w: World, threshold: real,
                                   vector: Vector)
    requires Get(store, w.cacheRead, collectionId, w.score, threshold) == Success(None)
    requires w.embedding == Success(vector)
    ensures var o := Query(store, query, collectionId, w, threshold);
            |o.calls| >= 3 && o.calls[..3]
              == [CacheGet(query, collectionId), Embed(query), Search(collectionId, vector, 4)]
  {
  }

  /** An empty search answers with the fixed text and an empty source list, without
      calling the model and without touching the cache. */
  lemma EmptyResultsAreNotCached(store: Store, query: string, collectionId: string, w: World, threshold: real,
                                 vector: Vector)
    requires Get(store, w.cacheRead, collectionId, w.score, threshold) == Success(None)
    requires w.embedding == Success(vector)
    requires w.search(collectionId, vector, TopK) == Success([])
    ensures var o := Query(store, query, collectionId, w, threshold);
            && o.result == Success(ChatResponse(NoResultsResponse, FromVectorDb, None, Some([])))
            && o.store == store
            && forall i :: 0 <= i < |o.calls| ==> !o.calls[i].Generate? && !o.calls[i].CacheSet?
  {
  }

  /** On the answering path the model sees the numbered context, its output is the answer,
      the cache receives exactly one write, after generation, of exactly that answer,
      and the sources are the deduplicated labels. */
  lemma AnswerIsGeneratedThenCached(store: Store, query: string, collectionId: string, w: World, threshold: real,
                                    vector: Vector, results: seq<SearchResult>, response: string)
    requires Get(store, w.cacheRead, collectionId, w.score, threshold) == Success(None)
    requires w.embedding == Success(vector)
    requires w.search(collectionId, vector, TopK) == Success(results) && |results| > 0
    requires w.generate(Context(results), query) == Success(response)
    requires w.cacheWrite.link.Connected?
    ensures var o := Query(store, query, collectionId, w, threshold);
            && o.result == Success(ChatResponse(response, FromVectorDb, None, Some(Dedupe(SourceLabels(results)))))
            && o.store == Set(store, w.cacheWrite, query, response, collectionId, DefaultTtl).value
            && |o.calls| == 5
            && o.calls[3] == Generate(Context(results), query)
            && o.calls[4] == CacheSet(query, response, collectionId)
            && forall i :: 0 <= i < 4 ==> !o.calls[i].CacheSet?
  {
  }

  /** Only the derived key of this query in this collection can change in the keyspace. */
  lemma QueryWritesOnlyItsKey(store: Store, query: string, collectionId: string, w: World, threshold: real)
    ensures var o := Query(store, query, collectionId, w, threshold);
            forall k :: k != CacheKeys.CacheKey(collectionId, query) ==>
              (k in o.store <==> k in store) && (k in store ==> o.store[k] == store[k])
  {
  }

  /** Asking the same question again after a freshly cached answer is answered from the cache
      without a search, provided the question's embedding is stable and scores at least the
      threshold against itself (cosine similarity 1 for a non-zero vector). */
  lemma SecondAskHitsCache(store: Store, query: string, collectionId: string, w1: World, w2: World,
                           threshold: real, self: real)
    requires var o := Query(store, query, collectionId, w1, threshold);
             o.result.Success? && o.result.value.source == FromVectorDb && o.result.value.sources != Some([])
    requires Healthy(w1.cacheWrite.link, w1.cacheWrite.embedding) && Healthy(w2.cacheRead.link, w2.cacheRead.embedding)
    requires w2.cacheRead.embedding == w1.cacheWrite.embedding
    requires w2.score(w1.cacheWrite.embedding.value, w1.cacheWrite.embedding.value) == Some(self)
    requires self >= threshold && self > 0.0
    requires ListsNamespace(w2.cacheRead.listing, Query(store, query, collectionId, w1, threshold).store, collectionId)
    ensures var after := Query(store, query, collectionId, w1, threshold).store;
            var o := Query(after, query, collectionId, w2, threshold);
            && o.result.Success? && o.result.value.source == FromCache
            && o.result.value.similarity.Some? && o.result.value.similarity.value >= self
            && o.calls == [CacheGet(query, collectionId)]
  {
    var o1 := Query(store, query, collectionId, w1, threshold);
    var got := Get(store, w1.cacheRead, collectionId, w1.score, threshold);
    var vector := w1.embedding.value;
    var results := w1.search(collectionId, vector, TopK).value;
    var response := w1.generate(Context(results), query).value;
    assert o1.store == Set(store, w1.cacheWrite, query, response, collectionId, DefaultTtl).value;
    SetThenGetHits(store, w1.cacheWrite, query, response, collectionId, DefaultTtl,
                   w2.cacheRead, w2.score, threshold, self);
  }
}
