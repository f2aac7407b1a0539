/**
  The semantic cache of src/lib/cache.ts: a Redis keyspace of JSON-encoded
  entries, one namespace per document collection, searched by embedding
  similarity.

  The keyspace is a `map` from key to entry. What the outside world does
  during one call (whether Redis is reachable, whether its commands succeed,
  the embedding the API returned, the order in which KEYS lists the keyspace,
  the clock) is passed in as a value, and cosine similarity is an arbitrary
  scoring function whose `None` stands for NaN.
 */
module SemanticCache {
  import opened Wrappers
  import opened CacheKeys

  type Vector = seq<real>

  /** Cosine similarity of the query embedding and a cached embedding; `None`
      is the NaN a zero-magnitude vector produces, which compares false with everything. */
  type Scorer = (Vector, Vector) -> Option<real>

  /** `SIMILARITY_THRESHOLD` when the environment does not set it. */
  const DefaultThreshold: real := 0.85

  /** Expiry, in seconds, that `set` passes to SETEX unless told otherwise. */
  const DefaultTtl: int := 3600

  /** The JSON value stored under a key, plus the expiry it was written with. */
  datatype Entry = Entry(query: string, response: string, embedding: Vector, timestamp: int, ttl: int)

  /** The live keys of the Redis keyspace; expired keys are absent. */
  type Store = map<string, Entry>

  /** `CacheResult` of src/types/index.ts. */
  datatype CacheResult = CacheResult(response: string, similarity: real, timestamp: int)

  /** The Redis connection during one cache call: `connect()` either fails, or it
      succeeds and the commands sent inside the `try` block all succeed or one fails. */
  datatype Link = Unreachable(reason: string) | Connected(commandsSucceed: bool)

  /** The world as `get` sees it: the link, the embedding API's answer for the
      query, and the order in which the server enumerates its keyspace. */
  datatype ReadIo = ReadIo(link: Link, embedding: Result<Vector, string>, listing: seq<string>)

  /** The world as `set` sees it: the link, the embedding API's answer, and `Date.now()`. */
  datatype WriteIo = WriteIo(link: Link, embedding: Result<Vector, string>, now: int)

  /** Everything that went right for the body of the `try` block to complete. */
  predicate Healthy(link: Link, embedding: Result<Vector, string>) {
    link.Connected? && link.commandsSucceed && embedding.Success?
  }

  // ----- KEYS `cache:{collectionId}:*` -----

  /** The keys of `listing` that the pattern `cache:{collectionId}:*` matches, in listing order. */
  function KeysMatching(listing: seq<string>, collectionId: string): (keys: seq<string>)
    ensures forall k :: k in keys <==> k in listing && InNamespace(k, collectionId)
  {
    if |listing| == 0 then []
    else
      var last := listing[|listing| - 1];
      KeysMatching(listing[..|listing| - 1], collectionId)
        + (if InNamespace(last, collectionId) then [last] else [])
  }

  /** The listing names every live key of the collection's namespace. */
  ghost predicate ListsNamespace(listing: seq<string>, store: Store, collectionId: string) {
    forall k :: k in store && InNamespace(k, collectionId) ==> k in listing
  }

  // ----- the scan loop of `get` -----

  /** One scanned entry and its similarity to the query. */
  datatype Candidate = Candidate(entry: Entry, score: Option<real>)

  /** The entries behind `keys` in scan order, skipping keys whose GET finds nothing. */
  function Candidates(store: Store, keys: seq<string>, query: Vector, score: Scorer): (cs: seq<Candidate>)
    ensures |cs| <= |keys|
  {
    if |keys| == 0 then []
    else
      var last := keys[|keys| - 1];
      Candidates(store, keys[..|keys| - 1], query, score)
        + (if last in store then [Candidate(store[last], score(query, store[last].embedding))] else [])
  }

  /** The admission test of the loop: a number, strictly above the best so far, and at least the threshold. */
  predicate Admits(score: Option<real>, highest: real, threshold: real) {
    score.Some? && score.value > highest && score.value >= threshold
  }

  /** The running maximum: the best match's similarity, 0 before any. */
  function Highest(best: Option<CacheResult>): real {
    if best.Some? then best.value.similarity else 0.0
  }

  function Hit(c: Candidate): CacheResult
    requires c.score.Some?
  {
    CacheResult(c.entry.response, c.score.value, c.entry.timestamp)
  }

  /** The state of `bestMatch` after the loop has visited every candidate of `cs`. */
  function SelectBest(cs: seq<Candidate>, threshold: real): (best: Option<CacheResult>)
    ensures best.Some? ==> best.value.similarity >= threshold && best.value.similarity > 0.0
    ensures best.Some? ==> exists c :: c in cs && c.score.Some? && best.value == Hit(c)
  {
    if |cs| == 0 then None
    else
      var prev := SelectBest(cs[..|cs| - 1], threshold);
      var last := cs[|cs| - 1];
      if Admits(last.score, Highest(prev), threshold) then Some(Hit(last)) else prev
  }

  /** A candidate that some run of the loop could keep: a number, at least the
      threshold, and above the initial running maximum 0. */
  predicate Qualifies(c: Candidate, threshold: real) {
    c.score.Some? && c.score.value >= threshold && c.score.value > 0.0
  }

  /** `cs[i]` is the first candidate with the largest qualifying similarity. */
  ghost predicate IsFirstBest(cs: seq<Candidate>, threshold: real, i: int) {
    && 0 <= i < |cs|
    && Qualifies(cs[i], threshold)
    && (forall j :: 0 <= j < |cs| && Qualifies(cs[j], threshold) ==> cs[j].score.value <= cs[i].score.value)
    && (forall j :: 0 <= j < i && Qualifies(cs[j], threshold) ==> cs[j].score.value < cs[i].score.value)
  }

  /** `best` is nothing exactly when no candidate of `cs` qualifies, and otherwise
      the hit of the first candidate of maximal similarity. */
  ghost predicate FirstMaximum(cs: seq<Candidate>, threshold: real, best: Option<CacheResult>) {
    && (best.None? <==> forall j :: 0 <= j < |cs| ==> !Qualifies(cs[j], threshold))
    && (best.Some? ==> exists i :: IsFirstBest(cs, threshold, i) && best.value == Hit(cs[i]))
  }

  /** The loop keeps nothing exactly when no candidate qualifies, and otherwise
      keeps the first candidate of maximal similarity. */
  lemma {:induction false} SelectBestIsFirstMaximum(cs: seq<Candidate>, threshold: real)
    ensures FirstMaximum(cs, threshold, SelectBest(cs, threshold))
    decreases |cs|
  {
    if |cs| > 0 {
      var init, last := cs[..|cs| - 1], cs[|cs| - 1];
      SelectBestIsFirstMaximum(init, threshold);
      var prev := SelectBest(init, threshold);
      assert cs == init + [last];
      if Admits(last.score, Highest(prev), threshold) {
        AdmittedIsFirstMaximum(init, last, threshold, prev);
      } else {
        RejectedKeepsFirstMaximum(init, last, threshold, prev);
      }
    }
  }

  /** A candidate the loop admits becomes the first maximum of the longer scan. */
  lemma AdmittedIsFirstMaximum(init: seq<Candidate>, last: Candidate, threshold: real, prev: Option<CacheResult>)
    requires FirstMaximum(init, threshold, prev)
    requires Admits(last.score, Highest(prev), threshold)
    ensures FirstMaximum(init + [last], threshold, Some(Hit(last)))
  {
    var cs, n := init + [last], |init|;
    assert forall j :: 0 <= j < n ==> cs[j] == init[j];
    assert Qualifies(last, threshold);
    if prev.Some? {
      var i :| IsFirstBest(init, threshold, i) && prev.value == Hit(init[i]);
    }
    assert IsFirstBest(cs, threshold, n);
  }

  /** A candidate the loop passes over leaves the first maximum as it was. */
  lemma RejectedKeepsFirstMaximum(init: seq<Candidate>, last: Candidate, threshold: real, prev: Option<CacheResult>)
    requires FirstMaximum(init, threshold, prev)
    requires !Admits(last.score, Highest(prev), threshold)
    ensures FirstMaximum(init + [last], threshold, prev)
  {
    var cs, n := init + [last], |init|;
    assert forall j :: 0 <= j < n ==> cs[j] == init[j];
    if prev.Some? {
      var i :| IsFirstBest(init, threshold, i) && prev.value == Hit(init[i]);
      assert IsFirstBest(cs, threshold, i);
    } else {
      assert !Qualifies(last, threshold);
    }
  }

  /** The `for` loop of `get` over the keys KEYS returned, written as the source writes it. */
  method ScanKeys(store: Store, keys: seq<string>, query: Vector, score: Scorer, threshold: real)
    returns (bestMatch: Option<CacheResult>)
    ensures bestMatch == SelectBest(Candidates(store, keys, query, score), threshold)
  {
    bestMatch := None;
    var highestSimilarity := 0.0;
    var i := 0;
    while i < |keys|
      invariant 0 <= i <= |keys|
      invariant bestMatch == SelectBest(Candidates(store, keys[..i], query, score), threshold)
      invariant highestSimilarity == Highest(bestMatch)
    {
      var key := keys[i];
      ghost var before := Candidates(store, keys[..i], query, score);
      assert keys[..i + 1][..i] == keys[..i];
      i := i + 1;
      if key !in store {
        assert Candidates(store, keys[..i], query, score) == before;
        continue;
      }
      var cached := store[key];
      var similarity := score(query, cached.embedding);
      ghost var after := Candidates(store, keys[..i], query, score);
      assert after == before + [Candidate(cached, similarity)];
      assert after[..|after| - 1] == before;
      if similarity.Some? && similarity.value > highestSimilarity && similarity.value >= threshold {
        highestSimilarity := similarity.value;
        bestMatch := Some(CacheResult(cached.response, similarity.value, cached.timestamp));
      }
    }
    assert keys[..i] == keys;
  }

  // ----- the three operations -----

  /** `SemanticCache.get`: the best cached entry of the collection for the query, if any.
      A failed `connect()` escapes as an error; every failure inside the `try` is a miss. */
  function Get(store: Store, io: ReadIo, collectionId: string, score: Scorer, threshold: real)
    : (r: Result<Option<CacheResult>, string>)
    ensures r.Failure? <==> io.link.Unreachable?
    ensures r.Success? && !Healthy(io.link, io.embedding) ==> r.value.None?
    ensures r.Success? && r.value.Some? ==>
              r.value.value.similarity >= threshold && r.value.value.similarity > 0.0
  {
    match io.link
    case Unreachable(reason) => Failure(reason)
    case Connected(_) =>
      if !Healthy(io.link, io.embedding) then Success(None)
      else
        var keys := KeysMatching(io.listing, collectionId);
        Success(SelectBest(Candidates(store, keys, io.embedding.value, score), threshold))
  }

  /** `SemanticCache.set`: stores the entry under the key derived from the query,
      replacing whatever was there; failures inside the `try` leave the keyspace as it was.
      SETEX refuses an expiry that is not positive, and that error is caught too. */
  function Set(store: Store, io: WriteIo, query: string, response: string, collectionId: string, ttl: int)
    : (r: Result<Store, string>)
    ensures r.Failure? <==> io.link.Unreachable?
    ensures r.Success? && !(Healthy(io.link, io.embedding) && ttl > 0) ==> r.value == store
    ensures r.Success? && Healthy(io.link, io.embedding) && ttl > 0 ==>
              && r.value.Keys == store.Keys + {CacheKey(collectionId, query)}
              && r.value[CacheKey(collectionId, query)]
                 == Entry(query, response, io.embedding.value, io.now, ttl)
              && forall k :: k in store && k != CacheKey(collectionId, query) ==> r.value[k] == store[k]
  {
    match io.link
    case Unreachable(reason) => Failure(reason)
    case Connected(_) =>
      if !Healthy(io.link, io.embedding) || ttl <= 0 then Success(store)
      else
        var entry := Entry(query, response, io.embedding.value, io.now, ttl);
        Success(store[CacheKey(collectionId, query) := entry])
  }

  /** `SemanticCache.clearCollection`: deletes every key of the collection's namespace
      in one DEL (skipped when there are none); a failed command deletes nothing. */
  function ClearCollection(store: Store, link: Link, collectionId: string): (r: Result<Store, string>)
    ensures r.Failure? <==> link.Unreachable?
    ensures r.Success? ==> forall k :: k in r.value ==> k in store && r.value[k] == store[k]
    ensures r.Success? && link.commandsSucceed ==>
              forall k :: k in r.value <==> k in store && !InNamespace(k, collectionId)
    ensures r.Success? && !link.commandsSucceed ==> r.value == store
  {
    match link
    case Unreachable(reason) => Failure(reason)
    case Connected(ok) =>
      if !ok then Success(store)
      else Success(map k | k in store && !InNamespace(k, collectionId) :: store[k])
  }

  // ----- properties of `get` over the whole keyspace -----

  /** The stored entry under `k` scored against the query. */
  function Scored(store: Store, k: string, query: Vector, score: Scorer): Candidate
    requires k in store
  {
    Candidate(store[k], score(query, store[k].embedding))
  }

  /** The scanned candidates are exactly the live entries behind the scanned keys. */
  lemma {:induction false} CandidatesFromStore(store: Store, keys: seq<string>, query: Vector, score: Scorer)
    ensures forall c :: c in Candidates(store, keys, query, score) ==>
              exists k :: k in keys && k in store && c == Scored(store, k, query, score)
    ensures forall k :: k in keys && k in store ==> Scored(store, k, query, score) in Candidates(store, keys, query, score)
  {
    if |keys| > 0 {
      var init := keys[..|keys| - 1];
      CandidatesFromStore(store, init, query, score);
      assert keys == init + [keys[|keys| - 1]];
    }
  }

  /** With no live key in the collection's namespace, `get` misses whatever else the keyspace holds. */
  lemma GetMissesEmptyNamespace(store: Store, io: ReadIo, collectionId: string, score: Scorer, threshold: real)
    requires io.link.Connected?
    requires forall k :: k in store ==> !InNamespace(k, collectionId)
    ensures Get(store, io, collectionId, score, threshold) == Success(None)
  {
    if Healthy(io.link, io.embedding) {
      var keys := KeysMatching(io.listing, collectionId);
      var cs := Candidates(store, keys, io.embedding.value, score);
      CandidatesFromStore(store, keys, io.embedding.value, score);
    }
  }

  /** The live entry under `k` belongs to the collection and scores as a match. */
  ghost predicate MatchingEntry(store: Store, k: string, collectionId: string, query: Vector, score: Scorer,
                                threshold: real) {
    k in store && InNamespace(k, collectionId) && Qualifies(Scored(store, k, query, score), threshold)
  }

  /** When every live key of the namespace is scanned, `get` misses exactly when no entry of the
      collection reaches the threshold, and otherwise returns a maximal-similarity entry of it. */
  lemma GetReturnsBestEntry(store: Store, io: ReadIo, collectionId: string, score: Scorer, threshold: real)
    requires Healthy(io.link, io.embedding)
    requires ListsNamespace(io.listing, store, collectionId)
    ensures var v, r := io.embedding.value, Get(store, io, collectionId, score, threshold).value;
            && (r.None? <==> forall k :: !MatchingEntry(store, k, collectionId, v, score, threshold))
            && (r.Some? ==>
                  exists k :: && MatchingEntry(store, k, collectionId, v, score, threshold)
                              && r.value == Hit(Scored(store, k, v, score))
                              && forall k' :: MatchingEntry(store, k', collectionId, v, score, threshold) ==>
                                                Scored(store, k', v, score).score.value <= r.value.similarity)
  {
    var v := io.embedding.value;
    var keys := KeysMatching(io.listing, collectionId);
    var cs := Candidates(store, keys, v, score);
    var r := Get(store, io, collectionId, score, threshold).value;
    assert r == SelectBest(cs, threshold);
    CandidatesFromStore(store, keys, v, score);
    SelectBestIsFirstMaximum(cs, threshold);
    forall k | MatchingEntry(store, k, collectionId, v, score, threshold)
      ensures Scored(store, k, v, score) in cs
    {
      assert k in keys;
    }
    if r.Some? {
      var i :| IsFirstBest(cs, threshold, i) && r.value == Hit(cs[i]);
      assert cs[i] in cs;
      var k :| k in keys && k in store && cs[i] == Scored(store, k, v, score);
      forall k' | MatchingEntry(store, k', collectionId, v, score, threshold)
        ensures Scored(store, k', v, score).score.value <= r.value.similarity
      {
        var j :| 0 <= j < |cs| && cs[j] == Scored(store, k', v, score);
        assert Qualifies(cs[j], threshold);
      }
      assert MatchingEntry(store, k, collectionId, v, score, threshold);
    }
  }

  /** Two keyspaces that hold the same entries in the collection's namespace. */
  ghost predicate AgreeOnNamespace(s1: Store, s2: Store, collectionId: string) {
    forall k :: InNamespace(k, collectionId) ==>
      (k in s1 <==> k in s2) && (k in s1 ==> s1[k] == s2[k])
  }

  /** Scanning keys of the namespace reads nothing outside it. */
  lemma {:induction false} CandidatesReadOnlyNamespace(s1: Store, s2: Store, keys: seq<string>, collectionId: string,
                                                       query: Vector, score: Scorer)
    requires AgreeOnNamespace(s1, s2, collectionId)
    requires forall k :: k in keys ==> InNamespace(k, collectionId)
    ensures Candidates(s1, keys, query, score) == Candidates(s2, keys, query, score)
  {
    if |keys| > 0 {
      CandidatesReadOnlyNamespace(s1, s2, keys[..|keys| - 1], collectionId, query, score);
    }
  }

  /** `get` on a collection is blind to every key outside its namespace. */
  lemma GetReadsOnlyNamespace(s1: Store, s2: Store, io: ReadIo, collectionId: string, score: Scorer, threshold: real)
    requires AgreeOnNamespace(s1, s2, collectionId)
    ensures Get(s1, io, collectionId, score, threshold) == Get(s2, io, collectionId, score, threshold)
  {
    if Healthy(io.link, io.embedding) {
      var keys := KeysMatching(io.listing, collectionId);
      CandidatesReadOnlyNamespace(s1, s2, keys, collectionId, io.embedding.value, score);
    }
  }

  /** Caching an answer for another minted collection never changes what `get` returns here. */
  lemma SetElsewhereInvisible(store: Store, wio: WriteIo, query: string, response: string, other: string, ttl: int,
                              rio: ReadIo, collectionId: string, score: Scorer, threshold: real)
    requires ValidCollectionId(collectionId) && ValidCollectionId(other) && collectionId != other
    requires Set(store, wio, query, response, other, ttl).Success?
    ensures var after := Set(store, wio, query, response, other, ttl).value;
            Get(after, rio, collectionId, score, threshold) == Get(store, rio, collectionId, score, threshold)
  {
    var after := Set(store, wio, query, response, other, ttl).value;
    KeyInOwnNamespace(other, query);
    MintedNamespacesDisjoint(collectionId, other, CacheKey(other, query));
    GetReadsOnlyNamespace(after, store, rio, collectionId, score, threshold);
  }

  /** Clearing another minted collection never changes what `get` returns here. */
  lemma ClearElsewhereInvisible(store: Store, link: Link, other: string,
                                rio: ReadIo, collectionId: string, score: Scorer, threshold: real)
    requires ValidCollectionId(collectionId) && ValidCollectionId(other) && collectionId != other
    requires ClearCollection(store, link, other).Success?
    ensures var after := ClearCollection(store, link, other).value;
            Get(after, rio, collectionId, score, threshold) == Get(store, rio, collectionId, score, threshold)
  {
    var after := ClearCollection(store, link, other).value;
    forall k | InNamespace(k, collectionId)
      ensures (k in after <==> k in store) && (k in after ==> after[k] == store[k])
    {
      MintedNamespacesDisjoint(other, collectionId, k);
    }
    GetReadsOnlyNamespace(after, store, rio, collectionId, score, threshold);
  }

  /** After a successful clear, `get` misses for that collection. */
  lemma ClearThenGetMisses(store: Store, link: Link, rio: ReadIo, collectionId: string, score: Scorer,
                           threshold: real)
    requires link.Connected? && link.commandsSucceed && rio.link.Connected?
    ensures var after := ClearCollection(store, link, collectionId).value;
            Get(after, rio, collectionId, score, threshold) == Success(None)
  {
    var after := ClearCollection(store, link, collectionId).value;
    GetMissesEmptyNamespace(after, rio, collectionId, score, threshold);
  }

  /** Storing an answer and looking the same query up again hits, with at least the
      similarity of the query's embedding with itself, provided that similarity passes the threshold. */
  lemma SetThenGetHits(store: Store, wio: WriteIo, query: string, response: string, collectionId: string, ttl: int,
                       rio: ReadIo, score: Scorer, threshold: real, self: real)
    requires Healthy(wio.link, wio.embedding) && Healthy(rio.link, rio.embedding) && ttl > 0
    requires rio.embedding == wio.embedding
    requires score(wio.embedding.value, wio.embedding.value) == Some(self)
    requires self >= threshold && self > 0.0
    requires ListsNamespace(rio.listing, Set(store, wio, query, response, collectionId, ttl).value, collectionId)
    ensures var after := Set(store, wio, query, response, collectionId, ttl).value;
            var r := Get(after, rio, collectionId, score, threshold);
            r.Success? && r.value.Some? && r.value.value.similarity >= self
  {
    var after := Set(store, wio, query, response, collectionId, ttl).value;
    var key := CacheKey(collectionId, query);
    KeyInOwnNamespace(collectionId, query);
    assert MatchingEntry(after, key, collectionId, rio.embedding.value, score, threshold);
    GetReturnsBestEntry(after, rio, collectionId, score, threshold);
  }
}
