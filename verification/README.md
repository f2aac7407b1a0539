# Semantic cache-augmented query pipeline, in Dafny

This project models the core of the Cache-Augmented-Generation application.
The core answers a question about an uploaded document collection. It first
asks a Redis-backed *semantic cache* for an earlier answer to a similar
question. On a miss it embeds the question and retrieves the four nearest
chunks from the vector store. It then builds a numbered context, has the
language model answer, and writes the answer back to the cache. The
project also models the document processor that turns an upload into those
chunks.

Modules, one file each:

- `Wrappers`, `Bytes`, `Strings`: `Option`/`Result`, octets, and the string
  helpers the source uses (`toLowerCase` on ASCII, `endsWith`, `join`,
  decimal rendering of a number).
- `Utf8`, `Base64`: the UTF-8 encoding form of RFC 3629 and the base 64
  encoding of section 4 of RFC 4648. Together they give the cache key
  `Buffer.from(query).toString('base64').substring(0, 16)`. Both come with
  decoders and round-trip proofs.
- `CacheKeys`: the key layout `cache:{collectionId}:{queryHash}`. Its proofs
  show which queries share a key. They also show that the namespaces of
  collection ids minted by the upload route never overlap.
- `SemanticCache`: `get`, `set` and `clearCollection` over a keyspace modelled
  as a `map`. The scan loop of `get` is given both as a function and as the
  source's loop.
- `Rag`: `RAGChain.query` as a pure function. Its inputs are the keyspace and
  the answers of the embedding API, the vector search and the model. It
  returns the result, the keyspace afterwards, and the calls it made, in
  order.
- `DocumentProcessor`: `processFile`'s choice of reader, its errors, and
  `createChunks`.

Connection and error behaviour, as the code has it:

- `get`, `set` and `clearCollection` call `connect()` outside their `try`
  block, and `connect()` rethrows. An unreachable Redis server therefore
  fails `get`, and with it the whole query. Likewise a `set` that cannot
  connect fails the query after the answer was generated.
- Failures inside the `try` (embedding API, KEYS, GET, SETEX, DEL) are
  caught: `get` misses, `set` and `clearCollection` change nothing.
- `clearCollection` returns nothing.
- The key keeps only the first 16 base 64 digits of the query, which encode
  its first 12 UTF-8 bytes. Questions that share their first 12 bytes
  therefore overwrite each other's entry (`CacheKeys.SameOpeningWordsCollide`).

## Model

| member | source | states |
|---|---|---|
| Utf8.DecodeEncode | src/lib/cache.ts:123 | Decoding the UTF-8 bytes `Buffer.from(query)` produces gives the query back, so the bytes determine the query |
| Utf8.EncodeDecode | src/lib/cache.ts:123 | Every well-formed byte string is the encoding of exactly the string it decodes to (shortest form is the only form) |
| Utf8.EncodeInjective | src/lib/cache.ts:123 | Distinct queries have distinct UTF-8 byte strings |
| Utf8.EncodeAppend | src/lib/cache.ts:123 | The encoding of a concatenation is the concatenation of the encodings |
| Utf8.EncodeAscii | src/lib/cache.ts:123 | An ASCII string encodes to one byte per character, equal to its code |
| Base64.DecodeEncode | src/lib/cache.ts:123 | `toString('base64')` loses nothing: decoding the digits gives the bytes back, including the padded final quantum |
| Base64.EncodeInjective | src/lib/cache.ts:123 | Distinct byte strings have distinct base 64 text |
| Base64.EncodeLength | src/lib/cache.ts:123 | The base 64 text of n bytes has 4 * ceil(n / 3) characters |
| Base64.EncodePrefix | src/lib/cache.ts:123 | The encoding of the first 3g bytes is the 4g-character prefix of the whole encoding |
| Strings.ParseDecimalOfDecimal | src/lib/rag.ts:72 | The rendered chunk number `${idx + 1}` reads back as that number |
| CacheKeys.QueryHashOfPrefix | src/lib/cache.ts:123 | The 16-character query hash is exactly the base 64 of the query's first 12 UTF-8 bytes |
| CacheKeys.TakeOfEncoding | src/lib/cache.ts:123 | Truncating any encoding to 16 digits equals encoding its first 12 bytes |
| CacheKeys.QueryHashLength | src/lib/cache.ts:123 | The hash has 16 characters when the query has at least 10 bytes, otherwise 4 * ceil(n / 3) |
| CacheKeys.SharedPrefixSharesKey | src/lib/cache.ts:122-124 | Two queries whose first 12 bytes agree get the same key in a collection |
| CacheKeys.ShortQueriesGetDistinctKeys | src/lib/cache.ts:122-124 | Two different queries of at most 12 bytes get different keys |
| CacheKeys.SharedAsciiOpeningSharesKey | src/lib/cache.ts:122-124 | Queries opening with the same 12 ASCII characters share a key, whatever follows |
| CacheKeys.SameOpeningWordsCollide | src/lib/cache.ts:122-124 | "What is the refund policy?" and "What is the weather like?" overwrite each other's entry |
| CacheKeys.KeyInOwnNamespace | src/lib/cache.ts:71 | The key `set` writes is matched by the `cache:{collectionId}:*` pattern that `get` and `clearCollection` list |
| CacheKeys.NamespacesDisjoint | src/lib/cache.ts:71 | For ids without `:`, no key matches the patterns of two different collections |
| CacheKeys.MintedNamespacesDisjoint | src/app/api/upload/route.ts:53 | Ids of the form `doc_` plus 8 hex digits have pairwise disjoint key namespaces |
| SemanticCache.KeysMatching | src/lib/cache.ts:71 | KEYS returns exactly the listed keys in the collection's namespace |
| SemanticCache.SelectBest | src/lib/cache.ts:73-94 | A kept match has similarity at least the threshold and above 0, and comes from a scanned entry |
| SemanticCache.SelectBestIsFirstMaximum | src/lib/cache.ts:73-94 | The loop keeps nothing exactly when no entry qualifies; otherwise it keeps the first entry of maximal similarity, so ties go to the earliest-scanned entry |
| SemanticCache.ScanKeys | src/lib/cache.ts:73-94 | The source's loop (skip missing keys, strict `>` against the running maximum, `>=` threshold) computes the first maximum |
| SemanticCache.Get | src/lib/cache.ts:58-106 | Fails exactly when `connect()` fails; misses whenever a step inside the `try` fails; any hit passes the threshold |
| SemanticCache.Set | src/lib/cache.ts:108-139 | Fails exactly when `connect()` fails; otherwise it writes the entry under the derived key, replacing any old one, and leaves every other key alone, or changes nothing when a step inside the `try` fails, including SETEX refusing a non-positive expiry |
| SemanticCache.ClearCollection | src/lib/cache.ts:154-168 | Fails exactly when `connect()` fails; otherwise it removes exactly the namespace's keys and keeps the rest unchanged, or changes nothing when a command fails |
| SemanticCache.CandidatesFromStore | src/lib/cache.ts:76-84 | The scanned candidates are exactly the live entries behind the listed keys |
| SemanticCache.GetMissesEmptyNamespace | src/lib/cache.ts:58-106 | With no live key in the namespace, `get` misses whatever the rest of the keyspace holds |
| SemanticCache.GetReturnsBestEntry | src/lib/cache.ts:58-106 | When the listing covers the namespace, `get` misses iff no entry of the collection reaches the threshold, and otherwise returns an entry of maximal similarity |
| SemanticCache.CandidatesReadOnlyNamespace | src/lib/cache.ts:76-84 | The scan reads nothing outside the collection's namespace |
| SemanticCache.GetReadsOnlyNamespace | src/lib/cache.ts:58-106 | `get` gives the same answer for two keyspaces that agree on the collection's namespace |
| SemanticCache.SetElsewhereInvisible | src/lib/cache.ts:108-139 | Caching in another minted collection never changes what `get` returns here |
| SemanticCache.ClearElsewhereInvisible | src/lib/cache.ts:154-168 | Clearing another minted collection never changes what `get` returns here |
| SemanticCache.ClearThenGetMisses | src/lib/cache.ts:154-168 | After a successful clear, `get` on that collection misses |
| SemanticCache.SetThenGetHits | src/lib/cache.ts:108-139 | After `set`, a `get` of the same query hits, with at least the query's self-similarity, whenever that passes the threshold |
| Rag.ContextOfOne | src/lib/rag.ts:71-73 | One hit gives the context `[1] text` |
| Rag.ContextAppend | src/lib/rag.ts:71-73 | Each further hit adds `\n\n[n] text` with the next number |
| Rag.ContextStartsWithFirst | src/lib/rag.ts:71-73 | The context always opens with the top hit numbered 1 |
| Rag.BuildContext | src/lib/rag.ts:71-73 | The chunk-by-chunk build gives the numbered, `\n\n`-joined context |
| Rag.SourceLabels | src/lib/rag.ts:75 | One label per hit, the hit's `source`, in hit order |
| Rag.Dedupe | src/lib/rag.ts:109 | `[...new Set(sources)]` has no duplicates, the same members, in first-occurrence order |
| Rag.DedupeWithSet | src/lib/rag.ts:109 | The set-based walk keeps a label only on its first occurrence, which yields the first-occurrence deduplication |
| Rag.Query | src/lib/rag.ts:35-111 | Every answer has the shape of its origin (similarity only from the cache, sources only from the vector store); the cache is consulted first |
| Rag.Retrieve | src/lib/rag.ts:49-110 | The miss path answers from the vector store, embedding first and then searching the same collection for 4 chunks |
| Rag.CacheHitShortCircuits | src/lib/rag.ts:38-47 | A cache match is returned with its similarity; nothing is embedded, searched, generated or written |
| Rag.CacheConnectFailureFailsQuery | src/lib/rag.ts:38 | A Redis connection failure in the cache check fails the whole query, with the keyspace unchanged |
| Rag.MissSearchesSameCollection | src/lib/rag.ts:51-59 | On a miss the calls are cache check, embed, then search of the same collection with the query's vector and limit 4 |
| Rag.EmptyResultsAreNotCached | src/lib/rag.ts:61-68 | No hits gives the fixed answer with an empty source list; the model is not called and the cache is not written |
| Rag.AnswerIsGeneratedThenCached | src/lib/rag.ts:71-110 | The model sees the numbered context and the question; its output is the answer and the one cache write, which comes after generation; the sources are the deduplicated labels |
| Rag.QueryWritesOnlyItsKey | src/lib/rag.ts:104 | A query can change only its own derived key in its own collection |
| Rag.SecondAskHitsCache | src/lib/rag.ts:38-47 | Re-asking a question that was answered from retrieved chunks (and so cached) with a stable embedding is answered from the cache without a search |
| DocumentProcessor.Dispatch | src/lib/document-processor.ts:69-80 | PDF when the lower-cased type is `application/pdf` or the name ends in `.pdf`; else text on `text/plain` or `.txt`; else the unsupported-type error |
| DocumentProcessor.UploadAcceptedIsDispatched | src/app/api/upload/route.ts:22-23 | Every file the upload route admits reaches a reader |
| DocumentProcessor.DispatchAcceptsMoreThanUpload | src/lib/document-processor.ts:69-77 | The converse fails: `TEXT/PLAIN` with no extension is read as text but refused by the route |
| DocumentProcessor.PdfNameBeatsTextType | src/lib/document-processor.ts:71 | The PDF test comes first: `x.pdf` typed `text/plain` goes to the PDF reader |
| DocumentProcessor.UnknownTypeAndNameRefused | src/lib/document-processor.ts:69-80 | A type that lower-cases to neither MIME name and a name with neither suffix gets the unsupported-type error |
| DocumentProcessor.UpperCaseExtensionRefused | src/lib/document-processor.ts:71-75 | The suffix test is case-sensitive: `A.TXT` of an unknown type is refused |
| DocumentProcessor.CreateChunksFaithful | src/lib/document-processor.ts:52-59 | Reading back the chunk texts gives the splits; chunk i carries index i and the file name |
| DocumentProcessor.ProcessFile | src/lib/document-processor.ts:16-81 | Unsupported type gives its error; a `pdf-parse` failure gives `Failed to process PDF file`; otherwise the chunks' texts are exactly the splitter's pieces of the extracted PDF text or of the UTF-8 text, and a splitter error is passed on unchanged; chunks are numbered from 0 and tagged with the file name |

## Left out

- Cosine similarity arithmetic (src/lib/cache.ts:51-56) is floating point. It is an arbitrary scoring function whose `None` is NaN. The NaN case is why a zero vector never matches.
- `connect`, `disconnect` and `checkHealth` are not modelled as operations. Each cache call instead receives the connection's outcome: unreachable, commands succeed, or a command fails.
- A command that fails midway through a `try` block is modelled as all-or-nothing.
- The connection state shared between calls is not modelled.
- TTL expiry is recorded on the entry but enforced by Redis. The keyspace holds only live keys. A key listed by KEYS that is gone at GET is skipped.
- KEYS glob matching is modelled as a prefix match, so collection ids containing `*`, `?`, `[` or `\` are not modelled. Such ids can arrive: the chat route passes the client's `collectionId` unchecked to the query (src/app/api/chat/route.ts:8-21), and an id such as `*` would make `get` scan every collection's entries.
- SemanticCache.SetElsewhereInvisible and SemanticCache.ClearElsewhereInvisible: cover only ids of the form the upload route mints (`doc_` and 8 hex digits); for arbitrary client-supplied ids the namespaces can overlap.
- The enumeration order of KEYS is an input.
- The embedding API, the vector search, and the prompt template with the model are inputs. The prompt's wording is not modelled.
- The same holds for `pdf-parse`, the recursive character splitter, UTF-8 decoding of the upload, and `uuidv4`.
- `Date.now()` is an input.
- JSON serialisation of cache entries is not modelled, nor corrupt stored values.
- `SIMILARITY_THRESHOLD` from the environment is a parameter. A NaN threshold from `parseFloat` is not modelled.
- Strings.ToLower: lower-cases ASCII only, because the full Unicode mapping of `toLowerCase` is not modelled. No non-ASCII character lower-cases into `application/pdf` or `text/plain` except U+212A (Kelvin sign) into `k`, and neither name contains a `k`.
- Utf8.Encode: every Dafny `char` is a scalar value, so lone UTF-16 surrogates, which `Buffer.from` replaces with U+FFFD, are not modelled.
- The readers' promises are modelled by their outcomes only, not their asynchrony. A splitter failure escapes `processPDF`/`processTXT` unchanged, because `createChunks` is returned from the `try` without `await`; the `Failed to process TXT file` error is therefore unreachable and does not appear.
- Concurrency is not modelled: simultaneous queries racing on one key, and cancellation.
- Logging is not modelled.
- `embedDocuments`, the vector store module, the API routes and the UI are outside this model, except the upload route's file-type filter and id format.
