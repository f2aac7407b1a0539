/**
  Redis key layout of the semantic cache: one namespace `cache:{collectionId}:`
  per collection, and inside it a key derived from the literal query text
  (src/lib/cache.ts:122-124).
 */
module CacheKeys {
  import opened Bytes
  import opened Strings
  import Utf8
  import Base64

  /** Characters of the derived key that `substring(0, 16)` keeps. */
  const HashLength: nat := 16

  /** Query bytes that those characters encode: 16 base 64 digits carry 12 octets. */
  const HashedBytes: nat := 12

  /** `Buffer.from(query).toString('base64').substring(0, 16)`. */
  function QueryHash(query: string): (h: string)
    ensures |h| <= HashLength
  {
    Take(Base64.Encode(Utf8.Encode(query)), HashLength)
  }

  /** The prefix every key of the collection's cache starts with. */
  function Namespace(collectionId: string): string {
    "cache:" + collectionId + ":"
  }

  /** `cache:${collectionId}:${queryHash}`. */
  function CacheKey(collectionId: string, query: string): string {
    Namespace(collectionId) + QueryHash(query)
  }

  /** Whether `key` is matched by the pattern `cache:${collectionId}:*`. */
  predicate InNamespace(key: string, collectionId: string) {
    StartsWith(key, Namespace(collectionId))
  }

  predicate IsHexDigit(c: char) {
    '0' <= c <= '9' || 'a' <= c <= 'f'
  }

  /** Ids the upload route mints: `doc_` followed by the first 8 characters of a
      lower-case version 4 UUID, which are hex digits (src/app/api/upload/route.ts:53). */
  predicate ValidCollectionId(collectionId: string) {
    && |collectionId| == 12
    && collectionId[..4] == "doc_"
    && forall i :: 4 <= i < 12 ==> IsHexDigit(collectionId[i])
  }

  /** The derived key is the encoding of at most the first 12 bytes of the query. */
  lemma QueryHashOfPrefix(query: string)
    ensures QueryHash(query) == Base64.Encode(Take(Utf8.Encode(query), HashedBytes))
  {
    TakeOfEncoding(Utf8.Encode(query));
  }

  /** The first 16 digits of an encoding are the encoding of the first 12 octets. */
  lemma TakeOfEncoding(bytes: seq<byte>)
    ensures Take(Base64.Encode(bytes), HashLength) == Base64.Encode(Take(bytes, HashedBytes))
  {
    Base64.EncodeLength(bytes);
    if |bytes| >= HashedBytes {
      Base64.EncodePrefix(bytes, 4);
    }
  }

  /** The derived key has exactly min(16, 4 * ceil(n / 3)) characters for an n-byte query. */
  lemma QueryHashLength(query: string)
    ensures var n := |Utf8.Encode(query)|;
            |QueryHash(query)| == if n >= 10 then HashLength else 4 * ((n + 2) / 3)
  {
    var n := |Utf8.Encode(query)|;
    var groups := (n + 2) / 3;
    Base64.EncodeLength(Utf8.Encode(query));
    if n >= 10 {
      assert groups >= 4;
    } else {
      assert groups <= 3;
    }
  }

  /** Queries whose UTF-8 forms agree on their first 12 bytes share one key,
      so a `set` of one overwrites the other's entry. */
  lemma SharedPrefixSharesKey(collectionId: string, q1: string, q2: string)
    requires |Utf8.Encode(q1)| >= HashedBytes && |Utf8.Encode(q2)| >= HashedBytes
    requires Utf8.Encode(q1)[..HashedBytes] == Utf8.Encode(q2)[..HashedBytes]
    ensures CacheKey(collectionId, q1) == CacheKey(collectionId, q2)
  {
    var b1, b2 := Utf8.Encode(q1), Utf8.Encode(q2);
    QueryHashOfPrefix(q1);
    QueryHashOfPrefix(q2);
    assert Take(b1, HashedBytes) == b1[..HashedBytes];
    assert Take(b2, HashedBytes) == b2[..HashedBytes];
  }

  /** Distinct queries of at most 12 UTF-8 bytes get distinct keys. */
  lemma ShortQueriesGetDistinctKeys(collectionId: string, q1: string, q2: string)
    requires q1 != q2
    requires |Utf8.Encode(q1)| <= HashedBytes && |Utf8.Encode(q2)| <= HashedBytes
    ensures CacheKey(collectionId, q1) != CacheKey(collectionId, q2)
  {
    QueryHashOfPrefix(q1);
    QueryHashOfPrefix(q2);
    Utf8.EncodeInjective(q1, q2);
    Base64.EncodeInjective(Utf8.Encode(q1), Utf8.Encode(q2));
    var ns := Namespace(collectionId);
    assert (ns + QueryHash(q1))[|ns|..] == QueryHash(q1);
    assert (ns + QueryHash(q2))[|ns|..] == QueryHash(q2);
  }

  /** The key `set` writes is matched by the pattern `get` and `clearCollection` scan. */
  lemma KeyInOwnNamespace(collectionId: string, query: string)
    ensures InNamespace(CacheKey(collectionId, query), collectionId)
  {
  }

  /** For ids without `:`, no key lies in the namespaces of two different collections. */
  lemma NamespacesDisjoint(c1: string, c2: string, key: string)
    requires ':' !in c1 && ':' !in c2 && c1 != c2
    requires InNamespace(key, c2)
    ensures !InNamespace(key, c1)
  {
    var ns1, n1, n2 := Namespace(c1), |c1|, |c2|;
    assert key[..|Namespace(c2)|] == Namespace(c2);
    if |ns1| <= |key| {
      if n1 < n2 {
        assert key[6 + n1] == c2[n1] != ':';
        assert key[..|ns1|][6 + n1] != ns1[6 + n1];
      } else if n2 < n1 {
        assert key[6 + n2] == ':' != c1[n2];
        assert key[..|ns1|][6 + n2] != ns1[6 + n2];
      } else {
        assert key[..|ns1|][6..6 + n1] == c2 != c1 == ns1[6..6 + n1];
      }
    }
  }

  /** Ids minted by the upload route contain no `:`. */
  lemma ValidIdHasNoColon(collectionId: string)
    requires ValidCollectionId(collectionId)
    ensures ':' !in collectionId
  {
    forall i | 0 <= i < |collectionId|
      ensures collectionId[i] != ':'
    {
      if i < 4 {
        assert collectionId[i] == "doc_"[i];
      }
    }
  }

  /** Keys of another minted collection never match this collection's pattern. */
  lemma MintedNamespacesDisjoint(c1: string, c2: string, key: string)
    requires ValidCollectionId(c1) && ValidCollectionId(c2) && c1 != c2
    requires InNamespace(key, c2)
    ensures !InNamespace(key, c1)
  {
    ValidIdHasNoColon(c1);
    ValidIdHasNoColon(c2);
    NamespacesDisjoint(c1, c2, key);
  }

  /** Queries that open with the same twelve ASCII characters share one key,
      whatever follows. */
  lemma SharedAsciiOpeningSharesKey(collectionId: string, opening: string, rest1: string, rest2: string)
    requires |opening| == HashedBytes
    requires forall i :: 0 <= i < |opening| ==> opening[i] as int < 0x80
    ensures CacheKey(collectionId, opening + rest1) == CacheKey(collectionId, opening + rest2)
  {
    Utf8.EncodeAppend(opening, rest1);
    Utf8.EncodeAppend(opening, rest2);
    Utf8.EncodeAscii(opening);
    var e1, e2 := Utf8.Encode(opening + rest1), Utf8.Encode(opening + rest2);
    assert e1[..HashedBytes] == Utf8.Encode(opening) == e2[..HashedBytes];
    SharedPrefixSharesKey(collectionId, opening + rest1, opening + rest2);
  }

  /** Two different questions that start with "What is the " land on the same
      key, so caching the second evicts the first. */
  lemma SameOpeningWordsCollide(collectionId: string)
    ensures CacheKey(collectionId, "What is the refund policy?")
         == CacheKey(collectionId, "What is the weather like?")
  {
    var opening := "What is the ";
    assert "What is the refund policy?" == opening + "refund policy?";
    assert "What is the weather like?" == opening + "weather like?";
    SharedAsciiOpeningSharesKey(collectionId, opening, "refund policy?", "weather like?");
  }
}
