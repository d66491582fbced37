/** Memoised similarity between the query token and the tokens of the input
    (modules/similarity/similarity.go). The cosine itself is floating-point
    arithmetic and is a parameter of the model. */
module Similarity {
  import opened Bytes
  import opened Word2VecFormat

  /** A float64 similarity value. Division by a zero norm gives NaN or an infinity. */
  datatype Score = Finite(value: real) | PosInf | NegInf | NaN

  /** Go's `score > threshold`: false for NaN, as every comparison with NaN is. */
  predicate Above(s: Score, threshold: real)
  {
    match s
    case Finite(v) => v > threshold
    case PosInf => true
    case NegInf => false
    case NaN => false
  }

  /** Keys longer than this are not cached. */
  const MAX_KEY_LENGTH := 30

  /** The cache key: query token, a vertical bar, the input token. */
  function CacheKey(queryToken: seq<byte>, token: seq<byte>): (key: seq<byte>)
    ensures |key| == |queryToken| + |token| + 1
    ensures key[..|queryToken|] == queryToken && key[|queryToken|] == PIPE
    ensures key[|queryToken| + 1..] == token
  {
    queryToken + [PIPE] + token
  }

  /** For one query token the key determines the input token. */
  lemma CacheKeyInjective(queryToken: seq<byte>, t1: seq<byte>, t2: seq<byte>)
    requires CacheKey(queryToken, t1) == CacheKey(queryToken, t2)
    ensures t1 == t2
  {
    var k := CacheKey(queryToken, t1);
    assert t1 == k[|queryToken| + 1..];
  }

  /** Across different query tokens the key is ambiguous: "a|b" with "c" and
      "a" with "b|c" share the key "a|b|c". The cache is only ever used with a
      single query token, so this never shows. */
  lemma CacheKeyAmbiguousAcrossQueries()
    ensures CacheKey([97, PIPE, 98], [99]) == CacheKey([97], [98, PIPE, 99])
  {
  }

  class SimilarityCache {
    var cache: map<seq<byte>, Score>

    /** `NewSimilarityCache`: an empty cache. */
    constructor ()
      ensures cache == map[]
    {
      cache := map[];
    }

    /** Every cached entry for `queryToken` holds the similarity that would be
        computed afresh for the embedding of its token. */
    ghost predicate Sound(queryToken: seq<byte>, queryVector: Vector,
                          embed: seq<byte> -> Vector, cosine: (Vector, Vector) -> Score)
      reads this
    {
      forall t {:trigger CacheKey(queryToken, t)} ::
        CacheKey(queryToken, t) in cache ==> cache[CacheKey(queryToken, t)] == cosine(queryVector, embed(t))
    }

    /** `MemoizedCalculateSimilarity`: a long key bypasses the cache, a cached key
        answers from the cache, any other key is computed and stored. While the
        cache is sound for the query and the token vector is the token's
        embedding, the answer is exactly the fresh similarity and the cache
        stays sound. */
    method MemoizedCalculateSimilarity(queryToken: seq<byte>, token: seq<byte>,
                                       queryVector: Vector, tokenVector: Vector,
                                       cosine: (Vector, Vector) -> Score,
                                       ghost embed: seq<byte> -> Vector)
      returns (result: Score)
      modifies this
      ensures var key := CacheKey(queryToken, token);
        if |key| > MAX_KEY_LENGTH then
          result == cosine(queryVector, tokenVector) && cache == old(cache)
        else if key in old(cache) then
          result == old(cache)[key] && cache == old(cache)
        else
          result == cosine(queryVector, tokenVector) && cache == old(cache)[key := result]
      ensures forall k :: k in old(cache) ==> k in cache && cache[k] == old(cache)[k]
      ensures old(Sound(queryToken, queryVector, embed, cosine)) && tokenVector == embed(token) ==>
        result == cosine(queryVector, tokenVector) && Sound(queryToken, queryVector, embed, cosine)
    {
      var key := CacheKey(queryToken, token);
      if |key| > MAX_KEY_LENGTH {
        return cosine(queryVector, tokenVector);
      }
      if key in cache {
        return cache[key];
      }
      result := cosine(queryVector, tokenVector);
      cache := cache[key := result];
      forall t | CacheKey(queryToken, t) == key
        ensures t == token
      {
        CacheKeyInjective(queryToken, t, token);
      }
    }
  }
}
