/**
 The joke memory: the stored jokes with their fingerprints, the duplicate test
 run on every new candidate, and the listings over the store.

 The remote embedding service, the clock (`Date.now()`) and `randomUUID` are
 inputs of the operations that use them; md5, sha256 and `Math.sqrt` are fixed
 when the store is built. Two ghost counters make the side effects visible:
 `embedRequests` counts calls to the embedding service and `saves` counts
 rewrites of the persisted snapshot.
 */
module JokeStore {
  import opened JsText
  import opened Fingerprint
  import opened Similarity
  import opened Ranking

  datatype JokeEntry = JokeEntry(
    id: string,
    joke: string,
    jokeEmbedding: seq<real>,
    timestamp: int,
    hash: string)

  /** What `loadMemory` finds: no file, a parsed array of entries, or a file
      that cannot be read or parsed. */
  datatype Snapshot = NoFile | Parsed(entries: seq<JokeEntry>) | Unreadable

  datatype JokeStats = JokeStats(total: nat, recent: nat)

  const DayMs: int := 24 * 60 * 60 * 1000
  const DefaultDimensions: nat := 768
  /** SIMILARITY_THRESHOLD of the TypeScript source. */
  const SourceThreshold: real := 0.5
  /** SIMILARITY_THRESHOLD of the compiled JavaScript. */
  const CompiledThreshold: real := 0.85

  // ---- the duplicate tests, as properties of the stored entries ----

  /** The `some` test: an entry carries this hash. */
  predicate HasExactDuplicate(jokes: seq<JokeEntry>, h: string) {
    exists i :: 0 <= i < |jokes| && jokes[i].hash == h
  }

  /** Some entry scores strictly above the threshold against the embedding. */
  predicate HasNearDuplicate(jokes: seq<JokeEntry>, e: seq<real>, threshold: real, sqrt: RootFn) {
    exists i :: 0 <= i < |jokes| && Cosine(e, jokes[i].jokeEmbedding, sqrt) > threshold
  }

  /** No two entries share a hash. */
  predicate UniqueHashes(jokes: seq<JokeEntry>) {
    forall i, j :: 0 <= i < j < |jokes| ==> jokes[i].hash != jokes[j].hash
  }

  // ---- filtering by age ----

  /** `jokes.filter(joke => joke.timestamp > cutoff)`. */
  function KeptAfter(jokes: seq<JokeEntry>, cutoff: int): (r: seq<JokeEntry>)
    ensures |r| <= |jokes|
  {
    if jokes == [] then []
    else (if jokes[0].timestamp > cutoff then [jokes[0]] else []) + KeptAfter(jokes[1..], cutoff)
  }

  /** The filter keeps exactly the entries newer than the cutoff; an entry
      stamped at the cutoff itself is dropped. */
  lemma {:induction false} KeptAfterMembers(jokes: seq<JokeEntry>, cutoff: int, e: JokeEntry)
    ensures e in KeptAfter(jokes, cutoff) <==> e in jokes && e.timestamp > cutoff
  {
    if jokes != [] {
      KeptAfterMembers(jokes[1..], cutoff, e);
      assert jokes == [jokes[0]] + jokes[1..];
    }
  }

  /** The filter works piecewise, so survivors keep their relative order. */
  lemma {:induction false} KeptAfterConcat(a: seq<JokeEntry>, b: seq<JokeEntry>, cutoff: int)
    ensures KeptAfter(a + b, cutoff) == KeptAfter(a, cutoff) + KeptAfter(b, cutoff)
  {
    if a != [] {
      assert (a + b)[1..] == a[1..] + b;
      KeptAfterConcat(a[1..], b, cutoff);
    } else {
      assert a + b == b;
    }
  }

  /** Filtering twice with the same cutoff is filtering once. */
  lemma {:induction false} KeptAfterIdempotent(jokes: seq<JokeEntry>, cutoff: int)
    ensures KeptAfter(KeptAfter(jokes, cutoff), cutoff) == KeptAfter(jokes, cutoff)
  {
    if jokes != [] {
      var head := if jokes[0].timestamp > cutoff then [jokes[0]] else [];
      KeptAfterConcat(head, KeptAfter(jokes[1..], cutoff), cutoff);
      KeptAfterIdempotent(jokes[1..], cutoff);
      assert KeptAfter(head, cutoff) == head by {
        if head != [] { assert head[1..] == []; }
      }
    }
  }

  /** Purging never creates a hash collision. */
  lemma {:induction false} KeptAfterKeepsHashesUnique(jokes: seq<JokeEntry>, cutoff: int)
    requires UniqueHashes(jokes)
    ensures UniqueHashes(KeptAfter(jokes, cutoff))
  {
    if jokes != [] {
      var tail := jokes[1..];
      var rest := KeptAfter(tail, cutoff);
      TailHashesUnique(jokes);
      KeptAfterKeepsHashesUnique(tail, cutoff);
      if jokes[0].timestamp > cutoff {
        forall j | 0 <= j < |rest| ensures rest[j].hash != jokes[0].hash {
          KeptAfterMembers(tail, cutoff, rest[j]);
          var k :| 0 <= k < |tail| && tail[k] == rest[j];
          assert jokes[k + 1] == rest[j];
        }
        ConsHashesUnique(jokes[0], rest);
      }
    }
  }

  lemma TailHashesUnique(jokes: seq<JokeEntry>)
    requires jokes != [] && UniqueHashes(jokes)
    ensures UniqueHashes(jokes[1..])
  {
    var tail := jokes[1..];
    forall i, j | 0 <= i < j < |tail| ensures tail[i].hash != tail[j].hash {
      assert tail[i] == jokes[i + 1] && tail[j] == jokes[j + 1];
    }
  }

  lemma ConsHashesUnique(x: JokeEntry, rest: seq<JokeEntry>)
    requires UniqueHashes(rest)
    requires forall j :: 0 <= j < |rest| ==> rest[j].hash != x.hash
    ensures UniqueHashes([x] + rest)
  {
    var r := [x] + rest;
    forall i, j | 0 <= i < j < |r| ensures r[i].hash != r[j].hash {
      assert r[j] == rest[j - 1];
      if i > 0 { assert r[i] == rest[i - 1]; }
    }
  }

  // ---- orderings ----

  function Timestamp(e: JokeEntry): real {
    e.timestamp as real
  }

  /** The sort key of `findSimilarJokes`: similarity to the query embedding. */
  function SimilarityTo(query: seq<real>, sqrt: RootFn): JokeEntry -> real {
    (e: JokeEntry) => Cosine(query, e.jokeEmbedding, sqrt)
  }

  /** `getRecentJokes(2)` on entries stamped 100, 300 and 200 lists the one
      stamped 300, then the one stamped 200. */
  lemma RecentTwoOfThree(a: JokeEntry, b: JokeEntry, c: JokeEntry)
    requires a.timestamp == 100 && b.timestamp == 300 && c.timestamp == 200
    ensures Take(SortDesc([a, b, c], Timestamp), 2) == [b, c]
  {
    var s := [a, b, c];
    assert s[1..] == [b, c] && s[1..][1..] == [c];
    assert SortDesc([c], Timestamp) == [c] by { assert [c][1..] == []; }
    assert SortDesc([b, c], Timestamp) == [b, c];
    assert Insert(a, [b, c], Timestamp) == [b] + Insert(a, [c], Timestamp);
    assert Insert(a, [c], Timestamp) == [c] + Insert(a, [], Timestamp);
    assert SortDesc(s, Timestamp) == [b, c, a];
  }

  // ---- properties of the duplicate test ----

  /** A store that holds nothing has no duplicate of anything. */
  lemma EmptyStoreIsNovel(h: string, e: seq<real>, threshold: real, sqrt: RootFn)
    ensures !HasExactDuplicate([], h) && !HasNearDuplicate([], e, threshold, sqrt)
  {
  }

  /** The comparison is strict: a score equal to the threshold is no duplicate. */
  lemma ScoreAtThresholdIsNovel(x: JokeEntry, e: seq<real>, sqrt: RootFn)
    ensures !HasNearDuplicate([x], e, Cosine(e, x.jokeEmbedding, sqrt), sqrt)
  {
  }

  /** A duplicate under a threshold is a duplicate under every lower one; in
      particular each duplicate of the compiled build (0.85) is one of the
      TypeScript source (0.5). */
  lemma ThresholdMonotone(jokes: seq<JokeEntry>, e: seq<real>, lo: real, hi: real, sqrt: RootFn)
    requires lo <= hi && HasNearDuplicate(jokes, e, hi, sqrt)
    ensures HasNearDuplicate(jokes, e, lo, sqrt)
  {
    var i :| 0 <= i < |jokes| && Cosine(e, jokes[i].jokeEmbedding, sqrt) > hi;
    assert Cosine(e, jokes[i].jokeEmbedding, sqrt) > lo;
  }

  /** While the embedding service is down, a candidate is never a near
      duplicate of entries that hold 768-entry service embeddings, for any
      non-negative threshold: only the exact hash test can reject it. */
  lemma OutageHidesNearDuplicates(jokes: seq<JokeEntry>, text: string, sha256: string -> Digest,
                                  threshold: real, sqrt: RootFn)
    requires forall i :: 0 <= i < |jokes| ==> |jokes[i].jokeEmbedding| == DefaultDimensions
    requires threshold >= 0.0
    ensures !HasNearDuplicate(jokes, EmbeddingFor(ServiceError, sha256, text), threshold, sqrt)
  {
    var e := EmbeddingFor(ServiceError, sha256, text);
    forall i | 0 <= i < |jokes| ensures Cosine(e, jokes[i].jokeEmbedding, sqrt) <= threshold {
      FallbackNeverScoresAgainstServiceVector(sha256(Lower(text)), jokes[i].jokeEmbedding, sqrt);
    }
  }

  /** Adding a candidate only after the exact test passed keeps hashes unique. */
  lemma AcceptKeepsHashesUnique(jokes: seq<JokeEntry>, e: JokeEntry)
    requires UniqueHashes(jokes) && !HasExactDuplicate(jokes, e.hash)
    ensures UniqueHashes(jokes + [e])
  {
    var r := jokes + [e];
    forall i, j | 0 <= i < j < |r| ensures r[i].hash != r[j].hash {
      if j == |jokes| {
        assert r[i] == jokes[i];
      } else {
        assert r[i] == jokes[i] && r[j] == jokes[j];
      }
    }
  }

  /** The loop of `isJokeSimilar` over the stored entries: it stops at the
      first entry scoring strictly above the threshold. */
  method ScanForSimilar(jokes: seq<JokeEntry>, embedding: seq<real>, threshold: real, sqrt: RootFn)
    returns (similar: bool)
    ensures similar <==> HasNearDuplicate(jokes, embedding, threshold, sqrt)
  {
    var k := 0;
    while k < |jokes|
      invariant 0 <= k <= |jokes|
      invariant forall i :: 0 <= i < k ==> Cosine(embedding, jokes[i].jokeEmbedding, sqrt) <= threshold
    {
      var jokeSimilarity := CosineSimilarity(embedding, jokes[k].jokeEmbedding, sqrt);
      if jokeSimilarity > threshold {
        return true;
      }
      k := k + 1;
    }
    return false;
  }

  class JokeMemory {
    var jokes: seq<JokeEntry>
    const threshold: real
    const md5: string -> string
    const sha256: string -> Digest
    const sqrt: RootFn
    ghost var embedRequests: nat
    ghost var saves: nat

    /** The constructor with `loadMemory`: the parsed snapshot if there is
        one, else an empty store (a missing or unreadable file is not an
        error). */
    constructor (threshold: real, md5: string -> string, sha256: string -> Digest, sqrt: RootFn,
                 stored: Snapshot)
      ensures jokes == (if stored.Parsed? then stored.entries else [])
      ensures this.threshold == threshold && this.md5 == md5
      ensures this.sha256 == sha256 && this.sqrt == sqrt
      ensures embedRequests == 0 && saves == 0
    {
      this.threshold := threshold;
      this.md5 := md5;
      this.sha256 := sha256;
      this.sqrt := sqrt;
      jokes := [];
      embedRequests := 0;
      saves := 0;
      if stored.Parsed? {
        jokes := stored.entries;
      }
    }

    /** `saveMemory`: the whole collection is written; failures are swallowed. */
    method SaveMemory()
      modifies this`saves
      ensures saves == old(saves) + 1
    {
      saves := saves + 1;
    }

    /** `generateEmbedding`: one request to the service; its vector on
        success, the hash-derived fallback on any failure. */
    method GenerateEmbedding(text: string, reply: EmbedReply) returns (embedding: seq<real>)
      modifies this`embedRequests
      ensures embedRequests == old(embedRequests) + 1
      ensures embedding == EmbeddingFor(reply, sha256, text)
    {
      embedRequests := embedRequests + 1;
      match reply
      case Embedded(values) =>
        embedding := values;
      case ServiceError =>
        embedding := FallbackEmbedding(sha256, text);
    }

    /** `isJokeSimilar`: an exact hash match answers true before any
        embedding is requested; otherwise the candidate's embedding is
        compared with every entry, and only a score strictly above the
        threshold makes it a duplicate. The store is not changed. */
    method IsJokeSimilar(newJoke: string, reply: EmbedReply) returns (similar: bool)
      modifies this`embedRequests
      ensures jokes == old(jokes)
      ensures HasExactDuplicate(jokes, GenerateHash(md5, newJoke)) ==>
                similar && embedRequests == old(embedRequests)
      ensures !HasExactDuplicate(jokes, GenerateHash(md5, newJoke)) ==>
                embedRequests == old(embedRequests) + 1 &&
                (similar <==> HasNearDuplicate(jokes, EmbeddingFor(reply, sha256, newJoke), threshold, sqrt))
    {
      var newHash := GenerateHash(md5, newJoke);
      if HasExactDuplicate(jokes, newHash) {
        return true;
      }
      var newJokeEmbedding := GenerateEmbedding(newJoke, reply);
      similar := ScanForSimilar(jokes, newJokeEmbedding, threshold, sqrt);
    }

    /** `addJoke`: appends one entry carrying the text, its hash, its
        embedding and the current time, then saves. No duplicate test is
        made here. */
    method AddJoke(joke: string, id: string, now: int, reply: EmbedReply)
      modifies this`jokes, this`embedRequests, this`saves
      ensures jokes == old(jokes) + [JokeEntry(id, joke, EmbeddingFor(reply, sha256, joke), now, GenerateHash(md5, joke))]
      ensures embedRequests == old(embedRequests) + 1
      ensures saves == old(saves) + 1
    {
      var hash := GenerateHash(md5, joke);
      var jokeEmbedding := GenerateEmbedding(joke, reply);
      jokes := jokes + [JokeEntry(id, joke, jokeEmbedding, now, hash)];
      SaveMemory();
    }

    /** `findSimilarJokes`: the stored entries ranked by similarity to the
        query, best first, cut to `limit`. The store itself is not reordered. */
    method FindSimilarJokes(query: string, limit: int, reply: EmbedReply) returns (found: seq<JokeEntry>)
      modifies this`embedRequests
      ensures jokes == old(jokes)
      ensures embedRequests == old(embedRequests) + 1
      ensures found == Take(SortDesc(jokes, SimilarityTo(EmbeddingFor(reply, sha256, query), sqrt)), limit)
      ensures multiset(found) <= multiset(jokes)
      ensures NonIncreasing(found, SimilarityTo(EmbeddingFor(reply, sha256, query), sqrt))
      ensures limit >= 0 ==> |found| == if limit < |jokes| then limit else |jokes|
    {
      var queryEmbedding := GenerateEmbedding(query, reply);
      var key := SimilarityTo(queryEmbedding, sqrt);
      var ranked := SortDesc(jokes, key);
      SortPermutes(jokes, key);
      SortSorted(jokes, key);
      SortLength(jokes, key);
      found := Take(ranked, limit);
      TakeSubMultiset(ranked, |found|);
    }

    /** `getJokeStats`: the size of the store and how many entries are newer
        than a day. */
    function GetJokeStats(now: int): (stats: JokeStats)
      reads this
      ensures stats.total == |jokes|
      ensures stats.recent == |KeptAfter(jokes, now - DayMs)|
      ensures stats.recent <= stats.total
    {
      JokeStats(|jokes|, |KeptAfter(jokes, now - DayMs)|)
    }

    /** `getRecentJokes`: sorts the store itself, newest first (stably), and
        returns its first `limit` entries. */
    method GetRecentJokes(limit: int) returns (recent: seq<JokeEntry>)
      modifies this`jokes
      ensures jokes == SortDesc(old(jokes), Timestamp)
      ensures multiset(jokes) == multiset(old(jokes))
      ensures NonIncreasing(jokes, Timestamp)
      ensures recent == Take(jokes, limit)
      ensures limit >= 0 ==> |recent| == if limit < |jokes| then limit else |jokes|
    {
      SortPermutes(jokes, Timestamp);
      SortSorted(jokes, Timestamp);
      SortLength(jokes, Timestamp);
      jokes := SortDesc(jokes, Timestamp);
      recent := Take(jokes, limit);
    }

    /** `clearOldJokes`: keeps the entries newer than `daysOld` days before
        `now`, in their order, then saves. */
    method ClearOldJokes(daysOld: int, now: int)
      modifies this`jokes, this`saves
      ensures jokes == KeptAfter(old(jokes), now - daysOld * DayMs)
      ensures saves == old(saves) + 1
    {
      var cutoffTime := now - daysOld * DayMs;
      jokes := KeptAfter(jokes, cutoffTime);
      SaveMemory();
    }

    /** `getEmbeddingDimensions`: the length of the first entry's embedding,
        768 for an empty store. */
    function GetEmbeddingDimensions(): (n: nat)
      reads this
      ensures |jokes| == 0 ==> n == DefaultDimensions
      ensures |jokes| > 0 ==> n == |jokes[0].jokeEmbedding|
    {
      if |jokes| > 0 then |jokes[0].jokeEmbedding| else DefaultDimensions
    }
  }

  lemma TakeSubMultiset<T>(s: seq<T>, n: nat)
    requires n <= |s|
    ensures multiset(s[..n]) <= multiset(s)
  {
    assert s == s[..n] + s[n..];
  }

  /** After `addJoke(joke)`, testing the same text again, or a copy that
      differs only in case or surrounding whitespace, meets the exact test,
      so `isJokeSimilar` answers "duplicate" without asking the embedding
      service. */
  lemma RepeatIsExactDuplicate(jokes: seq<JokeEntry>, md5: string -> string, joke: string, again: string,
                               id: string, embedding: seq<real>, now: int)
    requires Lower(Trim(again)) == Lower(Trim(joke))
    ensures HasExactDuplicate(jokes + [JokeEntry(id, joke, embedding, now, GenerateHash(md5, joke))],
                              GenerateHash(md5, again))
  {
    HashIgnoresCaseAndEdges(md5, again, joke);
    var e := JokeEntry(id, joke, embedding, now, GenerateHash(md5, joke));
    assert (jokes + [e])[|jokes|] == e;
  }

  /** A cold start during an outage: after the first joke is added the store
      reports 384 dimensions, not the default 768. */
  method ColdStartOutage(threshold: real, md5: string -> string, sha256: string -> Digest, sqrt: RootFn,
                         joke: string, id: string, now: int) returns (m: JokeMemory)
    ensures fresh(m)
    ensures |m.jokes| == 1 && m.GetEmbeddingDimensions() == 384
  {
    m := new JokeMemory(threshold, md5, sha256, sqrt, NoFile);
    assert m.GetEmbeddingDimensions() == DefaultDimensions;
    m.AddJoke(joke, id, now, ServiceError);
  }
}
