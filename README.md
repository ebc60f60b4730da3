# Joke memory and JSON clean-up, modelled in Dafny

The app is a desktop assistant that makes sarcastic remarks. It remembers the jokes it has told so that it does not repeat them. This project models that *joke memory* (class `JokeMemory`) and the helper's `cleanJsonResponse`, which strips a Markdown code fence from a model reply. Both exist twice in the repository: as TypeScript sources under `electron/` and as compiled JavaScript under `dist-electron/`. The two copies differ in one constant only: the similarity threshold is 0.5 in the source and 0.85 in the compiled copy. The model takes the threshold as a constructor argument and names both values.

Modules:

- `JsText` (js_text.dfy): JavaScript `trim` and `toLowerCase` over strings.
  - `trim` removes ECMAScript WhiteSpace and LineTerminator characters.
  - Proved: trimming is idempotent, and trimming commutes with lower-casing.
- `JsonClean` (json_clean.dfy): `cleanJsonResponse`, built from two anchored regex replacements and a trim.
- `Fingerprint` (fingerprint.dfy):
  - the exact-match hash `md5(trim(lower(text)))`;
  - the hex digest and `parseInt(_, 16)`;
  - the hash-derived fallback embedding that `generateEmbedding` returns when the embedding service fails.
- `Similarity` (similarity.dfy): `cosineSimilarity` over reals, as a loop method proved against a specification function.
- `Ranking` (ranking.dfy): the stable descending `Array.prototype.sort` used by the listings, and `slice(0, limit)`.
- `JokeStore` (joke_memory.dfy): the `JokeMemory` class.
  - It has a mutable `jokes: seq<JokeEntry>` field.
  - Its methods follow the source's methods.
  - Two ghost counters record side effects: `embedRequests` counts calls to the embedding service, and `saves` counts rewrites of the memory file.

Foreign pieces are inputs:

- md5 and sha256 (a sha256 digest is 32 bytes) and `Math.sqrt` are fixed when the store is built. The only fact assumed of `sqrt` is that it is positive on positive numbers.
- `Date.now()` and `crypto.randomUUID()` are method parameters.
- The embedding service's answer is a parameter of type `EmbedReply`: either a vector or a failure.

## Model

| member | source | states |
|---|---|---|
| JsText.Trim | electron/LLMHelper.ts:28 | `trim`: the result is a contiguous slice of the input, everything outside the slice is whitespace, and the result has no whitespace at either end |
| JsText.TrimStart | electron/LLMHelper.ts:28 | drops exactly the longest whitespace prefix: the result is a suffix, what was dropped is whitespace, and the result does not start with whitespace |
| JsText.TrimEnd | electron/LLMHelper.ts:28 | drops exactly the longest whitespace suffix |
| JsText.TrimKeepsTrimmed | electron/LLMHelper.ts:28 | trimming text that has no edge whitespace gives the same text |
| JsText.TrimIdempotent | electron/LLMHelper.ts:28 | trimming twice equals trimming once |
| JsText.Lower | electron/JokeMemory.ts:48 | `toLowerCase` keeps the length and maps each character on its own |
| JsText.LowerTrimCommute | electron/JokeMemory.ts:48 | lower-casing and trimming commute, so `trim(lower(t)) == lower(trim(t))` |
| JsText.LowerIdempotent | electron/JokeMemory.ts:48 | lower-casing twice equals lower-casing once |
| JsonClean.StripOpenFence | electron/LLMHelper.ts:26 | removes "```json\n" if the text starts with it, else "```\n" if it starts with that, else nothing; the json form wins |
| JsonClean.StripCloseFence | electron/LLMHelper.ts:26 | removes one "\n```" at the very end, else nothing |
| JsonClean.CleanJsonResponse | electron/LLMHelper.ts:24-30 | the result has no leading or trailing whitespace and is never longer than the input |
| JsonClean.FenceFreeIsTrimmed | dist-electron/LLMHelper.js:27-29 | text without an opening fence at index 0 and without a closing fence at the end is only trimmed |
| JsonClean.UnwrapFenced | electron/LLMHelper.ts:26-28 | any body wrapped in either opening fence and the closing fence comes back as the trimmed body |
| JsonClean.JsonFencedObject | dist-electron/LLMHelper.js:27 | "```json\n{}\n```" cleans to "{}" |
| JsonClean.IndentedFenceSurvives | electron/LLMHelper.ts:26-28 | an opening fence after leading whitespace is kept: " ```\n{}" cleans to "```\n{}" |
| JsonClean.OneCloseFenceOnly | electron/LLMHelper.ts:26 | only one closing fence is removed |
| JsonClean.OneOpenFenceOnly | electron/LLMHelper.ts:26 | only one opening fence is removed |
| Fingerprint.GenerateHash | electron/JokeMemory.ts:47-49 | `generateHash`: md5 applied to the lower-cased, trimmed text (its properties are the lemmas below) |
| Fingerprint.HashIgnoresCaseAndEdges | electron/JokeMemory.ts:47-49 | texts equal after lower-casing and trimming get the same hash, whatever md5 is |
| Fingerprint.NormalizeIdempotent | electron/JokeMemory.ts:48 | normalising a normalised text changes nothing |
| Fingerprint.HashOfNormalized | electron/JokeMemory.ts:47-49 | hashing a text and hashing its normalised form agree |
| Fingerprint.HexChar | electron/JokeMemory.ts:80 | a nibble is written as a hex digit that reads back as the same nibble |
| Fingerprint.HexEncode | electron/JokeMemory.ts:80 | `digest('hex')` writes two characters per byte |
| Fingerprint.ParseHex | electron/JokeMemory.ts:85 | `parseInt(s, 16)` of k hex digits is below 16^k |
| Fingerprint.Substr | electron/JokeMemory.ts:84 | `substr(start, length)` returns the window when it fits and the empty string past the end |
| Fingerprint.ParseByteHex | electron/JokeMemory.ts:84-85 | a byte's two hex digits parse back to the byte |
| Fingerprint.HexEncodeAt | electron/JokeMemory.ts:80-84 | the characters at 2k and 2k+1 of the hex digest encode byte k |
| Fingerprint.HexPairParses | electron/JokeMemory.ts:83-85 | every pair the loop reads while the digest lasts is hex and parses to the matching digest byte |
| Fingerprint.FallbackVector | electron/JokeMemory.ts:83-86 | the fallback vector has 384 entries, each in [-1, 127/128] |
| Fingerprint.FallbackEmbedding | electron/JokeMemory.ts:80-88 | the fallback has 384 entries and depends only on sha256 of the lower-cased text. Entry k < 32 is (byte k - 128)/128. Every entry from 32 on is -1, the value of the substituted "00" |
| Fingerprint.EmbeddingFor | electron/JokeMemory.ts:70-90 | the value `generateEmbedding` returns: the service's vector on success, the fallback vector of sha256(lower(text)) on any failure |
| Fingerprint.FallbackSeesWhitespace | electron/JokeMemory.ts:80 | the fallback lower-cases but does not trim: " a" and "a" normalise alike for the hash, but the fallback digests different strings |
| Similarity.SumSqUpTo | electron/JokeMemory.ts:61-62 | a sum of squares is never negative |
| Similarity.Accumulate | electron/JokeMemory.ts:55-63 | the loop leaves the dot product and both sums of squares in the three accumulators |
| Similarity.Quotient | electron/JokeMemory.ts:66 | the final division, taken only when both sums of squares are positive: the quotient times the product of the roots is the dot product |
| Similarity.CosineSimilarity | electron/JokeMemory.ts:52-67 | 0 for vectors of different lengths; otherwise the cosine of the specification: 0 when either sum of squares is 0, else the dot product over the product of the roots |
| Similarity.Cosine | electron/JokeMemory.ts:52-67 | the value of `cosineSimilarity`: 0 for different lengths or a zero sum of squares, else the dot product over the product of the roots |
| Similarity.DotUpToSymmetric | electron/JokeMemory.ts:60 | the dot product does not depend on argument order |
| Similarity.ZeroVectorNorm | electron/JokeMemory.ts:61-65 | a vector of zeros has sum of squares 0 |
| Similarity.CosineSymmetric | electron/JokeMemory.ts:52-67 | cosine similarity is symmetric |
| Similarity.ZeroVectorScoresZero | electron/JokeMemory.ts:65 | a vector of zeros scores 0 against every vector, in either position |
| Similarity.FallbackNeverScoresAgainstServiceVector | electron/JokeMemory.ts:52-53 | the 384-entry fallback scores 0 against every 768-entry vector |
| Ranking.SortDesc | electron/JokeMemory.ts:149-166 | the stable `sort` with a descending comparator, as insertion; its properties are SortPermutes, SortSorted and SortLength |
| Ranking.InsertPermutes | electron/JokeMemory.ts:166 | inserting adds exactly the inserted element |
| Ranking.InsertSorted | electron/JokeMemory.ts:166 | inserting into a non-increasing sequence keeps it non-increasing |
| Ranking.SortPermutes | electron/JokeMemory.ts:166 | the sort is a permutation of its input |
| Ranking.SortSorted | electron/JokeMemory.ts:166 | the sort leaves keys in non-increasing order |
| Ranking.SortLength | electron/JokeMemory.ts:166 | the sort keeps the length |
| Ranking.SliceEnd | electron/JokeMemory.ts:167 | `slice`'s end index never exceeds the length; a negative limit counts back from the end |
| Ranking.Take | electron/JokeMemory.ts:150 | `slice(0, limit)` is a prefix of its input |
| Ranking.TakeLength | electron/JokeMemory.ts:167 | for a non-negative limit, `slice(0, limit)` keeps min(limit, length) elements |
| JokeStore.KeptAfter | electron/JokeMemory.ts:172 | the age filter never grows the store |
| JokeStore.KeptAfterMembers | dist-electron/JokeMemory.js:144-148 | an entry survives the filter if and only if it was stored and its timestamp is strictly after the cutoff; an entry at the cutoff is dropped |
| JokeStore.KeptAfterConcat | dist-electron/JokeMemory.js:146 | the filter works piecewise, so survivors keep their relative order |
| JokeStore.KeptAfterIdempotent | electron/JokeMemory.ts:172 | filtering twice with one cutoff equals filtering once |
| JokeStore.KeptAfterKeepsHashesUnique | electron/JokeMemory.ts:172 | purging keeps hashes pairwise distinct if they were |
| JokeStore.RecentTwoOfThree | electron/JokeMemory.ts:164-168 | entries stamped 100, 300, 200 list as 300 then 200 under `getRecentJokes(2)` |
| JokeStore.HasExactDuplicate | electron/JokeMemory.ts:96 | the `some` test: some stored entry carries the hash |
| JokeStore.HasNearDuplicate | electron/JokeMemory.ts:105-114 | some stored entry scores strictly above the threshold against the embedding |
| JokeStore.EmptyStoreIsNovel | electron/JokeMemory.ts:96-116 | an empty store has neither an exact nor a near duplicate of anything |
| JokeStore.ScoreAtThresholdIsNovel | electron/JokeMemory.ts:107 | the comparison is strict: a score equal to the threshold is no duplicate |
| JokeStore.ThresholdMonotone | dist-electron/JokeMemory.js:14-93 | a near duplicate under a higher threshold is one under every lower one, so each duplicate under 0.85 is one under 0.5 |
| JokeStore.OutageHidesNearDuplicates | electron/JokeMemory.ts:77-116 | during an outage a candidate is never a near duplicate of entries with 768-entry embeddings, for any non-negative threshold |
| JokeStore.AcceptKeepsHashesUnique | electron/JokeMemory.ts:135 | appending an entry whose hash failed the exact test keeps hashes unique |
| JokeStore.ScanForSimilar | electron/JokeMemory.ts:105-116 | the scan answers true if and only if some entry scores strictly above the threshold |
| JokeStore.JokeMemory.constructor | electron/JokeMemory.ts:20-37 | the store holds the parsed snapshot, or nothing when the file is missing or unreadable; no request or save has happened |
| JokeStore.JokeMemory.SaveMemory | electron/JokeMemory.ts:39-45 | one save; nothing else changes |
| JokeStore.JokeMemory.GenerateEmbedding | electron/JokeMemory.ts:70-90 | one service request; the service's vector on success, the fallback vector of the text on failure |
| JokeStore.JokeMemory.IsJokeSimilar | electron/JokeMemory.ts:92-117 | The store is unchanged. If an entry has the candidate's hash, the answer is true and no embedding is requested. Otherwise exactly one request is made, and the answer is true if and only if some entry scores strictly above the threshold against the candidate's embedding |
| JokeStore.JokeMemory.AddJoke | electron/JokeMemory.ts:119-136 | appends exactly one entry, last, with the given id, the text, its embedding, the current time and its hash. Earlier entries are unchanged, one request and one save are made, and no duplicate test is done |
| JokeStore.JokeMemory.FindSimilarJokes | dist-electron/JokeMemory.js:120-130 | leaves the store unchanged and makes one request. Returns the first `limit` entries of the store ranked by non-increasing similarity to the query: a sub-multiset of the store, in non-increasing similarity, with min(limit, size) entries for a non-negative limit |
| JokeStore.JokeMemory.GetJokeStats | dist-electron/JokeMemory.js:131-138 | `total` is the store size and `recent` counts entries strictly newer than a day before now, so `recent <= total` |
| JokeStore.JokeMemory.GetRecentJokes | electron/JokeMemory.ts:164-168 | sorts the store itself, newest first: a permutation of the old contents in non-increasing timestamp order. Returns its first `limit` entries, min(limit, size) of them for a non-negative limit |
| JokeStore.JokeMemory.ClearOldJokes | electron/JokeMemory.ts:170-174 | the store becomes the old entries strictly newer than the cutoff, in order, and one save is made |
| JokeStore.JokeMemory.GetEmbeddingDimensions | dist-electron/JokeMemory.js:150-152 | the first entry's embedding length, or 768 for an empty store |
| JokeStore.TakeSubMultiset | electron/JokeMemory.ts:150 | a prefix holds no element more often than the whole |
| JokeStore.RepeatIsExactDuplicate | electron/JokeMemory.ts:93-136 | after `addJoke(joke)`, the same text or a copy differing only in case or edge whitespace meets the exact test, so `isJokeSimilar` answers "duplicate" without asking the service |
| JokeStore.ColdStartOutage | electron/JokeMemory.ts:177-179 | a store started empty during an outage reports 384 dimensions after its first joke, not 768 |

## Left out

- The embedding service (Gemini `embedContent`) is not modelled. Its answer is an input: a vector, or any failure, which selects the fallback.
- Every other LLM helper method that calls the model is not part of this model. They are network calls with prompt text.
- The memory file is not modelled. `loadMemory` is a `Snapshot` given to the constructor (no file, parsed entries, or unreadable). `saveMemory` is a ghost counter and does no serialisation. The model assumes that a readable file parses to an array of well-formed entries. The source stores whatever `JSON.parse` returns. Other parsed values are left out: `null`, an object, a number, or entries missing `hash`, `timestamp` or `jokeEmbedding`. With `null`, the constructor's log line would already fail on `jokes.length`. With an object, `some` and `push` would fail later.
- md5, sha256, `Math.sqrt`, `crypto.randomUUID` and `Date.now` are inputs. Only the 32-byte digest size and the positivity of roots are assumed.
- Numbers are modelled as exact reals and integers, not IEEE-754 doubles.
- Similarity.CosineSimilarity: the model states no range bound ([-1, 1]) and does not prove that a vector is fully similar to itself. Both need properties of `sqrt` and of rounding that are left abstract.
- Similarity.ZeroVectorNorm: only "zero vector ⇒ zero sum of squares" is proved, not the converse.
- JsText.Lower: `toLowerCase` is modelled as ASCII-only (A–Z). Unicode case mapping, which can change string length, is left out.
- Default arguments are not modelled: `limit` (5 for `findSimilarJokes`, 10 for `getRecentJokes`) and `daysOld` (30). Callers of the model pass these values explicitly.
- JokeStore.JokeMemory.FindSimilarJokes: it computes the similarity once per entry and sorts the resulting pairs. The model sorts the entries by a key that gives the same value. The result says nothing about how many times the similarity is computed.
- JokeStore.JokeMemory.GetRecentJokes: the sort is stable by construction (earlier entries go first among equal timestamps), but stability is not stated as a lemma. The sort is also modelled on a sequence field that is reassigned, not as an in-place array algorithm.
- `isJokeSimilar` and `addJoke` each request their own embedding, as the source does. Nothing is cached between them, and the model does not claim otherwise.
- The retry-until-novel joke generation is not part of this model: its body is not among the modelled files.
- The IPC handlers (`ipcHandlers.ts`/`ipcHandlers.js`) only wire Electron messages to these methods, so they are not modelled.
- Console logging and `async`/`await`: awaits are sequential steps and logging has no effect on state.
