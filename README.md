# viral-api headline pipeline, modelled in Dafny

This project models the three pieces of logic in the viral-api headline
pipeline that are neither network nor LLM glue. It then proves properties
of the model.

- **Viral scorer** (`score_items`, `app/score.py`). Each item's score is a
  base of 0.5, plus these boosts:
  - keyword boosts, found by substring search in the lower-cased headline;
  - an upvote tier;
  - a recency tier, only when `published` is a number;
  - +0.05 for more than five words;
  - +0.05 for a question mark.

  The sum is capped at 1.0 and written into the item as `viralScore`. The
  items are returned stably sorted by score, highest first.
  - Scores are integers in hundredths: base 50, cap 100. Every weight in
    the source is a multiple of 0.01.
  - `Score.ScoreItems` is a method over an `array<Item>`. It writes each
    item's score in place and returns the sorted list.
  - The per-item loop body is `Score.ComputeScore`. Its keyword loop is
    `Score.AddKeywordBoosts`.
  - Both are proved against the specification function `Score.ViralScore`.
  - The sort is `Ranking.SortByScore`, an insertion sort. It is proved to be
    a permutation, sorted and stable. `Ranking.SortedIsUnique` shows that any
    stable descending sort gives the same list, so it agrees with Python's
    `sorted(..., reverse=True)`.
- **Greedy deduplicator** (`dedupe_headlines`, `app/dedupe.py`). The items
  are walked in order.
  - If an item's embedding succeeds, its vector is compared with the
    recorded vectors in order. The item is dropped at the first whose
    similarity is strictly above the threshold (default 0.85). When there is
    none, it is accepted and its vector recorded.
  - A recorded vector of another length makes `np.dot` raise `ValueError`
    inside the same `try` block. That item then takes the fallback branch,
    like one whose embedding raised.
  - In the fallback branch the item is kept when no accepted item has the
    same headline. No vector is recorded for it.
  - The embedder is an oracle: `embeddings[k]` is the outcome of the k-th
    call.
  - Cosine similarity is a function parameter about which nothing is
    assumed. It is only consulted on two vectors of the same length.
  - `Dedupe.DedupeHeadlines` is the loop. Its inner loop is
    `Dedupe.CompareWithSeen`, proved equal to the function `Dedupe.Compare`.
    The outer loop is proved equal to the left fold `Dedupe.Run`.
- **Retry decorator** (`async_retry`, `app/utils.py`). The wrapped operation
  is a function from the attempt number to an outcome. An outcome is a
  value, an `Exception` (caught and retried), or a `BaseException` that is
  not an `Exception`, such as `CancelledError` or `KeyboardInterrupt`.
  `except Exception` does not catch the last kind, so it leaves the wrapper
  at once.
  - Calls and sleeps are recorded in a log instead of being performed.
  - `Retry.AsyncRetry` is the loop. It is proved equal to the closed form
    `Retry.Expected`.
  - A negative `delay` makes `time.sleep` raise `ValueError` at the first
    sleep. This is the `SleepFailed` exit.
  - `retries <= 0` falls off the end of the wrapper, which returns `None`.

Other modelling choices:
- The current time, in seconds, is a parameter. The scorer reads the clock
  once per item, so `Score.ScoreItems` takes one reading per item,
  `clock[i]`. The readings are not assumed to increase.
- `published` is either a numeric timestamp or a string.
- A missing upvote count is `None` and counts as 0.
- `Items` holds the item record and the Python string operations the scorer
  uses:
  - `str.lower` (ASCII);
  - substring `in`;
  - `len(s.split())`, with the characters `str.isspace` accepts.

## Model

| member | source | states |
|---|---|---|
| `Items.Lower` | app/score.py:30 | `headline.lower()` keeps the length, maps each character on its own, and leaves no upper-case ASCII letter |
| `Items.LowerIdempotent` | app/score.py:30 | lowering an already lowered headline changes nothing |
| `Items.LowerAppend` | app/score.py:30 | lowering distributes over concatenation |
| `Items.ContainsIff` | app/score.py:34 | the recursive substring test `indicator in headline_lower` holds exactly when the keyword occurs at some position |
| `Items.ContainsTransitive` | app/score.py:33-35 | a keyword inside a matched keyword also matches, e.g. "gpt" inside "chatgpt" |
| `Items.ContainsAppend` | app/score.py:33-35 | text appended after a match keeps the match |
| `Items.WordCount` | app/score.py:61 | `len(s.split())` is at most the length, and is 0 exactly when every character is whitespace |
| `Items.WordCountAppend` | app/score.py:61 | appending text never lowers the word count |
| `Score.KeywordBoost` | app/score.py:10-35 | the keyword part never exceeds the table's total weight |
| `Score.KeywordBoostStep` | app/score.py:33-35 | one more table entry adds its weight exactly when its keyword occurs in the headline |
| `Score.AddKeywordBoosts` | app/score.py:33-35 | the keyword loop adds exactly the keyword boost of the whole table to its start value |
| `Score.ComputeScore` | app/score.py:29-68 | the per-item loop body computes exactly `ViralScore`: base, keywords, upvote tier, recency, structure, then `min` with the cap |
| `Score.ViralScore` | app/score.py:29-68 | every score lies in [50, 100] hundredths, i.e. [0.5, 1.0] |
| `Score.ScoreAll` | app/score.py:28-69 | the collected list has one scored item per input item, in input order, each scored against its own clock reading |
| `Score.ScoreItems` | app/score.py:5-72 | each array element gets its score, for the clock reading taken while it is scored, written in place, and nothing else changes; the result is the stable descending sort of the scored items |
| `Score.KeywordBoostOne` | app/score.py:33-35 | a matched keyword contributes its whole weight |
| `Score.KeywordBoostTwo` | app/score.py:33-35 | two matched keywords contribute both weights: matches accumulate |
| `Score.KeywordBoostShort` | app/score.py:33-35 | a headline shorter than every keyword earns no keyword boost |
| `Score.KeywordBoostMonotone` | app/score.py:33-35 | if every keyword matched in one headline also matches in another, the other's keyword boost is at least as high |
| `Score.ChatgptAlsoMatchesGpt` | app/score.py:12-35 | a headline containing "chatgpt" earns at least 0.2 + 0.15, because "gpt" matches too |
| `Score.AiMatchesInsideWords` | app/score.py:12-35 | "ai" matches inside words: a headline containing "maintain" earns at least 0.15 |
| `Score.KeywordsAreLong` | app/score.py:10-26 | every keyword of the table has at least two characters |
| `Score.ScoreMonotone` | app/score.py:29-68 | no lower keyword boost, word count, question mark, upvote tier or recency tier ever gives a lower score |
| `Score.StructureBoostMonotone` | app/score.py:61-65 | more words and a kept question mark never lower the structural boost |
| `Score.SumMonotone` | app/score.py:29-68 | the capped sum is monotone in each of its four boosts |
| `Score.AppendNeverLowers` | app/score.py:28-68 | appending text such as a keyword to a headline never lowers its score |
| `Score.PopularityTiers` | app/score.py:38-46 | the upvote boost is monotone in the count; a missing count equals 0 and earns nothing; exactly 1000 earns 0.2 and 1001 earns 0.25; 50 earns nothing and 51 earns 0.1 |
| `Score.RecencyTiers` | app/score.py:49-58 | a later timestamp never earns less; under 24 hours old earns 0.2; a string or missing `published` earns nothing |
| `Score.ScoringSetsOnlyViralScore` | app/score.py:68-69 | scoring changes only `viralScore`, and scoring again gives the same item |
| `Score.RankedOutput` | app/score.py:68-72 | the result is a permutation of the scored items, sorted non-increasing, stable on ties, every score in [0.5, 1.0] |
| `Score.TestScoresSortDesc` | tests/test_score.py:3-6 | headlines "A" and "B" with `published` "0" both score 0.5 and keep their input order, whatever the clock reads |
| `Score.OneLetterNoKeyword` | app/score.py:30-35 | a one-letter headline matches no keyword |
| `Score.OneLetterNoStructure` | app/score.py:61-65 | a one-letter headline other than "?" earns no structural boost |
| `Score.OneLetterScoresBase` | app/score.py:29-68 | a one-letter headline with no upvotes and a string timestamp scores exactly the base 0.5 |
| `Ranking.WithKey` | app/score.py:72 | selecting the items with one score never gives more items than there are |
| `Ranking.WithKeyMembers` | app/score.py:72 | the items selected for a score are items of the list with that score |
| `Ranking.WithKeyAppend` | app/score.py:72 | the items with a given score in a concatenation are those of each part, in order |
| `Ranking.Insert` | app/score.py:72 | inserting adds exactly one item |
| `Ranking.InsertPermutes` | app/score.py:72 | inserting adds the item and loses none |
| `Ranking.InsertSorted` | app/score.py:72 | inserting into a descending list keeps it descending |
| `Ranking.InsertStable` | app/score.py:72 | inserting places the item before every item with its score, as a stable sort of item-then-list does |
| `Ranking.SortByScore` | app/score.py:72 | the sort keeps the length |
| `Ranking.SortByScorePermutes` | app/score.py:72 | the sorted list is a permutation of the input |
| `Ranking.SortByScoreSorted` | app/score.py:72 | the sorted list is non-increasing in `viralScore` |
| `Ranking.SortByScoreStable` | app/score.py:72 | items with equal scores keep their input order |
| `Ranking.HeadIsMax` | app/score.py:72 | the first item of a sorted list has the highest score |
| `Ranking.HeadKeysAgree` | app/score.py:72 | two sorted lists with the same items per score start with the same score |
| `Ranking.SortedIsUnique` | app/score.py:72 | two lists that are both sorted and agree on each score's items in order are equal, so every stable descending sort gives `SortByScore` |
| `Dedupe.Pick` | app/dedupe.py:40 | the accepted items are the input items at the accepted positions, in order |
| `Dedupe.Compare` | app/dedupe.py:28-37 | the inner loop finds the item distinct exactly when every recorded vector has its length and a similarity at most the threshold |
| `Dedupe.CompareWithSeen` | app/dedupe.py:28-37 | the inner loop, with its `break` and with `np.dot` raising on vectors of different lengths, gives exactly the verdict of `Compare` |
| `Dedupe.FirstClashDecides` | app/dedupe.py:29-37 | the inner loop stops at the first recorded vector that is not apart: one of another length makes the `try` block raise, one too similar makes a duplicate |
| `Dedupe.Decide` | app/dedupe.py:22-43 | an item is found distinct exactly when its embedding succeeds and its vector is apart from every recorded vector |
| `Dedupe.Run` | app/dedupe.py:18-47 | accepted positions stay below the number of items seen, and there are never more recorded vectors than accepted items |
| `Dedupe.DedupeHeadlines` | app/dedupe.py:7-49 | the loop returns exactly the fold's accepted items and calls the embedder once per item, so never on empty input |
| `Dedupe.RunPrefix` | app/dedupe.py:21-47 | later items only append to the accepted items and vectors |
| `Dedupe.RunStep` | app/dedupe.py:21-47 | one item either leaves the state alone or appends its position, and its vector when it was found distinct |
| `Dedupe.StepKeeps` | app/dedupe.py:22-47 | an item is accepted exactly when it is found distinct, or when its `try` block raised and no accepted headline equals its own |
| `Dedupe.KeepDecision` | app/dedupe.py:21-47 | the same decision rule, stated for membership in the final result |
| `Dedupe.RunIncreasing` | app/dedupe.py:21-47 | accepted positions strictly increase |
| `Dedupe.DedupeIsSubsequence` | app/dedupe.py:18-49 | the result is a subsequence of the input, in input order, and no longer than it |
| `Dedupe.DedupeEmpty` | app/dedupe.py:9-10 | empty input gives empty output |
| `Dedupe.FirstAlwaysKept` | app/dedupe.py:21-47 | the first item is always kept, whichever branch it takes |
| `Dedupe.VectorsOfSemanticAccepts` | app/dedupe.py:39-47 | the recorded vectors are exactly those of the items found distinct, in order; an item kept by exact matching records nothing, even when its embedding succeeded |
| `Dedupe.RecordedVectorsSnoc` | app/dedupe.py:39-47 | accepting an item adds its vector to those of the semantic accepts exactly when it was found distinct |
| `Dedupe.RunVectorsApart` | app/dedupe.py:29-41 | after any prefix, every recorded vector has the length of each earlier one and is at most the threshold similar to it |
| `Dedupe.AcceptedPairsApart` | app/dedupe.py:29-41 | in the final state no recorded vector is more than the threshold similar to an earlier one, and all have one length |
| `Dedupe.ThresholdIsStrict` | app/dedupe.py:35 | a similarity exactly equal to the threshold does not make a duplicate |
| `Dedupe.TooSimilarDropped` | app/dedupe.py:29-41 | with working embeddings of one length, a second item more than the threshold similar to the first is dropped, whatever its headline |
| `Dedupe.MismatchedLengthFallsBack` | app/dedupe.py:22-47 | a second vector of another length sends its item to exact matching: dropped when the headline repeats, kept otherwise, with no vector recorded |
| `Dedupe.FirstOccurrences` | app/dedupe.py:46 | keeping first occurrences never lengthens the list |
| `Dedupe.FirstOccurrencesHeadlines` | app/dedupe.py:46 | keeping first occurrences loses no headline and invents none |
| `Dedupe.TakenAppend` | app/dedupe.py:46 | a headline is among `unique_items + [item]` exactly when it is among `unique_items` or is the item's own |
| `Dedupe.PickSnoc` | app/dedupe.py:47 | appending an accepted item extends the accepted items by that item |
| `Dedupe.HeadlineNewIsNotTaken` | app/dedupe.py:46 | "differs from every accepted headline" is the negation of `headline in [u["headline"] for u in unique_items]` |
| `Dedupe.AllFailedRun` | app/dedupe.py:43-47 | when every embedding fails, the accepted items after each prefix are that prefix's first occurrences and no vector is recorded |
| `Dedupe.AllFailuresKeepFirstOccurrences` | app/dedupe.py:43-47 | when every embedding fails, the result is the first item of each distinct headline, in input order |
| `Dedupe.EmbedAsCalled` | app/dedupe.py:24 | the call with `provider="local"` fails for every item |
| `Dedupe.DedupeAsWritten` | app/dedupe.py:24 | as written, the deduplicator keeps exactly the first occurrence of each headline |
| `Dedupe.AsWrittenMissesNearDuplicates` | app/dedupe.py:7-47 | at the default threshold 0.85, two different headlines that are near-duplicates in meaning are both kept as written, while working embeddings drop the second |
| `Dedupe.RetryRunsDedupeOnce` | app/dedupe.py:6-7 | under `@async_retry()` the deduplicator, which catches every `Exception` of the embedder and the similarity, runs once with no sleep |
| `Retry.FirstFinal` | app/utils.py:22-27 | the first attempt that ends the loop: every earlier attempt raised an `Exception`, and this one succeeds or raises something `except Exception` does not catch |
| `Retry.AsyncRetry` | app/utils.py:18-30 | the wrapper's loop produces exactly the exit and log of the closed form `Expected` |
| `Retry.FirstFinalIs` | app/utils.py:22-27 | the first attempt that ends the loop is determined by which attempts raise an `Exception` |
| `Retry.FirstFinalAfter` | app/utils.py:22-27 | if attempts up to `a` all raise an `Exception`, the loop ends at a later attempt |
| `Retry.RoundsShape` | app/utils.py:25-28 | `n` failed rounds are `n` calls and `n` sleeps of `delay`, alternating, starting with a call |
| `Retry.FinalCallShape` | app/utils.py:22-28 | a run with `n + 1` calls has `n` sleeps, one between each two calls and none after the last |
| `Retry.CallsAtMostRetries` | app/utils.py:18-22 | the operation is called at most `retries` times; with `retries <= 0` it is never called and the wrapper returns `None` |
| `Retry.FirstSuccessReturned` | app/utils.py:22-28 | `k` failures then a success return that success after `k + 1` calls and exactly `k` sleeps of `delay`, with nothing after the last call |
| `Retry.ExhaustedReraisesLast` | app/utils.py:25-28 | when every attempt fails, the last exception is re-raised unchanged after `retries` calls and `retries - 1` sleeps |
| `Retry.EscapeEndsRun` | app/utils.py:22-28 | an exception that `except Exception` does not catch passes through unchanged right after its call: `k` caught failures before it give `k + 1` calls and `k` sleeps, none after it |
| `Retry.FirstEscapeNotRetried` | app/utils.py:22-25 | such an exception on the first attempt gives one call and no sleep, whatever `retries` and `delay` are |
| `Retry.ErrorsNotClassified` | app/utils.py:25-28 | which `Exception`s are raised does not change the calls, the sleeps or the kind of exit: every caught exception is retried the same way |
| `Retry.TwoFailuresThenSuccess` | app/utils.py:18-28 | with the defaults, two failures then a success give three calls and two one-second sleeps, and the third result |

## Left out

- Floating point. Scores are exact hundredths.
  - Python adds float boosts, so scores that are equal in hundredths can differ in the last bit, depending on which boosts were added. The model treats them as ties, so their order in the stable sort can differ from the program's.
  - The `(now - t) / 3600` age is exact real division.
- `Score.RecencyTiers` does not model `datetime.fromtimestamp` rejecting out-of-range timestamps or NaN (an `OverflowError`, `OSError` or `ValueError`). Every real timestamp is accepted.
- `bool` values of `published` (Python counts them as `int`), and `score` values that are not numbers, are not modelled.
- `Items.Lower`: lower-cases ASCII letters only. Python's `str.lower` also maps non-ASCII letters, and can change the length (`'İ'`).
- `Ranking.Key`: the default of 0 for an item without `viralScore` is never used, because every sorted item has been scored.
- Aliasing: the returned list holds the same dict objects as the input. The model returns the scored values and writes the same values into the array.
- The conversion of non-dict items with `.dict()` (app/dedupe.py:12-16) is not modelled. Items are records.
- The diagnostic `print` in the fallback branch is not modelled.
- `embed_text` and its OpenAI call (app/utils.py:9-15) are an oracle of outcomes. Its exceptions are failures.
- Cosine similarity is a function parameter. The model takes `np.dot` to raise exactly when the two vectors differ in length. `np.linalg.norm` and the division do not raise. A NaN similarity from a zero-norm vector compares false with `>`, so it is not a duplicate. This is the same as a similarity at most the threshold.
- `async`/`await`: the wrapper and the deduplicator are modelled as sequential code.
- `time.sleep` is an entry in the log.
- The `viralScore >= threshold` filter in app/main.py is not part of this model.
- app/scrape.py, app/publish.py, app/generate.py and app/__init__.py are not part of this model.

## Findings

| source | as written | input that shows it | evidently intended | confidence | as-written member | corrected member |
|---|---|---|---|---|---|---|
| app/dedupe.py:24 | `embed_text(item["headline"], provider="local")`, but `embed_text` (app/utils.py:9) takes only `text`, so every call raises `TypeError` and the exact-match fallback is always taken | two items with headlines "AI breakthrough announced" and "Breakthrough in AI announced" whose embeddings are more than 0.85 similar: both are kept | call the embedder with the headline only, so near-duplicates in meaning are dropped and accepted vectors stay pairwise apart | not executed | `Dedupe.AsWrittenMissesNearDuplicates` | `Dedupe.AcceptedPairsApart` |
