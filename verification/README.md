# StreamingRec in Dafny

StreamingRec is an evaluation framework for streaming news recommenders. It reads item
(article) and click files, cuts each user's clicks into sessions, splits the event stream
into a training and a test part, and replays the test part event by event for each
algorithm. An article event trains the algorithm on the new item. A click event asks the
algorithm for recommendations, trains it on the click, and scores the recommendations with
the metrics against the rest of the user's session. Metric averages are written as result
lines, and a separate tool merges result files into one sheet.

This project models the deterministic core of that framework as pure Dafny functions over
immutable datatypes, and proves what the code promises about them.

## What is modelled

- **Events and codecs** (`events.dfy`, `itemcsv.dfy`, `transactioncsv.dfy`, `plistacsv.dfy`,
  `javatext.dfy`, `javanum.dfy`): items, clicks and the raw Plista records, with their CSV
  writers and readers. Java's `String.split`, `trim`, integer printing, integer parsing of
  ASCII digits, and truncating division are written out, and the round trips are proved.
- **Replay construction** (`sessions.dfy`, `replay.dfy`, `splitter.dfy`, `util.dfy`,
  `sorting.dfy`): the session extractor, the work packages with their causal sessions and
  ground truth, the session-length filter, the duplicate-name guard, the train/test split,
  the stable value sort, and the ETA arithmetic.
- **Training and replay loop** (`training.dfy`, `wrapper.dfy`): the training-interval
  buffer of `Algorithm`, and the dispatch loop of `AlgorithmWrapper`. The loop model covers
  the progress percentage, runtime assignment, the result line and the progress aggregation.
- **Metrics** (`metrics.dfy`, `stattable.dfy`): Precision/Recall, MRR, Coverage, NbRecItems,
  F1, MeanF1 and Runtime, with samples as exact `real` ratios, and the layout of the
  statistical-test table.
- **Data structures** (`sparse.dfy`, `datamgmt.dfy`, `ranking.dfy`): the sparse byte matrix
  with its entry counter, the index and popularity bookkeeping of the matrix-factorisation
  recommender, and count-descending rankings.
- **Algorithms** (`popular.dfy`, `recent.dfy`, `postfilter.dfy`, `cooccurrence.dfy`,
  `patterns.dfy`, `knn.dfy`, `knearest.dfy`, `itemcf.dfy`, `keywordjaccard.dfy`,
  `itemsim.dfy`, `jaccard.dfy`): the counters, sliding windows and most-recently-used
  lists; the four post-filters; session co-occurrence; the sequential-pattern trees; and the
  Jaccard session and item neighbourhoods.
- **Tools** (`reader.dfy`, `resultmerger.dfy`): the de-duplicating reader of the filtered
  data files, and the CSV result merger.

## Conventions

- Exceptions are values. An operation that can throw returns a `Result`, and the error
  carries the Java exception's name (`NullPointerException`, `IndexOutOfBoundsException`,
  `NumberFormatException`, ...). Most contracts state exactly when the error occurs. The
  training passes `Knn.Train`, `KNearest.Train` and `CoOccurrence.Train`, and the line
  loop `ResultMerger.Merge`, state only what success implies; `CoOccurrence.Evict` names
  the exception of a failure without stating exactly when one occurs.
- Hash iteration order is a parameter. Where the code iterates a hash set or hash map
  and the order matters, the order is an explicit sequence that enumerates the keys
  (`Seqs.Enumerates`). Ties in sorts are broken in that order, as Java's stable sort does.
- Clicks and items are values. Java compares clicks by reference in `getSession`, in hash
  sets of transactions and in KNN's session keys; the model compares them by value.
- Dates are parameters. `SimpleDateFormat`, `DateUtils.isSameDay` and `DecimalFormat`
  become function parameters (`ItemCsv.DateCodec`, the same-day rule of the session
  extractor, the number formatter). So do the p-value of the statistical tests and the
  publisher pattern of the result merger.
- Numbers are exact. Ids and timestamps are `int`. Metric samples are `real`, and a mean
  of no samples (NaN in Java) is `None`. Two places rely on integer width and have it
  written out: `Long.hashCode` folds a 64-bit two's-complement value to 32 bits, and the
  keyword weights of `Item`, summed with `addTo`, wrap around at 32 bits. Elsewhere
  integers are unbounded.
- Several algorithm classes override `recommend` even though `Algorithm.recommend` is
  `final`, and do not define `recommendInternal`. For each such class, the model takes the
  class's own scoring routine as its recommendation function and does not model the
  dispatch between the two.
- Code that does something other than what its comments or the design describe is modelled
  as written, and a lemma exhibits the behaviour:
  - `KNearestNeighbor` weighs positions with the integer division `1 / (i + 1)`, so only the
    most recent item counts (`KNearest.DecayTail`).
  - Its neighbour filter `!= 0 || != 1` accepts every session (`KNearest.Accept`).
  - `FastSessionCoOccurrence` guards self-pairs with a reference comparison of strings that
    never holds, so self-pairs are counted twice (`CoOccurrence.SelfPairCountsTwice`).
  - `SequentialSubPatternAll` overwrites a candidate's score instead of adding to it, so the
    last start wins (`Patterns.ScoreIsLatest`). Its walk skips unmatched clicks rather than
    stopping.
  - MRR depends on the iteration order of the ground-truth set (`Metrics.MrrDependsOnOrder`).
  - KNN scores `k + 1` neighbours (`Knn.Visited`).
  - With 100 or fewer work packages, `AlgorithmWrapper` never reports progress.
  - The reader's duplicate scan stops at the first kept click a minute older, even when an
    older kept click is a twin (`Reader.ScanStopsAtFirstOldClick`).
  - The item date pattern uses a 12-hour clock without an AM/PM marker, so the item round
    trip restores `createdAt` only through the date codec.

## Model

| member | source | states |
|---|---|---|
| Events.LongHashCode | src/main/java/tudo/streamingrec/data/Item.java:116-119 | an item's hash code (`Long.hashCode` of its id) is always a signed 32-bit value |
| Events.SameItemConsistent | src/main/java/tudo/streamingrec/data/Item.java:101-119 | items are equal exactly when their ids agree; equal items hash alike; item equality is reflexive, symmetric and transitive |
| Events.IntRangeHash | src/main/java/tudo/streamingrec/data/Item.java:116-119 | a long id within the 32-bit range hashes to itself when non-negative and to its complement -1 - v when negative |
| Events.HighHalfHash | src/main/java/tudo/streamingrec/data/Item.java:116-119 | a non-negative long whose low 32 bits are zero hashes to its high half |
| Events.XorOnes | src/main/java/tudo/streamingrec/data/Item.java:116-119 | the xor with the all-ones high half of a negative long complements the low half |
| ItemCsv.AddTo | src/main/java/tudo/streamingrec/data/Item.java:62 | adding a keyword weight adds to the weight already stored (0 if none) and leaves the other keywords alone; without overflow the sum is exact |
| ItemCsv.KeywordsRoundTrip | src/main/java/tudo/streamingrec/data/Item.java:57-87 | reading back the keyword field gives the original map, whatever the iteration order used to write it, if the map is non-empty, its keys hold no `-`, `#` or `,`, and its weights are non-negative ints |
| ItemCsv.ParseItemFields | src/main/java/tudo/streamingrec/data/Item.java:44-65 | a line parses exactly when it has at least five fields, the id, date, publisher and, when present, the category parse and, when present, the keywords decode; publisher, date, id, url and title come from fields 0-4; the category is read only with more than 5 fields (0 otherwise); the text is field 6 when present, and the keywords are the decoded field 7 when present |
| ItemCsv.WritableFields | src/main/java/tudo/streamingrec/data/Item.java:70-91 | no field written for an item with comma-free text, url, title and date contains a comma |
| ItemCsv.ItemRoundTrip | src/main/java/tudo/streamingrec/data/Item.java:44-91 | parsing the CSV line an item writes gives the item back; only the date changes, to what the date pattern reads from its own output |
| ItemCsv.ItemRoundTripNoKeywords | src/main/java/tudo/streamingrec/data/Item.java:51-91 | an item with null keywords writes an empty last field, which the split drops, so it reads back with null keywords (its text must be non-empty) |
| ItemCsv.EmptyKeywordsReadBackNull | src/main/java/tudo/streamingrec/data/Item.java:74-91 | an empty keyword map is written like null keywords and reads back as null |
| ItemCsv.NullTextReadsBackAsWord | src/main/java/tudo/streamingrec/data/Item.java:89-91 | a null text is written as `null` and reads back as the four-letter text "null" |
| TransactionCsv.ParseClick | src/main/java/tudo/streamingrec/data/Transaction.java:30-35 | a parsed click takes item id, user id and timestamp from fields 0-2 (new layout) or 2-4 (old layout); an item id missing from the item map gives a null item |
| TransactionCsv.ClickRoundTrip | src/main/java/tudo/streamingrec/data/Transaction.java:30-49 | a click with an item, written and read back in the new layout with an item map that knows its item, is restored exactly |
| TransactionCsv.NullItemUnreadable | src/main/java/tudo/streamingrec/data/Transaction.java:30-49 | a click without an item is written with the id `null`, so the line cannot be read back in either layout: in the new one the id does not parse, in the old one the three written fields are too few |
| TransactionCsv.OldLayoutSkipsTwoFields | src/main/java/tudo/streamingrec/data/Transaction.java:30-35 | the old layout ignores the first two fields and reads the click from the next three |
| TransactionCsv.ClickEventTime | src/main/java/tudo/streamingrec/data/Transaction.java:54-56 | a click's sorting time is its timestamp |
| PlistaCsv.ParseHead | src/main/java/tudo/streamingrec/data/loading/TmpPlistaTransaction.java:42-57 | the publisher comes from field 0; the item is looked up only when field 2 is not `null`, the category read only when field 1 is not `null`; a found item with category 0 takes the line's category in the shared map, otherwise the record takes the item's category |
| PlistaCsv.ParseKeepsCategorised | src/main/java/tudo/streamingrec/data/loading/TmpPlistaTransaction.java:51-57 | a parse changes a stored item at most in its category, and leaves an item whose category is not 0 untouched |
| PlistaCsv.ParseTail | src/main/java/tudo/streamingrec/data/loading/TmpPlistaTransaction.java:58-67 | cookie and timestamp come from fields 3 and 4; keywords exist exactly when there are more than five fields; the item map is unchanged |
| PlistaCsv.PlistaToClick | src/main/java/tudo/streamingrec/data/loading/TmpPlistaTransaction.java:106-112 | a consistent record written and read back converts (`ToClick`) to the click with the record's item, its timestamp and its cookie as user id, and the click's item is the one the item map stores under its id |
| PlistaCsv.PlistaRoundTrip | src/main/java/tudo/streamingrec/data/loading/TmpPlistaTransaction.java:42-96 | a consistent record, written and read back, is restored and leaves the item map unchanged |
| Sessions.AddClick | src/main/java/tudo/streamingrec/data/session/SessionExtractor.java:33-67 | a click joins its user's latest session when the rule says it continues (gap at most the threshold, or the same day), otherwise opens a new session; a first click opens the user's first session; other users are untouched; the returned session ends with the click and stays valid (no empty session, no user without one) |
| Sessions.GetSession | src/main/java/tudo/streamingrec/data/session/SessionExtractor.java:74-88 | finds a session exactly when one of the user's sessions holds the click, and then returns the first such session |
| Sessions.AddClickStored | src/main/java/tudo/streamingrec/data/session/SessionExtractor.java:33-67 | one click appends itself to its user's clicks, read session after session, and changes no other user's clicks |
| Sessions.SessionsPartitionClicks | src/main/java/tudo/streamingrec/data/session/SessionExtractor.java:33-67 | after any click sequence, a user's sessions read one after another are exactly that user's clicks in feeding order |
| Sessions.FedClickFound | src/main/java/tudo/streamingrec/data/session/SessionExtractor.java:74-88 | every click fed to the extractor is found again by `getSession` |
| Replay.FirstDuplicate | src/main/java/tudo/streamingrec/StreamingRec.java:152-163 | reports no duplicate exactly when the algorithm names are pairwise distinct; otherwise returns the first name that repeats an earlier one (every name before its second occurrence is distinct) |
| Replay.CheckNames | src/main/java/tudo/streamingrec/StreamingRec.java:152-168 | start-up goes on to read the data exactly when no two algorithms share a name |
| Replay.FilterShortSessions | src/main/java/tudo/streamingrec/StreamingRec.java:171-205 | with a limit of 0 or less the clicks are unchanged; with a positive limit and no clicks the average session length divides by zero and an ArithmeticException is thrown; otherwise a click survives exactly when every session a fresh extractor puts it in has more than `limit` clicks, and the survivors keep their order |
| Replay.GroundTruth | src/main/java/tudo/streamingrec/StreamingRec.java:434-453 | the ground truth is the item ids of the click's whole session, as the evaluation extractor sees it, minus the item ids of the session so far; it never shares an item with the session so far; a missing session or item fails with a null dereference |
| Replay.GetWorkPackage | src/main/java/tudo/streamingrec/StreamingRec.java:405-456 | an item is wrapped unchanged; a click is added to the session extractor and its package holds the returned session (which ends with the click) and the user's history including the click; a ground truth exists exactly when an evaluation extractor is given; only that ground truth can fail |
| Replay.ClickPackageLooksBack | src/main/java/tudo/streamingrec/StreamingRec.java:405-456 | a click package holds only clicks fed so far; its history is exactly the user's clicks so far, in order; the builder goes on tracking the fed clicks |
| Replay.TestGroundTruthExists | src/main/java/tudo/streamingrec/StreamingRec.java:304-331 | with the evaluation extractor fed every test click, every test click whose items are all known gets a ground truth, disjoint from its session so far |
| Replay.TrainingPackages | src/main/java/tudo/streamingrec/StreamingRec.java:289-296 | one training package per training click, in order, each for its own click; packages built without an evaluation extractor cannot fail |
| Replay.AddMetricToMaps | src/main/java/tudo/streamingrec/StreamingRec.java:468-484 | the metric is recorded under its algorithm and appended to its name's list and its algorithm's list; other lists are unchanged; new keys go to the end of the linked maps' key order |
| Replay.AddMetricKeepsAgreement | src/main/java/tudo/streamingrec/StreamingRec.java:276-287 | adding a fresh metric keeps the three lookup maps in agreement: a metric is listed under an algorithm exactly when it is recorded with that algorithm |
| Splitter.AllEvents | src/main/java/tudo/streamingrec/data/splitting/DataSplitter.java:56-66 | the merged events are ordered by ascending event time, are a permutation of the items followed by the clicks, and the sort is stable: the events of any one time come in the order of the items-then-clicks list |
| Splitter.SplitByCount | src/main/java/tudo/streamingrec/data/splitting/DataSplitter.java:88-93 | count mode succeeds exactly when the truncated cut `(int)(n * threshold)` lies in [0, n]; the training part is that many leading events and the test part the rest |
| Splitter.SplitByTime | src/main/java/tudo/streamingrec/data/splitting/DataSplitter.java:73-87 | time mode fails on an empty event list; otherwise an event trains exactly when it is strictly before the cut-off time and is tested exactly when it is not |
| Splitter.EarlyEventsArePrefix | src/main/java/tudo/streamingrec/data/splitting/DataSplitter.java:79-87 | on a time-ordered list the events before the cut-off form a prefix and the others the rest |
| Splitter.SplitKeepsOrder | src/main/java/tudo/streamingrec/data/splitting/DataSplitter.java:55-100 | in both modes the training part followed by the test part is the time-ordered event list, so no test event is earlier than a training event |
| Util.ExtractEventTypes | src/main/java/tudo/streamingrec/util/Util.java:158-167 | the item list is extended by exactly the events' items and the click list by exactly their clicks, each in event order |
| Util.EventsPartition | src/main/java/tudo/streamingrec/util/Util.java:158-167 | every event lands in exactly one of the two lists: an event is an item of the first list iff it is an item event, a click of the second iff it is a click event, and the lengths add up |
| Util.ExtractUndoesMerge | src/main/java/tudo/streamingrec/util/Util.java:158-167 | separating event types undoes merging items and clicks into one event list: the item list gets exactly the items and the click list exactly the clicks, in order |
| Util.SortByValue | src/main/java/tudo/streamingrec/util/Util.java:178-196 | the result holds each entry of the map once, ordered by value (ascending or descending), and keeps the map's iteration order among equal values (a stable sort) |
| Util.SortByValueAndGetKeys | src/main/java/tudo/streamingrec/util/Util.java:208-226 | the output list is kept as a prefix; after it come exactly the map's keys, in value order |
| Util.SortedKeysDistinct | src/main/java/tudo/streamingrec/util/Util.java:208-226 | the keys appended by `sortByValueAndGetKeys` are pairwise distinct |
| Util.Ranked | src/main/java/tudo/streamingrec/util/Util.java:259-262 | the keys of the map, each once, by non-increasing value |
| Util.EtaParts | src/main/java/tudo/streamingrec/util/Util.java:234-239 | for a non-negative duration: minutes and seconds are below 60 and the three parts account for the duration up to less than a second; a negative duration truncates toward zero |
| Util.EtaReadsBack | src/main/java/tudo/streamingrec/util/Util.java:234-248 | the printed duration, split on spaces, gives six fields: hours, `h`, minutes, `m`, seconds, `s`; the three numbers add up to the whole seconds of the input |
| StatTable.Distinctly | src/main/java/tudo/streamingrec/util/Util.java:54 | the distinct algorithms: each value of the input once, in order of first appearance |
| StatTable.ByAlgorithm | src/main/java/tudo/streamingrec/util/Util.java:69-70 | a successful grouping maps every metric's algorithm to that metric and holds nothing else |
| StatTable.ByAlgorithmFails | src/main/java/tudo/streamingrec/util/Util.java:69-70 | the grouping by algorithm throws exactly when two metrics of the list share an algorithm |
| StatTable.Cell | src/main/java/tudo/streamingrec/util/Util.java:82-101 | a cell is empty on the diagonal and when the two sample lists differ in length (the caught dimension mismatch); otherwise it is the formatted p-value; it throws exactly when an off-diagonal algorithm lacks the metric (NullPointerException) or the two lists have equal length below two: NoDataException for none, NumberIsTooSmallException for one |
| StatTable.FewSamplesThrow | src/main/java/tudo/streamingrec/evaluation/metrics/HypothesisTestableMetric.java:31-32 | when two different algorithms have a metric with equally many samples, fewer than two, the metric's whole block throws, since the paired t-test's exception is not the caught one |
| StatTable.BlockShape | src/main/java/tudo/streamingrec/util/Util.java:64-107 | in a block, the header lists the distinct algorithms of all metrics in order of first appearance; there is one row per header entry; each row is as long as the header and empty on the diagonal |
| StatTable.MissingMetricThrows | src/main/java/tudo/streamingrec/util/Util.java:79-101 | when an algorithm of the run lacks a metric that another algorithm reports, that metric's block throws instead of printing |
| StatTable.ExecuteStatisticalTests | src/main/java/tudo/streamingrec/util/Util.java:49-109 | the output is the rendered blocks one after another, one per metric name; it fails exactly when one of the blocks fails |
| Training.Train | src/main/java/tudo/streamingrec/algorithms/Algorithm.java:50-72 | without a training interval the data goes to the training routine at once; otherwise it is buffered, and the whole buffer goes out as one batch exactly when the newest buffered click is at least the interval's whole minutes past the last batch, after which the buffers are empty and the last training time is that click's time |
| Training.TrainKeepsWaiting | src/main/java/tudo/streamingrec/algorithms/Algorithm.java:58-71 | a buffering algorithm never keeps a buffer that is already due, and a call without clicks never hands over a batch, so items alone wait for the next batch |
| Training.TrainStepConserves | src/main/java/tudo/streamingrec/algorithms/Algorithm.java:50-72 | one call hands over, then keeps buffered, exactly the old buffer followed by the new data |
| Training.ItemsConserved | src/main/java/tudo/streamingrec/algorithms/Algorithm.java:50-72 | over any sequence of calls, the items handed over followed by the items still buffered are exactly the items passed in, in order: nothing is lost, duplicated or reordered |
| Training.ClicksConserved | src/main/java/tudo/streamingrec/algorithms/Algorithm.java:50-72 | over any sequence of calls, the clicks handed over followed by the clicks still buffered are exactly the clicks passed in, in order |
| Training.NoIntervalPassesThrough | src/main/java/tudo/streamingrec/algorithms/Algorithm.java:53-56 | without a training interval every call is handed over unchanged and the buffers stay empty |
| Training.SubstitutionIdempotent | src/main/java/tudo/streamingrec/algorithms/Algorithm.java:100-109 | the whole-history substitution `ForRecommendation` is idempotent: applying it twice gives the same click data as once |
| Metrics.Avg | src/main/java/tudo/streamingrec/evaluation/metrics/Metric.java:78-84 | the mean is absent (NaN) exactly for no samples; otherwise it times the sample count is the sample sum |
| Metrics.AvgBounds | src/main/java/tudo/streamingrec/evaluation/metrics/Metric.java:78-84 | the mean of samples within [lo, hi] lies within [lo, hi] |
| Metrics.AvgPermutation | src/main/java/tudo/streamingrec/evaluation/metrics/Metric.java:78-84 | the mean does not depend on the order in which the samples were recorded |
| Metrics.Top | src/main/java/tudo/streamingrec/evaluation/metrics/PrecisionOrRecall.java:34 | the first `realK = min(k, size)` recommendations, as a prefix of the list; none when k is not positive |
| Metrics.EvaluatePR | src/main/java/tudo/streamingrec/evaluation/metrics/PrecisionOrRecall.java:21-68 | no or empty ground truth records nothing; no recommendations record 0; otherwise it throws exactly when the top-k list repeats an id or the kind is undefined, and records one Precision or Recall sample |
| Metrics.PRSample | src/main/java/tudo/streamingrec/evaluation/metrics/PrecisionOrRecall.java:44-67 | a sample lies in [0, 1]: the relevant ids among the top-k over k (Precision) or over the number of relevant ids (Recall) |
| Metrics.PRSampleFromLoop | src/main/java/tudo/streamingrec/evaluation/metrics/PrecisionOrRecall.java:45-55 | the nested counting loop gives the number of hit positions of the top list, whatever the ground-truth set's iteration order |
| Metrics.HitsWithin | src/main/java/tudo/streamingrec/evaluation/metrics/PrecisionOrRecall.java:36-55 | in a duplicate-free top list the hits are the ids both recommended and relevant, no more than the list length or the number of relevant ids |
| Metrics.MrrSample | src/main/java/tudo/streamingrec/evaluation/metrics/MRR.java:32-46 | the sample lies in [0, 1]; it is 0 exactly when no relevant id is among the top recommendations; otherwise it is the reciprocal rank, among the top list, of the first relevant id in the set's iteration order that is recommended |
| Metrics.EvaluateMrr | src/main/java/tudo/streamingrec/evaluation/metrics/MRR.java:18-47 | no sample without ground truth; otherwise exactly one sample, the reciprocal rank (`MrrSample`) of the first ground-truth id, in iteration order, found among the top-k recommendations, and 0 without recommendations; it lies in [0, 1] and is 0 exactly when the top-k list and the ground truth share no id; earlier samples are kept |
| Metrics.MrrDependsOnOrder | src/main/java/tudo/streamingrec/evaluation/metrics/MRR.java:37-44 | the sample depends on the ground-truth set's iteration order and is not the best rank: for the top list [5, 7] and relevant ids {5, 7}, one order gives 1 and the other 1/2 |
| Metrics.EvaluateCoverage | src/main/java/tudo/streamingrec/evaluation/metrics/Coverage.java:20-26 | every call adds one sample and keeps the earlier ones; the sample is the list length when the list is shorter than k, and k exactly when it has at least k entries; for a non-negative k it is the number of recommendations the top-k list holds |
| Metrics.CoverageResult | src/main/java/tudo/streamingrec/evaluation/metrics/Coverage.java:28-32 | the result exists exactly when there are samples and k is not 0 |
| Metrics.CoverageOneIffFull | src/main/java/tudo/streamingrec/evaluation/metrics/Coverage.java:20-32 | coverage lies in [0, 1] and is 1 exactly when every evaluated list had at least k entries |
| Metrics.EvaluateNb | src/main/java/tudo/streamingrec/evaluation/metrics/NbRecItems.java:18-22 | the first k recommendations join the set of distinct recommended ids and nothing else does; a negative k throws |
| Metrics.NbMonotoneIdempotent | src/main/java/tudo/streamingrec/evaluation/metrics/NbRecItems.java:18-28 | the distinct-item count never decreases, and evaluating the same list again changes nothing |
| Metrics.HarmonicBetween | src/main/java/tudo/streamingrec/evaluation/metrics/F1.java:48-55 | the harmonic mean of non-negative precision and recall is symmetric and lies between the two |
| Metrics.EvaluateDelegates | src/main/java/tudo/streamingrec/evaluation/metrics/F1.java:23-39 | the delegates are created on the first evaluation as a Precision and a Recall with the metric's k; later evaluations keep their kinds and k |
| Metrics.DelegatesPair | src/main/java/tudo/streamingrec/evaluation/metrics/MeanF1.java:25-41 | Precision and Recall with the same k record a sample under the same conditions, so their sample lists stay the same length |
| Metrics.F1Result | src/main/java/tudo/streamingrec/evaluation/metrics/F1.java:41-59 | F1 throws before any evaluation (null delegates); it is NaN when either mean is NaN, and otherwise the harmonic mean of the mean Precision and the mean Recall |
| Metrics.PairwiseF1 | src/main/java/tudo/streamingrec/evaluation/metrics/MeanF1.java:63-76 | one F1 value per Precision sample, the harmonic mean of the Precision and Recall samples at the same index |
| Metrics.MeanF1Results | src/main/java/tudo/streamingrec/evaluation/metrics/MeanF1.java:43-78 | the per-sample F1 list is computed once and kept; the result is its mean; a missing delegate or a Recall list shorter than the Precision list throws |
| Metrics.MeanF1Cached | src/main/java/tudo/streamingrec/evaluation/metrics/MeanF1.java:54-78 | once MeanF1 has produced its result, later evaluations do not change it |
| Metrics.SetRuntime | src/main/java/tudo/streamingrec/evaluation/metrics/Runtime.java:32-48 | an unset resolution throws; otherwise the stored value is the duration in the configured unit (value times milliseconds per unit is the input), and a non-finite duration stays non-finite |
| Metrics.SetK | src/main/java/tudo/streamingrec/evaluation/metrics/Metric.java:53-55 | sets the cut-off of every metric kind that has one; name and algorithm are unchanged |
| Metrics.Evaluate | src/main/java/tudo/streamingrec/evaluation/metrics/Metric.java:38-39 | evaluating keeps name, algorithm and k; Runtime ignores the list; MRR, Coverage and Runtime never fail; MeanF1 keeps its cached results |
| Metrics.GetResults | src/main/java/tudo/streamingrec/evaluation/metrics/Metric.java:46 | reading results changes only a MeanF1 metric (its cache); only F1 and MeanF1 can throw; Runtime returns its stored value, non-finite included |
| Wrapper.EvaluateAll | src/main/java/tudo/streamingrec/AlgorithmWrapper.java:120-127 | every metric evaluates the same recommendation list in list order; the run continues exactly when no metric throws, and otherwise the first metric that throws decides the error, rethrown with the algorithm's name and ": " in front |
| Wrapper.Step | src/main/java/tudo/streamingrec/AlgorithmWrapper.java:99-128 | an article package trains on that article alone; a click package asks for recommendations, then trains on that click alone, then evaluates the list just recommended against the package's ground truth; an exception of the algorithm's training or recommending propagates unchanged, and otherwise the step fails exactly when the evaluation fails |
| Wrapper.RunQueue | src/main/java/tudo/streamingrec/AlgorithmWrapper.java:91-129 | packages run in queue order, the metric list keeps its length, the trace only grows, and when the algorithm never throws a failure carries the algorithm's name as prefix |
| Wrapper.Run | src/main/java/tudo/streamingrec/AlgorithmWrapper.java:79-86 | the first call of a run is one bulk training call on the training items and clicks, and an exception of that call ends the run unchanged |
| Wrapper.RunTrace | src/main/java/tudo/streamingrec/AlgorithmWrapper.java:74-129 | a completed run trains first on the bulk training data and then on exactly one batch per package in queue order, and asks for recommendations exactly once per click, in queue order |
| Wrapper.RunQueueEvaluations | src/main/java/tudo/streamingrec/AlgorithmWrapper.java:112-127 | every evaluation in the trace scores the list recommended for the same click, with that click's training call between the two |
| Wrapper.Percentage | src/main/java/tudo/streamingrec/AlgorithmWrapper.java:93 | the progress percentage lies in 0..100 |
| Wrapper.PercentageTruncates | src/main/java/tudo/streamingrec/AlgorithmWrapper.java:93 | the percentage is the share of the queue done after package i, times 100, truncated to a whole number |
| Wrapper.ProgressReports | src/main/java/tudo/streamingrec/AlgorithmWrapper.java:90-98 | with more than 100 packages each of 0, 1, …, 100 is reported once, in order; with 100 packages or fewer the first percentage already exceeds 0, so nothing is ever reported |
| Wrapper.FillRuntime | src/main/java/tudo/streamingrec/AlgorithmWrapper.java:132-142 | a runtime metric receives, in its own unit, the bulk training time, the in-between training time, or the test time divided by the queue size according to its type, a non-finite value exactly when a test runtime has an empty queue, and throws exactly when its resolution is unset; other metrics are untouched |
| Wrapper.MeasuredMillis | src/main/java/tudo/streamingrec/AlgorithmWrapper.java:132-142 | the milliseconds a runtime metric is given: the training time, the in-between training time, or the test time per queued package, non-finite exactly for a test runtime over an empty queue |
| Wrapper.FillRuntimes | src/main/java/tudo/streamingrec/AlgorithmWrapper.java:131-143 | every metric of the list is filled in, in order, and the pass throws exactly when some runtime metric has no resolution, whatever the queue size |
| Wrapper.ResultLineIsJoin | src/main/java/tudo/streamingrec/AlgorithmWrapper.java:180-188 | the result line is the algorithm name followed by each metric's name and formatted value, every field followed by ';' |
| Wrapper.ResultLineSplits | src/main/java/tudo/streamingrec/AlgorithmWrapper.java:180-188 | splitting a result line on ';' gives back the name and every metric name and value when no field contains ';' |
| Wrapper.WriteResult | src/main/java/tudo/streamingrec/AlgorithmWrapper.java:175-188 | reads every metric's result in order, throwing exactly when one of them throws, and formats them into the result line |
| Wrapper.Report | src/main/java/tudo/streamingrec/AlgorithmWrapper.java:267-271 | one report of a percentage raises its count by one, adding it at 1 when absent, and leaves every other count alone |
| Wrapper.ReportNewcomer | src/main/java/tudo/streamingrec/AlgorithmWrapper.java:263-271 | an algorithm's first report, 0, turns the counter of the current reporters into the counter of those reporters plus the newcomer |
| Wrapper.ReportAdvance | src/main/java/tudo/streamingrec/AlgorithmWrapper.java:263-271 | an algorithm moving from p - 1 to p reports p, and the counter becomes the counter of the updated reporters |
| Wrapper.CounterOfTallies | src/main/java/tudo/streamingrec/AlgorithmWrapper.java:263-271 | the counter built from the reporters' latest percentages holds, for each percentage, how many reporters have reached it |
| Wrapper.ScanInvariant | src/main/java/tudo/streamingrec/AlgorithmWrapper.java:276-289 | scanning the counter from 100 down to i accumulates the sum and the number of the latest percentages at least i |
| Wrapper.AggregateCountsReporters | src/main/java/tudo/streamingrec/AlgorithmWrapper.java:263-296 | the accumulated progress is the sum of the reporters' latest percentages and the algorithms still in training are those that have not reported |
| Wrapper.RemainingMs | src/main/java/tudo/streamingrec/AlgorithmWrapper.java:299-307 | the remaining time is never negative while progress is within range, and is zero once every algorithm is at 100 |
| Popular.AddTo | src/main/java/tudo/streamingrec/algorithms/MostPopular.java:26 | the item's count moves by delta, a missing item starting at 0, and every other item's count stays as it was |
| Popular.Train | src/main/java/tudo/streamingrec/algorithms/MostPopular.java:22-28 | training succeeds exactly when every click names an item and otherwise throws a NullPointerException; no counted item is forgotten |
| Popular.TrainCounts | src/main/java/tudo/streamingrec/algorithms/MostPopular.java:22-28 | after training each item's count grew by exactly its number of clicks in the batch, and an item is counted exactly when it was before or was clicked |
| Popular.Recommend | src/main/java/tudo/streamingrec/algorithms/MostPopular.java:30-33 | every counted item appears exactly once, by non-increasing click count |
| Popular.MostClickedFirst | src/main/java/tudo/streamingrec/algorithms/MostPopular.java:22-33 | trained from scratch, the list names only clicked items and never puts an item before one clicked more often |
| Popular.Evict | src/main/java/tudo/streamingrec/algorithms/RecentlyPopular.java:31-37 | eviction drops clicks from the front only, until the newest and oldest remaining clicks are at most filterTime apart, stopping at the first click it can keep; an emptied window is an index error |
| Popular.EvictCounts | src/main/java/tudo/streamingrec/algorithms/RecentlyPopular.java:31-37 | eviction uncounts exactly the item clicks it drops, clicks without an item being dropped uncounted |
| Popular.TrainRecent | src/main/java/tudo/streamingrec/algorithms/RecentlyPopular.java:25-39 | training throws on a click without an item, otherwise leaves a window that is a suffix of the old window plus the batch and spans at most filterTime |
| Popular.InitialCountsWindow | src/main/java/tudo/streamingrec/algorithms/RecentlyPopular.java:19-22 | a fresh instance counts exactly the clicks of its (empty) window |
| Popular.TrainRecentCounts | src/main/java/tudo/streamingrec/algorithms/RecentlyPopular.java:25-39 | training keeps every item's count equal to its number of clicks in the window |
| Popular.RecentRanking | src/main/java/tudo/streamingrec/algorithms/RecentlyPopular.java:38 | the recommendation ranks items by their number of clicks in the window, items whose clicks all left the window included |
| Recent.MoveToFront | src/main/java/tudo/streamingrec/algorithms/MostRecent.java:24-27 | the id leads the list, no id is lost or added, and a list without repeats stays without repeats, the id's old entry removed |
| Recent.MoveAll | src/main/java/tudo/streamingrec/algorithms/RecentlyClicked.java:25-27 | after moving every id to the front the list holds the old ids and the moved ones, still without repeats, with the last moved id first |
| Recent.MoveAllIsLatestFirst | src/main/java/tudo/streamingrec/algorithms/RecentlyClicked.java:18-27 | the list is the moved ids from the latest to the earliest, each at its latest position, followed by the old ids not moved again |
| Recent.TrainClicked | src/main/java/tudo/streamingrec/algorithms/RecentlyClicked.java:22-28 | training throws a NullPointerException exactly when some click has no item |
| Recent.ClickedOrder | src/main/java/tudo/streamingrec/algorithms/RecentlyClicked.java:18-34 | the clicked ids stay free of repeats, are ordered by their latest click, newest first, and the newest click's item leads |
| Recent.ClickedRecommendation | src/main/java/tudo/streamingrec/algorithms/RecentlyClicked.java:18-34 | trained from nothing, `RecommendClicked` lists every clicked item exactly once, ordered by its latest click, newest first, whatever the current click |
| Recent.TrainRecent | src/main/java/tudo/streamingrec/algorithms/MostRecent.java:19-29 | the list holds the old ids and every published item, stays free of repeats, and the last published item leads |
| Recent.RecentOrder | src/main/java/tudo/streamingrec/algorithms/MostRecent.java:16-29 | the list is the published items (`ItemIdsOf`, in batch order) newest first, each once at its latest publication, then the earlier ids not published again |
| Patterns.Ensure | src/main/java/tudo/streamingrec/algorithms/SequentialPattern.java:61-69 | every node along the path exists afterwards, and no support changes |
| Patterns.Update | src/main/java/tudo/streamingrec/algorithms/SequentialPattern.java:58-81 | training on a session throws exactly when a click has no item, and no node disappears |
| Patterns.UpdateIdsSupport | src/main/java/tudo/streamingrec/algorithms/SequentialPattern.java:58-81 | the node of the whole session gains one support, the node of the session without its last click loses one, and every other support stays |
| Patterns.FeedNet | src/main/java/tudo/streamingrec/algorithms/SequentialPattern.java:24-30 | training on a session's growing prefixes one click at a time nets one support on the node of the full session and none on any shorter prefix |
| Patterns.WalkEnd | src/main/java/tudo/streamingrec/algorithms/SequentialPattern.java:35-41 | a walk that gets through names an item at every click and ends at the node of the whole session |
| Patterns.WalkFound | src/main/java/tudo/streamingrec/algorithms/SequentialPattern.java:36-41 | a walk that gets through passes only through nodes of the tree |
| Patterns.WalkComplete | src/main/java/tudo/streamingrec/algorithms/SequentialPattern.java:36-41 | when every click names an item and every node along the session's path exists, the walk reaches the node of the whole session |
| Patterns.Recommend | src/main/java/tudo/streamingrec/algorithms/SequentialPattern.java:32-51 | the list is empty when the session is not a path of the tree; otherwise it holds the children of the session's node once each, by non-increasing support; it throws exactly when the walk meets a click without an item |
| Patterns.RecommendRanking | src/main/java/tudo/streamingrec/algorithms/SequentialPattern.java:32-51 | each recommended item followed the whole session in training, and the items come by non-increasing support of that continuation |
| Patterns.UpdateSub | src/main/java/tudo/streamingrec/algorithms/SequentialSubPattern.java:17-40 | a session of fewer than two clicks changes nothing; otherwise training throws exactly when a click has no item |
| Patterns.SubFromSupport | src/main/java/tudo/streamingrec/algorithms/SequentialSubPattern.java:22-39 | the pass from start j adds one support to each suffix of at least two clicks that starts at or after j, and to nothing else |
| Patterns.UpdateSubSupport | src/main/java/tudo/streamingrec/algorithms/SequentialSubPattern.java:17-40 | training on a session adds one support to each of its suffixes of two or more clicks and changes no other support |
| Patterns.NoMatchStaysAtRoot | src/main/java/tudo/streamingrec/algorithms/SequentialSubPatternAll.java:34-40 | a click with no matching child is skipped, so when no click matches a child of the root the walk stays at the root |
| Patterns.StartScores | src/main/java/tudo/streamingrec/algorithms/SequentialSubPatternAll.java:43-53 | the items scored from one start are exactly the children of the node that start's walk reaches |
| Patterns.ScoreIsLatest | src/main/java/tudo/streamingrec/algorithms/SequentialSubPatternAll.java:31-54 | an item keeps the score from the last start whose node has it as a child, its support, divided by the start's position plus one when weighting is on; earlier starts' scores are overwritten, not added |
| Patterns.ScoredIsChild | src/main/java/tudo/streamingrec/algorithms/SequentialSubPatternAll.java:31-54 | only children of nodes reached by some start are scored |
| Patterns.RecommendAll | src/main/java/tudo/streamingrec/algorithms/SequentialSubPatternAll.java:26-58 | every scored item once, by non-increasing score; throws exactly when a session click has no item |
| CoOccurrence.AddTuple | src/main/java/tudo/streamingrec/algorithms/FastSessionCoOccurrence.java:125-138 | the pair's count goes up by one, its inner map created if missing, every other count stays, and the pair is queued exactly in buffer mode |
| CoOccurrence.AddPairsCounts | src/main/java/tudo/streamingrec/algorithms/FastSessionCoOccurrence.java:96-105 | each earlier click adds one to (earlier, newest) and one to (newest, earlier); the self-pair guard compares references and never skips, so an earlier click on the newest item adds two to its self count |
| CoOccurrence.AddPairsRing | src/main/java/tudo/streamingrec/algorithms/FastSessionCoOccurrence.java:96-105 | in buffer mode the pairs are queued in the order they are counted; otherwise the queue is unchanged |
| CoOccurrence.Evict | src/main/java/tudo/streamingrec/algorithms/FastSessionCoOccurrence.java:108-116 | eviction leaves at most bufferSize pairs, dropping only the oldest; polling an empty queue or uncounting a pair without an inner map throws a NullPointerException |
| CoOccurrence.Update | src/main/java/tudo/streamingrec/algorithms/FastSessionCoOccurrence.java:95-117 | a session of two or more clicks with a click lacking an item throws; without a buffer the update succeeds otherwise and queues nothing; in buffer mode the queue ends within bufferSize |
| CoOccurrence.Train | src/main/java/tudo/streamingrec/algorithms/FastSessionCoOccurrence.java:37-42 | training on a non-empty batch in buffer mode leaves the queue within bufferSize |
| CoOccurrence.SelfPairCountsTwice | src/main/java/tudo/streamingrec/algorithms/FastSessionCoOccurrence.java:96-104 | a session of two clicks on the same item adds two to that item's self count |
| CoOccurrence.UpdateKeepsSymmetric | src/main/java/tudo/streamingrec/algorithms/FastSessionCoOccurrence.java:95-105 | without a buffer each session keeps every pair counted as often one way round as the other |
| CoOccurrence.TrainKeepsSymmetric | src/main/java/tudo/streamingrec/algorithms/FastSessionCoOccurrence.java:37-42 | without a buffer training on a batch keeps the counts symmetric |
| CoOccurrence.InitialCountsRing | src/main/java/tudo/streamingrec/algorithms/FastSessionCoOccurrence.java:26-34 | a fresh instance counts exactly the queued pairs (none) |
| CoOccurrence.EvictKeepsCounts | src/main/java/tudo/streamingrec/algorithms/FastSessionCoOccurrence.java:108-116 | when every count equals the number of times its pair is queued, eviction with a non-negative buffer size cannot fail and keeps that equality |
| CoOccurrence.UpdateKeepsCounts | src/main/java/tudo/streamingrec/algorithms/FastSessionCoOccurrence.java:95-117 | in buffer mode every successful update keeps every count equal to the number of times its pair is among the most recent queued pairs |
| CoOccurrence.TrainKeepsCounts | src/main/java/tudo/streamingrec/algorithms/FastSessionCoOccurrence.java:37-42 | in buffer mode, training on sessions whose clicks name items succeeds and keeps the counts equal to the queued pairs |
| CoOccurrence.Considered | src/main/java/tudo/streamingrec/algorithms/FastSessionCoOccurrence.java:51-58 | the newest click's item, or with wholeSession every session click's item; an empty session is an index error and a considered click without an item a NullPointerException |
| CoOccurrence.WeightsAt | src/main/java/tudo/streamingrec/algorithms/FastSessionCoOccurrence.java:51-67 | an item's weight, summed over the considered clicks with `Merge`, is its total count with those clicks, and it has one exactly when an inner map of a considered click holds it |
| CoOccurrence.Recommend | src/main/java/tudo/streamingrec/algorithms/FastSessionCoOccurrence.java:44-89 | every weighted item once, the current item included, by non-increasing weight; fails exactly when collecting the considered clicks fails |
| CoOccurrence.RecommendRanking | src/main/java/tudo/streamingrec/algorithms/FastSessionCoOccurrence.java:44-89 | the items come by non-increasing total co-occurrence count with the considered clicks, and each co-occurred with one of them |
| Knn.MapItemId | src/main/java/tudo/streamingrec/algorithms/KNN.java:170-176 | a known item keeps its bitmap id and nothing changes; an unknown one gets the next free id and the counter moves on by one; every other item keeps its id, the sessions stay untouched, and ids stay below the counter with no two items sharing one |
| Knn.Convert | src/main/java/tudo/streamingrec/algorithms/KNN.java:146-161 | a first click stores a new bitmap holding its item's id under the session's first click; a later click adds its item's id to the stored bitmap; an empty session is an index error, and a missing item or a later click of an unstored session a NullPointerException |
| Knn.ConvertTwice | src/main/java/tudo/streamingrec/algorithms/KNN.java:146-161 | converting the same session twice has the effect of converting it once |
| Knn.ConvertRegisters | src/main/java/tudo/streamingrec/algorithms/KNN.java:52-55 | after conversion, which recommend also performs, the newest click's item has a bitmap id and that id is in the bitmap stored under the session's first click |
| Knn.Train | src/main/java/tudo/streamingrec/algorithms/KNN.java:42-50 | a completed training pass has a stored bitmap for every click's session and a bitmap id for every clicked item, and forgets no stored session or id |
| Knn.Neighbours | src/main/java/tudo/streamingrec/algorithms/KNN.java:110-138 | a stored bitmap is a neighbour candidate exactly when it shares an item with the current session and differs from it, its similarity being the Jaccard index, strictly between 0 and 1 |
| Knn.Visited | src/main/java/tudo/streamingrec/algorithms/KNN.java:72-91 | the scoring loop visits k + 1 neighbours, or all when there are fewer, and always at least the first |
| Knn.Visit | src/main/java/tudo/streamingrec/algorithms/KNN.java:66-91 | the visited neighbours are candidates with their similarities, by non-increasing similarity, as many as the loop visits |
| Knn.ScoreIsSum | src/main/java/tudo/streamingrec/algorithms/KNN.java:73-91 | an item is scored exactly when it is not in the current session and some visited neighbour holds it, and its score is the sum of those neighbours' similarities |
| Knn.RecommendScores | src/main/java/tudo/streamingrec/algorithms/KNN.java:52-101 | a scored bitmap id belongs to a visited candidate neighbour and not to the current session, and its score sums the visited neighbours' similarities that hold it |
| Knn.Recommend | src/main/java/tudo/streamingrec/algorithms/KNN.java:52-101 | fails exactly when converting the current session fails, keeps the converted state, and returns every scored bitmap id once, by non-increasing score, each turned back into its item id (0 when unknown) |
| Knn.DropOld | src/main/java/tudo/streamingrec/algorithms/KNNRecentSession.java:71-81 | the keys dropped from the front are exactly those more than filterTime older than the newest click, up to the first recent enough one |
| Knn.Touch | src/main/java/tudo/streamingrec/algorithms/KNNRecentSession.java:58-90 | the session's key moves to the end of the recency order, then old keys leave: by age in time mode, or the front key when there are more than filterNumber in count mode; the order stays free of repeats, holds only old keys and the session's, ends with the session's key unless evicted, and in count mode never grows beyond filterNumber once within it |
| Knn.MovedKeyLast | src/main/java/tudo/streamingrec/algorithms/KNNRecentSession.java:62-66 | moving the key to the end keeps the keys distinct and puts the key last |
| Knn.ConvertRecent | src/main/java/tudo/streamingrec/algorithms/KNNRecentSession.java:56-104 | the recency bookkeeping followed by the bitmap update of KNN, failing exactly when that update fails, and forgetting no stored bitmap |
| Knn.ConvertRecentStored | src/main/java/tudo/streamingrec/algorithms/KNNRecentSession.java:56-104 | every key of the recency map keeps a stored bitmap, so evicted sessions keep theirs |
| Knn.TrainRecent | src/main/java/tudo/streamingrec/algorithms/KNN.java:42-50 | training with the recency bookkeeping forgets no stored session, and keeps every key of the recency map backed by a stored bitmap |
| Knn.RecentBitmaps | src/main/java/tudo/streamingrec/algorithms/KNNRecentSession.java:43-44 | the bitmaps of exactly the recent sessions, present whenever every recent key has a stored bitmap |
| Knn.RecommendRecent | src/main/java/tudo/streamingrec/algorithms/KNNRecentSession.java:39-50 | as KNN's recommendation with only the recent sessions as neighbour candidates: fails exactly when converting the session fails (while every recent key is stored), keeps the converted state and ranks the scored items |
| Knn.RecentNeighbours | src/main/java/tudo/streamingrec/algorithms/KNNRecentSession.java:40-50 | every neighbour candidate is the bitmap of a key still in the recency map, with similarity strictly between 0 and 1 |
| KNearest.RemoveUser | src/main/java/tudo/streamingrec/algorithms/KNearestNeighbor.java:59-65 | the de-duplication keeps exactly the stored sessions whose first click is not the user's, and throws exactly when a stored session is empty |
| KNearest.Put | src/main/java/tudo/streamingrec/algorithms/KNearestNeighbor.java:44-68 | under the click's item and the session's first-click time the session replaces the stored sessions of the click's user, and nothing else is stored anywhere else; a click without an item throws |
| KNearest.Store | src/main/java/tudo/streamingrec/algorithms/KNearestNeighbor.java:44-57 | the entry under the item and time is replaced, every other entry stays, missing maps being created |
| KNearest.Loop | src/main/java/tudo/streamingrec/algorithms/KNearestNeighbor.java:42-69 | the click loop succeeds exactly when the clicks name items (on a well-formed index) and keeps the index well-formed |
| KNearest.TrainSession | src/main/java/tudo/streamingrec/algorithms/KNearestNeighbor.java:40-69 | an empty session stores nothing; training one session succeeds exactly when all its clicks name items and keeps the index well-formed |
| KNearest.Train | src/main/java/tudo/streamingrec/algorithms/KNearestNeighbor.java:38-71 | a completed training pass had items on every click of every session, and keeps the index well-formed |
| KNearest.TrainSessionStores | src/main/java/tudo/streamingrec/algorithms/KNearestNeighbor.java:40-69 | a trained session is stored under each of its items and its first-click time, as the only stored session there of each of its clicks' users |
| KNearest.LoopKeeps | src/main/java/tudo/streamingrec/algorithms/KNearestNeighbor.java:42-69 | storing the session under later clicks keeps what earlier clicks stored |
| KNearest.SortedClicks | src/main/java/tudo/streamingrec/algorithms/KNearestNeighbor.java:75-76 | sorting the session newest first keeps its clicks |
| KNearest.SessionItemsSpec | src/main/java/tudo/streamingrec/algorithms/KNearestNeighbor.java:75-79 | the current items are exactly the session's items, each once; a click without an item throws |
| KNearest.SessionItemsLatest | src/main/java/tudo/streamingrec/algorithms/KNearestNeighbor.java:75-79 | the first current item is the item of a latest click |
| KNearest.DecayTail | src/main/java/tudo/streamingrec/algorithms/KNearestNeighbor.java:189-198 | past the first position the integer division 1 / (i + 1) contributes nothing |
| KNearest.DecayScore | src/main/java/tudo/streamingrec/algorithms/KNearestNeighbor.java:189-198 | the decay-vector score is 1 when the neighbour has the most recent current item and 0 otherwise |
| KNearest.DecayJaccard | src/main/java/tudo/streamingrec/algorithms/KNearestNeighbor.java:134-143 | the decay-vector-Jaccard score is the decay score over the size of the union, within [0, 1] |
| KNearest.Similarity | src/main/java/tudo/streamingrec/algorithms/KNearestNeighbor.java:113-147 | every modelled score lies within [0, 1]; the decay scores are positive only when the neighbour has the most recent current item |
| KNearest.Accept | src/main/java/tudo/streamingrec/algorithms/KNearestNeighbor.java:92 | the neighbour filter "not 0 or not 1" lets every neighbour through |
| KNearest.Top | src/main/java/tudo/streamingrec/algorithms/KNearestNeighbor.java:85-86 | the first n by non-increasing key: as many as asked for or available, drawn from the input, none left out ranking above one kept |
| KNearest.TimeSessions | src/main/java/tudo/streamingrec/algorithms/KNearestNeighbor.java:81-84 | the sessions under one item are exactly those stored under one of its times |
| KNearest.Pool | src/main/java/tudo/streamingrec/algorithms/KNearestNeighbor.java:80-84 | the candidate neighbours are exactly the sessions stored under some current item |
| KNearest.Neighbours | src/main/java/tudo/streamingrec/algorithms/KNearestNeighbor.java:85-94 | the neighbourhood can be formed exactly when no candidate is empty and the newest filterNumber candidates name their items; it holds at most k and at most filterNumber neighbours, by non-increasing similarity, each the scoring of one of the newest candidates |
| KNearest.NeighboursOfTrained | src/main/java/tudo/streamingrec/algorithms/KNearestNeighbor.java:38-94 | on a trained index the neighbourhood can always be formed |
| KNearest.NeighbourScore | src/main/java/tudo/streamingrec/algorithms/KNearestNeighbor.java:95-98 | an item is scored exactly when it is not a current item and some neighbour holds it, its score being the sum of those neighbours' similarities |
| KNearest.Recommend | src/main/java/tudo/streamingrec/algorithms/KNearestNeighbor.java:74-104 | fails exactly when a session click has no item, a negative limit is given or the neighbourhood cannot be formed; otherwise lists every scored item once, by non-increasing summed similarity |
| Jaccard.Similarity | src/main/java/tudo/streamingrec/algorithms/KNN.java:129-138 | the similarity lies within [0, 1], is positive exactly when the sets share an element and is 1 exactly when they are equal and not empty |
| Jaccard.Symmetric | src/main/java/tudo/streamingrec/algorithms/ItemItemCF.java:178-187 | the similarity does not depend on the order of its arguments |
| ItemCf.UpdateMap | src/main/java/tudo/streamingrec/algorithms/ItemItemCF.java:96-116 | an unknown user gets the next id counting from 1 and an item set holding the item; a known user's item set gains the item; the item's user set gains the user id, created if missing; a known user whose id has no item set throws |
| ItemCf.Step | src/main/java/tudo/streamingrec/algorithms/ItemItemCF.java:65-78 | on a valid state a click indexes its user and item both ways, failing exactly when it has no item; in buffer mode its (user, item) pair moves to the end of the ring |
| ItemCf.Apply | src/main/java/tudo/streamingrec/algorithms/ItemItemCF.java:65-78 | on a valid state the click loop fails exactly when a click has no item, keeps the state valid, only grows the indexes and keeps the ring free of repeats |
| ItemCf.ApplyIndexes | src/main/java/tudo/streamingrec/algorithms/ItemItemCF.java:65-78 | after the loop each click's user knows the item and the item knows the user |
| ItemCf.Evict | src/main/java/tudo/streamingrec/algorithms/ItemItemCF.java:80-88 | eviction keeps the newest bufferSize pairs of the ring (all when there are fewer), only removes index entries and keeps the state valid |
| ItemCf.Drop | src/main/java/tudo/streamingrec/algorithms/ItemItemCF.java:83-86 | the oldest pair leaves the ring, its user id leaves the item's user set and its item leaves the user's item set |
| ItemCf.EvictRemoves | src/main/java/tudo/streamingrec/algorithms/ItemItemCF.java:80-88 | every pair the eviction dropped is gone from both indexes |
| ItemCf.CutBatch | src/main/java/tudo/streamingrec/algorithms/ItemItemCF.java:59-63 | in buffer mode a batch longer than the ring clears the ring and is cut to its last bufferSize clicks, which throws when the batch is shorter than bufferSize; otherwise nothing changes |
| ItemCf.Train | src/main/java/tudo/streamingrec/algorithms/ItemItemCF.java:55-89 | without a buffer training fails exactly when a click has no item and only grows the indexes; in buffer mode the ring ends within bufferSize and free of repeats; the state stays valid |
| ItemCf.Recommend | src/main/java/tudo/streamingrec/algorithms/ItemItemCF.java:118-169 | succeeds exactly when the compared items, the click's item and the candidates can be read from the user index, and then lists every candidate with a positive summed user-set similarity once, by non-increasing score |
| ItemSim.CompareIds | src/main/java/tudo/streamingrec/algorithms/ItemItemCF.java:120-130 | the items compared are every session item with wholeSession, otherwise the clicked item; a click without an item throws |
| ItemSim.Candidates | src/main/java/tudo/streamingrec/algorithms/ItemItemCF.java:132-146 | the candidates are the items sharing a feature with a compared item, without the clicked item; a feature without a reverse entry or a candidate without features dereferences null |
| ItemSim.Score | src/main/java/tudo/streamingrec/algorithms/ItemItemCF.java:150-161 | a candidate's score is never negative and is positive exactly when some compared item with an entry shares a feature with it |
| ItemSim.Scores | src/main/java/tudo/streamingrec/algorithms/ItemItemCF.java:162-166 | the score map holds exactly the candidates with a positive score, each with its score |
| ItemSim.Recommend | src/main/java/tudo/streamingrec/algorithms/ItemItemCF.java:118-169 | succeeds exactly when the compared items, the click's item and the candidates can be read, and then lists every positively scored candidate once, by non-increasing score |
| ItemSim.ScoredShares | src/main/java/tudo/streamingrec/algorithms/KeywordJaccard.java:83-117 | a scored item is not the clicked one, is reached from a compared item through a shared feature in the reverse lookup (`Features`, `Sharing`), and shares a feature with a compared item |
| KeywordJaccard.AddKeyword | src/main/java/tudo/streamingrec/algorithms/KeywordJaccard.java:52-64 | an unknown keyword gets the next id counting from 1; the keyword id joins the item's set and the item joins the keyword's items; a known keyword whose id has no item set throws; validity is kept and the reverse lookup only grows |
| KeywordJaccard.AddKeywords | src/main/java/tudo/streamingrec/algorithms/KeywordJaccard.java:52-64 | after the keyword loop every keyword is known, earlier keywords keep their ids, and the item's keyword set gained exactly the ids of its keywords |
| KeywordJaccard.AddKeywordsValid | src/main/java/tudo/streamingrec/algorithms/KeywordJaccard.java:52-64 | from a valid state the keyword loop cannot fail, stays valid and only grows the reverse lookup |
| KeywordJaccard.AddKeywordsIndexes | src/main/java/tudo/streamingrec/algorithms/KeywordJaccard.java:52-64 | each keyword of a trained item links the item into that keyword's reverse lookup |
| KeywordJaccard.TrainItem | src/main/java/tudo/streamingrec/algorithms/KeywordJaccard.java:45-65 | an item without keywords is skipped; otherwise its keyword set is rebuilt to exactly the ids of its keywords; a valid state stays valid and training cannot fail |
| KeywordJaccard.Train | src/main/java/tudo/streamingrec/algorithms/KeywordJaccard.java:42-67 | training a batch of items from a valid state cannot fail and keeps the state valid |
| KeywordJaccard.Recommend | src/main/java/tudo/streamingrec/algorithms/KeywordJaccard.java:70-117 | succeeds exactly when the compared items, the click's item and the candidates can be read from the keyword index, and then lists every candidate with a positive summed keyword-set similarity once, by non-increasing score |
| PostFilter.FilterLoop | src/main/java/tudo/streamingrec/algorithms/CategoryPostFiltering.java:55-74 | the loop's result is the passing items in list order followed, with fallback, by the failing ones in list order |
| PostFilter.FallbackFacts | src/main/java/tudo/streamingrec/algorithms/PopularityPostFiltering.java:42-59 | with fallback the result is a reordering of the wrapped list; without, it is the ordered sublist of the passing items; either way the passing items come first and an item is kept exactly when it passes or fallback is set |
| PostFilter.PassingFirstUnique | src/main/java/tudo/streamingrec/algorithms/PopularityPostFiltering.java:42-59 | a list whose passing items come first, are the wrapped list's passing items in order and, with fallback, are followed by its failing items in order, is exactly the filter loop's result |
| PostFilter.PassingPrefix | src/main/java/tudo/streamingrec/algorithms/PopularityPostFiltering.java:42-59 | in a list whose passing items come first, those items form a prefix and the failing ones the rest |
| PostFilter.Put | src/main/java/tudo/streamingrec/algorithms/CategoryPostFiltering.java:30-34 | the recorded items are the earlier ones plus every clicked item |
| PostFilter.Record | src/main/java/tudo/streamingrec/algorithms/RecentlyClickedPostFiltering.java:27-31 | recording fails with a NullPointerException exactly when a click has no item |
| PostFilter.RecordLastWins | src/main/java/tudo/streamingrec/algorithms/RecentlyClickedPostFiltering.java:27-31 | an item's recorded attribute is that of its last click |
| PostFilter.RecordUntouched | src/main/java/tudo/streamingrec/algorithms/RecencyPostFiltering.java:27-31 | an item no click names keeps its recorded attribute, or its absence |
| PostFilter.SessionCategories | src/main/java/tudo/streamingrec/algorithms/CategoryPostFiltering.java:45-53 | exactly the categories of the session's items; a session click without an item throws |
| PostFilter.CategoryRecommend | src/main/java/tudo/streamingrec/algorithms/CategoryPostFiltering.java:39-75 | throws exactly when the categories it reads lack an item; otherwise keeps the items whose recorded category (`CategoryTest`, 0 if never clicked) is the clicked item's, or with considerSession one of the session's categories (all with fallback), the passing items first in their wrapped order and, with fallback, the failing ones after them in theirs |
| PostFilter.PopularityRecommend | src/main/java/tudo/streamingrec/algorithms/PopularityPostFiltering.java:36-60 | keeps exactly the wrapped items with at least minClickCount recorded clicks, all with fallback; the passing items come first in their wrapped order and, with fallback, the failing ones follow in theirs |
| PostFilter.PopularityFromClicks | src/main/java/tudo/streamingrec/algorithms/PopularityPostFiltering.java:26-60 | trained from nothing, an item passes exactly when the training clicks name it at least minClickCount times |
| PostFilter.RecencyRecommend | src/main/java/tudo/streamingrec/algorithms/RecencyPostFiltering.java:36-63 | keeps exactly the wrapped items published strictly before the click and at most filterTime before it (time 0 when unknown), all with fallback; the passing items come first in their wrapped order and, with fallback, the failing ones follow in theirs |
| PostFilter.ClickedRecommend | src/main/java/tudo/streamingrec/algorithms/RecentlyClickedPostFiltering.java:36-60 | keeps exactly the wrapped items with a recorded last click less than filterTime before the current click, all with fallback; the passing items come first in their wrapped order and, with fallback, the failing ones follow in theirs |
| PostFilter.ClickedFromLastClick | src/main/java/tudo/streamingrec/algorithms/RecentlyClickedPostFiltering.java:26-60 | after training, an item passes exactly when its last training click lies less than filterTime before the current click |
| Ranking.Descending | src/main/java/tudo/streamingrec/algorithms/helper/DataManagement.java:175-176 | `popularityListDescending` holds every item with a popularity exactly once, from most to least popular |
| DataMgmt.Add | src/main/java/tudo/streamingrec/algorithms/helper/DataManagement.java:303-319 | `addUser`/`addItem`: the id is mapped to the next index and back, and the next index grows by one |
| DataMgmt.AddKeepsInverse | src/main/java/tudo/streamingrec/algorithms/helper/DataManagement.java:303-319 | adding an id not yet indexed keeps the id-to-index and index-to-id maps mutual inverses |
| DataMgmt.IndexAll | src/main/java/tudo/streamingrec/algorithms/helper/DataManagement.java:113-121 | indexing distinct fresh ids keeps the maps inverse, numbers the `i`-th id `next + i`, keeps earlier ids' indices and indexes exactly the old and new ids |
| DataMgmt.IndexAllNumbers | src/main/java/tudo/streamingrec/algorithms/helper/DataManagement.java:113-121 | the `i`-th added id gets index `next + i`, an id indexed before keeps its index |
| DataMgmt.Init | src/main/java/tudo/streamingrec/algorithms/helper/DataManagement.java:100-121 | after `init` users and items are numbered `0 .. n - 1` in their sets' iteration order, with inverse maps over exactly the given ids |
| DataMgmt.IndexPairs | src/main/java/tudo/streamingrec/algorithms/helper/DataManagement.java:146-149 | each click becomes its (user index, item index) pair; the lookup fails exactly when some click has no item or an unindexed user or item |
| DataMgmt.RateAll | src/main/java/tudo/streamingrec/algorithms/helper/DataManagement.java:146-158 | rating pairs keeps the boolean matrix valid and adds one positive entry per pair |
| DataMgmt.RateAllCells | src/main/java/tudo/streamingrec/algorithms/helper/DataManagement.java:146-149 | after rating, a cell is true exactly when it was true before or one of the pairs rated it |
| DataMgmt.RateAllRows | src/main/java/tudo/streamingrec/algorithms/helper/DataManagement.java:151-156 | each user's item list gains that user's rated items in rating order, and no other list changes |
| DataMgmt.RateAllPopularity | src/main/java/tudo/streamingrec/algorithms/helper/DataManagement.java:159-164 | with advanced sampling each item's popularity grows by the number of pairs that rate it |
| DataMgmt.RateAllPopularKeys | src/main/java/tudo/streamingrec/algorithms/helper/DataManagement.java:159-164 | with advanced sampling exactly the rated items gain a popularity entry |
| DataMgmt.BooleanRatings | src/main/java/tudo/streamingrec/algorithms/helper/DataManagement.java:141-172 | `booleanRatings` fails exactly when some click has no item or an unindexed user or item; otherwise `numPosentries` is the number of clicks and the matrix stays valid |
| DataMgmt.RatedCells | src/main/java/tudo/streamingrec/algorithms/helper/DataManagement.java:146-149 | a cell of the rating matrix is true exactly when some click rated that user and that item |
| DataMgmt.RatedRows | src/main/java/tudo/streamingrec/algorithms/helper/DataManagement.java:151-156 | each user's list holds the user's clicked items, click by click, in click order |
| DataMgmt.PopularityCounts | src/main/java/tudo/streamingrec/algorithms/helper/DataManagement.java:159-164 | the popularity map has an entry for exactly the clicked items, and it counts each item's clicks |
| DataMgmt.RunningSteps | src/main/java/tudo/streamingrec/algorithms/helper/DataManagement.java:180-185 | each aggregated entry adds the next item's weight to the entry before it, the first entry being the first weight |
| DataMgmt.RunningLast | src/main/java/tudo/streamingrec/algorithms/helper/DataManagement.java:181-185 | the last aggregated value is the sum of the popularities, or, reversed, `n` times the base minus that sum |
| DataMgmt.DoAdvancedSampling | src/main/java/tudo/streamingrec/algorithms/helper/DataManagement.java:174-225 | `doAdvancedSampling` keeps one entry per user with a list, builds its descending list from the popularity map, and builds each user's entry from that list |
| DataMgmt.DescendingTotal | src/main/java/tudo/streamingrec/algorithms/helper/DataManagement.java:180-185 | the aggregated popularity map has one entry per item, and its last entry is the total popularity |
| DataMgmt.AggregateIsNumPosentries | src/main/java/tudo/streamingrec/algorithms/helper/DataManagement.java:146-185 | after `booleanRatings` with advanced sampling, the last aggregated popularity equals `numPosentries` |
| DataMgmt.FilterDescending | src/main/java/tudo/streamingrec/algorithms/helper/DataManagement.java:197-198 | `retainAll` on a descending list keeps it distinct and descending |
| DataMgmt.ReverseAscending | src/main/java/tudo/streamingrec/algorithms/helper/DataManagement.java:200 | reversing a distinct descending list gives a distinct ascending list with the same items |
| DataMgmt.UserAscending | src/main/java/tudo/streamingrec/algorithms/helper/DataManagement.java:197-202 | a user's sampling list holds each of the user's items that has a popularity exactly once, from least to most popular |
| DataMgmt.SamplingAscending | src/main/java/tudo/streamingrec/algorithms/helper/DataManagement.java:196-202 | in `doAdvancedSampling` every user's ascending list is that user's rated items, each once, from least to most popular |
| DataMgmt.UserSumClosedForm | src/main/java/tudo/streamingrec/algorithms/helper/DataManagement.java:207-223 | a user's aggregated reversed popularity is `(n - 1) * S` for `n` items with total popularity `S` |
| DataMgmt.TotalOfCounts | src/main/java/tudo/streamingrec/algorithms/helper/DataManagement.java:159-185 | popularities that count the clicks of a sequence add up to its length, in any order of the clicked items |
| Sparse.Empty | src/main/java/tudo/streamingrec/algorithms/helper/SparseByteMatrix.java:33-36 | the no-argument constructor gives a valid matrix with dimensions 0 |
| Sparse.WithDims | src/main/java/tudo/streamingrec/algorithms/helper/SparseByteMatrix.java:43-48 | the sized constructor gives a valid empty matrix that records the dimensions |
| Sparse.Get | src/main/java/tudo/streamingrec/algorithms/helper/SparseByteMatrix.java:99-107 | a cell never stored reads 0 |
| Sparse.GetBool | src/main/java/tudo/streamingrec/algorithms/helper/SparseByteMatrix.java:115-123 | `getBool` is true exactly when `get` is non-zero |
| Sparse.Set | src/main/java/tudo/streamingrec/algorithms/helper/SparseByteMatrix.java:56-80 | `set` keeps the dimensions; zero into a missing row changes nothing; zero keeps the set of rows; a non-zero value adds its row |
| Sparse.SetReads | src/main/java/tudo/streamingrec/algorithms/helper/SparseByteMatrix.java:56-107 | after `set(i, j, b)` on a valid matrix cell `(i, j)` reads `b`, and every other cell reads as before |
| Sparse.SetKeepsValid | src/main/java/tudo/streamingrec/algorithms/helper/SparseByteMatrix.java:56-80 | `set` keeps only non-zero values stored and keeps `numberOfEntries` equal to the number of stored cells |
| Sparse.SetBool | src/main/java/tudo/streamingrec/algorithms/helper/SparseByteMatrix.java:88-91 | on a valid matrix, `setBool` keeps it valid and the cell then reads back the boolean |
| Sparse.CopyCells | src/main/java/tudo/streamingrec/algorithms/helper/SparseByteMatrix.java:148-175 | copying cells by `set` keeps the target valid, makes the copied cells read as in the source, and leaves the other cells as they were |
| Sparse.Copy | src/main/java/tudo/streamingrec/algorithms/helper/SparseByteMatrix.java:138-143 | `copy` gives a valid matrix with dimensions 0 that reads like the original in every cell and has the same entry count |
| Sparse.CopyCount | src/main/java/tudo/streamingrec/algorithms/helper/SparseByteMatrix.java:138-175 | copying every stored cell into an empty matrix reproduces the entry count and every cell |
| Sparse.CopyIndependent | src/main/java/tudo/streamingrec/algorithms/helper/SparseByteMatrix.java:134-143 | setting a cell of the copy does not affect the original: the copy still reads like the original in every other cell, and the set cell reads the new value |
| Reader.ReadItems | src/main/java/tudo/streamingrec/data/loading/FilteredDataReader.java:100-107 | reading the items succeeds exactly when every item line parses |
| Reader.ReadItemsLastWins | src/main/java/tudo/streamingrec/data/loading/FilteredDataReader.java:103-107 | every id read is in the map under the item of its last line, and the map holds no other id |
| Reader.ReadItemsLast | src/main/java/tudo/streamingrec/data/loading/FilteredDataReader.java:103-107 | the item of the last line carrying an id is what the map holds for that id |
| Reader.ReadItemsOnlyRead | src/main/java/tudo/streamingrec/data/loading/FilteredDataReader.java:103-107 | every id in the map comes from a line that is the last with that id |
| Reader.ScanBack | src/main/java/tudo/streamingrec/data/loading/FilteredDataReader.java:132-143 | the backward scan answers true only on a recent kept click of the same user and item; it answers false only when every kept click in the unbroken recent run has an item and is not such a twin; it throws only when a click in that run, or the new click, has no item |
| Reader.Deduplicate | src/main/java/tudo/streamingrec/data/loading/FilteredDataReader.java:121-152 | each click gets one flag, and is kept exactly when de-duplication is off or the scan over the clicks kept before it finds no twin; the kept clicks stay in file order and the dropped ones are counted; without de-duplication every click is kept |
| Reader.ScannedSnoc | src/main/java/tudo/streamingrec/data/loading/FilteredDataReader.java:130-151 | one more click extends the kept list and the flags by the scan's decision, and the count by one when the click is dropped |
| Reader.ScanDecidesPrefix | src/main/java/tudo/streamingrec/data/loading/FilteredDataReader.java:132-143 | the decision on click `i` depends only on the clicks before it |
| Reader.ParseClicks | src/main/java/tudo/streamingrec/data/loading/FilteredDataReader.java:121-128 | reading the clicks succeeds exactly when every click line parses, and gives one click per line in file order |
| Reader.ReadClicks | src/main/java/tudo/streamingrec/data/loading/FilteredDataReader.java:121-152 | the click loop, parsing and scanning one line before reading the next, succeeds exactly when parsing every line and then de-duplicating succeeds, and then gives the same kept clicks, flags and count |
| Reader.FailureStays | src/main/java/tudo/streamingrec/data/loading/FilteredDataReader.java:121-152 | once the lines up to some point fail, the loop fails with that exception, whatever the later lines hold |
| Reader.FirstFailureReported | src/main/java/tudo/streamingrec/data/loading/FilteredDataReader.java:121-143 | when the lines before line n parse and de-duplicate, the loop reports line n's parse error if it does not parse, and a NullPointerException if its scan reads a missing item |
| Reader.MissingItemThrowsFirst | src/main/java/tudo/streamingrec/data/loading/FilteredDataReader.java:127-137 | two item-less clicks of one user ten milliseconds apart, then an unparsable line: the second click's scan throws a NullPointerException before the bad line is read |
| Reader.ReadFilteredData | src/main/java/tudo/streamingrec/data/loading/FilteredDataReader.java:97-192 | a successful read returns the item map read from the item lines and the de-duplicated parsed clicks; it fails with the item lines' exception, then the click loop's, then IndexOutOfBoundsException when nothing is kept (the format check reads the first click), then, with statistics on, NullPointerException exactly when a kept click has no item |
| Reader.KeptHaveNoRecentTwin | src/main/java/tudo/streamingrec/data/loading/FilteredDataReader.java:130-147 | a kept click has no kept click of the same user and item in the unbroken run of kept clicks less than a minute older than it |
| Reader.ScanClear | src/main/java/tudo/streamingrec/data/loading/FilteredDataReader.java:132-143 | a scan that completes without a match means no recent twin |
| Reader.ScanStopsAtFirstOldClick | src/main/java/tudo/streamingrec/data/loading/FilteredDataReader.java:132-133 | the scan stops at the first kept click a minute or more older even when an earlier kept click is a recent twin, so that click is kept |
| Reader.RepeatIsDropped | src/main/java/tudo/streamingrec/data/loading/FilteredDataReader.java:130-150 | a second click of the same user and item within a minute of the first is dropped and counted |
| ResultMerger.Put | src/main/java/tudo/streamingrec/util/CsvResultMerger.java:92-103 | the cell under the publisher, metric and algorithm becomes the new cell, and every other cell is unchanged |
| ResultMerger.PairedIsEven | src/main/java/tudo/streamingrec/util/CsvResultMerger.java:88-90 | the fields after the algorithm name pair up exactly when their number is even |
| ResultMerger.AddPairs | src/main/java/tudo/streamingrec/util/CsvResultMerger.java:88-104 | the metric loop succeeds exactly when the fields after the name pair up; an odd count reads past the end of the array |
| ResultMerger.AddPairsOther | src/main/java/tudo/streamingrec/util/CsvResultMerger.java:88-104 | cells for another publisher, another algorithm or a metric the line does not name keep their values |
| ResultMerger.AddPairsLast | src/main/java/tudo/streamingrec/util/CsvResultMerger.java:88-104 | each metric of the line holds the cell of its last value in the line |
| ResultMerger.ProcessLine | src/main/java/tudo/streamingrec/util/CsvResultMerger.java:72-105 | a comment line changes nothing unless it starts with `#Input files: ` and a pattern is given, in which case it sets the publisher or fails with the extraction; a result line keeps the publisher |
| ResultMerger.ResultLineAccepted | src/main/java/tudo/streamingrec/util/CsvResultMerger.java:85-104 | a result line is read without error exactly when it has no fields or its fields after the name pair up |
| ResultMerger.Merge | src/main/java/tudo/streamingrec/util/CsvResultMerger.java:70-105 | without a publisher pattern the publisher stays the initial one through every line |
| ResultMerger.GetAlgo | src/main/java/tudo/streamingrec/util/CsvResultMerger.java:181-183 | `getAlgo` succeeds exactly when the cell has a tab, and then yields a trimmed name without a tab |
| ResultMerger.CellValue | src/main/java/tudo/streamingrec/util/CsvResultMerger.java:157 | the printed value succeeds exactly when the cell has a tab, and is trimmed |
| ResultMerger.Lookup | src/main/java/tudo/streamingrec/util/CsvResultMerger.java:148-164 | a missing cell prints `n/a`; a present cell prints its value after the first tab, trimmed |
| ResultMerger.CellParts | src/main/java/tudo/streamingrec/util/CsvResultMerger.java:103 | a cell is the name padded to 70 characters, then a tab, then the value, and its first tab is the one after the padding |
| ResultMerger.GetAlgoCell | src/main/java/tudo/streamingrec/util/CsvResultMerger.java:181-183 | `getAlgo` reads back the name a cell was made for, when the name has no tab and no surrounding blanks |
| ResultMerger.CellValueOf | src/main/java/tudo/streamingrec/util/CsvResultMerger.java:157 | the printed value of a cell is the stored value, trimmed |
| ResultMerger.ProcessFields | src/main/java/tudo/streamingrec/util/CsvResultMerger.java:85-104 | a result line whose fields pair up is added to the table under the current publisher, which stays the same |
| ResultMerger.LookupLast | src/main/java/tudo/streamingrec/util/CsvResultMerger.java:88-164 | after a line's pairs are added, looking up one of its metrics prints the trimmed last value the line gives that metric |
| ResultMerger.FieldsReadBack | src/main/java/tudo/streamingrec/util/CsvResultMerger.java:72-164 | a line that splits into a name and metric pairs is read, keeps the publisher, and each metric then prints its trimmed last value |
| ResultMerger.ResultLineReadsBack | src/main/java/tudo/streamingrec/util/CsvResultMerger.java:72-164 | a result line as the algorithm pass writes it reads back: each metric's trimmed last value is printed for that algorithm under the current publisher |

## Left out

- Concurrency: the thread pool, `AlgorithmWrapper` as a thread, the `synchronized` blocks and the wait loop. Only the arithmetic that runs under the lock is modelled.
- Wall-clock time: the stop watches and `System.currentTimeMillis`. Measured durations and the current time are inputs (`Wrapper.RemainingMs` takes the time window as parameters).
- File and console I/O: reading files, `writeResult`'s file output, `Util.writeTransactions`/`writeItems`, `redirectConsole`, the printing of statistics and debug output, and every `main`'s command-line parsing. Readers take the lines of a file with the header already dropped.
- The merged sheet's printing in `CsvResultMerger` (the header rows and the per-algorithm lines): only the table it is built from, `getAlgo` and the `n/a` lookup are modelled. The publisher regular expression is a parameter.
- Java library semantics with opaque behaviour: `SimpleDateFormat`, `DateUtils.isSameDay`, `DecimalFormat`, the Commons-Math t-test's p-value and `DescriptiveStatistics`. They are parameters, or left out where only printed. The t-test's exceptions for fewer than two pairs are modelled (`StatTable.Cell`).
- `BPR`, `Lucene`, `Random` (shuffling), the latent-matrix initialisation of `DataManagement` (`nextNormal`, `nextExp`) and its scalar products: randomness and floating-point learning are not part of this model.
- The cosine similarities of `KNearestNeighbor` (`Cosine`, `DecayVectorCosine`) need square roots over doubles and are not part of this model.
- `ReadPlista`, `ReadOutbrain`, `JoinPlistaTransactionsWithMetaInfo`, `RetroactiveStatisticalTests` and `Config` consist of library I/O and deserialisation and are not part of this model.
- The dispatch through the `final` `recommend` and the missing `recommendInternal` overrides, the one-argument `executeStatisticalTests` call and the undeclared `getSmirnoffPValue` do not compile as written; each class's scoring routine is modelled directly, and the p-value is a parameter.
- Reference identity: clicks, items and sessions are compared by value, so two clicks with equal fields are one click where the code would tell them apart.
- PlistaCsv.ParseHead: a record holds a snapshot of its item, where the code shares the map's item object. A later line that gives a category-0 item its category therefore changes the item of earlier records, and of their `toTransaction` clicks, in the code but not in the model. Only items of category 0 can change (`PlistaCsv.ParseKeepsCategorised`), and the joining step that would use such records is not part of this model.
- EWAH compressed bitmaps are sets of mapped item ids; their compression is not modelled.
- Doubles are exact reals: rounding in metric averages, the progress percentage and the `(int)`/`(long)` casts of products is not modelled beyond the floor of a non-negative value.
- `Item.createdAt` is always present in the model; a missing publication date, which makes `RecencyPostFiltering` throw, cannot occur.
- Metrics.EvaluatePR: requires a positive cut-off `k`. With `k <= 0` the code looks at no recommendation, and Precision then divides 0 by a non-positive count (NaN or -0.0); the model does not follow that.
- Metrics.EvaluateDelegates: requires a positive cut-off `k` for the Precision and Recall delegates, as for `Metrics.EvaluatePR`.
- Metrics.Evaluate: requires an evaluable metric, whose cut-off is positive, as for `Metrics.EvaluatePR`.
- Wrapper.MeasuredMillis: the NaN of zero test time and the Infinity of positive test time over an empty queue are both the one absent value, so the two non-finite runtimes are not told apart.
- Wrapper.Percentage: the exact floor of `100 * (i + 1) / n`; the double arithmetic of the code could round a boundary case differently.
- Knn.MapItemId: the mapped-id counter is unbounded; its 32-bit overflow after 2^31 items is not modelled.
- Knn.Train: Java `int`/`long` overflow of counters and timestamps is not modelled here or in the other algorithm models.
- JavaText.ParseInteger: reads only the ASCII digits '0' to '9'. Java's `Character.digit` also accepts the decimal digits of other scripts, so `Integer.parseInt` and `Long.parseLong` succeed on strings the model rejects; the same holds for `JavaText.ParseInt` and `JavaText.ParseLong`.
