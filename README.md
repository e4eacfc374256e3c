# Bounded frequent-pattern collector and step-0 partition bookkeeping

This project models two pieces of a Mahout-style mining and forest-building code base in Dafny.

**The bounded top-K frequent-pattern collector `FrequentPatternMaxHeap`** (FP-growth). It keeps:

- a priority queue of patterns ordered by support;
- a `count` of admitted patterns, at most `maxSize`;
- a `least` threshold;
- optionally, a sub-pattern index `patternIndex`. The index maps each exact support value to the set of retained patterns with that support.

The flag `subPatternCheck` (below, "the sub-pattern check") turns the index on. With it on, `addPattern` scans the bucket of the candidate's support in hash order and stops at the first member related to the candidate by containment. If that member contains the candidate, the candidate is rejected. If the candidate contains it, that member leaves the index and the candidate takes its place, while the member stays in the queue. Only the first such member is replaced, so other members related to the candidate can remain in the bucket (`SubsumedPairSurvives`). `count` never exceeds `maxSize`. With the sub-pattern check on, the queue and `getHeap` can hold more patterns than that, because a replaced pattern stays in the queue (`QueueOutgrowsCapacity`).

It has four operations:

- `insert` admits, evicts, rejects or replaces a pattern;
- `addable` is a cheap pre-filter on a support value;
- `getHeap` exposes the retained patterns;
- `addAll` folds another collector's patterns into this one. Each pattern is extended by one attribute, with support `min(attributeSupport, support)`.

The model is split across three files:

- `pattern_heap_model.dfy` (`PatternHeapModel`) gives the collector as a value `Heap` with one field per Java field. One function gives the state after each operation, and lemmas over the invariant `Inv` state what the collector does.
- `frequent_pattern_max_heap.dfy` (`PatternHeap.FrequentPatternMaxHeap`) is the same collector as a class whose methods update its fields in place. Each method is proved to reach exactly the state the model function gives.
- `pattern.dfy` (`Patterns`) models the `Pattern` collaborator abstractly. A pattern is its items and its support. The model covers its length, `compareTo` by support, `isSubPatternOf` as containment of item sets, and `add` as extension by one attribute.

Java leaves two choices to its library containers, and the model makes both explicit:

- **Queue order.** `PriorityQueue` is a sequence. `poll` removes the first element of least support, and `peek` returns that element, or nothing when the queue is empty. When several queued patterns share the least support, this fixes one way of breaking the tie. Java's `PriorityQueue` breaks it by its heap-array layout instead, which can pick another of them. No lemma here depends on how such a tie is broken, except where its row says so.
- **Bucket scan order.** `addPattern` scans a `HashSet` bucket in an unspecified order, so its outcome is a parameter `Scan`:
  - `Subsumed`: the candidate is a sub-pattern of a member;
  - `Replaces(r)`: member `r` is a sub-pattern of the candidate;
  - `Unrelated`: neither holds for any member.

  `ScanAllowed` says which outcomes some iteration order can produce, and every method returns the outcome it met as a ghost value.

**Partition first-id bookkeeping of the random-forest partial builder's step 0 (`Step0Job`)**, in `step0_job.dfy`:

- `Step0Output` is a mapper's report: the partition's first key and its size. `compareTo` orders reports by first key.
- `extractFirstIds` and `extractSizes` copy one field out of each report.
- `processOutput` sorts the reports by first key and computes exclusive prefix sums of their sizes in that order. It writes the sums back as new first ids, then places each report at the slot named by its partition key.
- The mapper's counting state (`configure`, `map`) is a class `Step0Mapper`.

Java's `int` and `long` are the subset types `Int32` and `Int64`. The `(int)` cast and `int` addition wrap around as `ToInt32` states.

## Where the code departs from a plain top-K collector

A plain top-K collector would keep at most `maxSize` patterns, all of them among the largest supports offered. Its threshold would be the smallest retained support and would never fall. With the sub-pattern check on, it would retain no two patterns of equal support where one contains the other. The code departs from this in each of the cases below. The model follows the code, and a lemma exhibits each departure:

- **`least` during filling.** While filling, `least` moves to each new pattern that compares greater, so it holds the largest admitted pattern. With capacity 2 and supports 5 then 3, `leastSupport()` is 5, not 3 (`TopTwoOfThree`, `FillingLeastIsMax`).
- **The threshold can decrease.** Once full, the threshold can drop on the next eviction. With capacity 3, supports 5, 3 and 4 leave it at 5; admitting support 6 evicts support 3 and leaves the threshold at 4 (`ThresholdCanDecrease`). It never decreases once it already is the queue minimum (`FullLeastNonDecreasing`).
- **Equal-support sub-pattern pairs can survive.** With the sub-pattern check on, `getHeap` can still show two patterns of equal support where one is a sub-pattern of the other. Take a bucket {`[1]`, `[2]`} at support 10 and insert `[1, 2]` at support 10: only one of the two is replaced (`SubsumedPairSurvives`).
- **`addable` accepts a support equal to the threshold.** When full, `addable` returns true for a support equal to the threshold (line 63). `insert` then tests `frequentPattern.compareTo(least) > 0` (line 97). Under the support-only comparison assumed here, `insert` rejects the pattern (`AddableIsPrefilter`). With a tie-break that ranks the candidate higher, `insert` would admit it.
- **The queue and `getHeap` can outgrow `maxSize`.** With the sub-pattern check on, a replaced pattern stays in the queue and `count` does not move (lines 160-166). With capacity 2, take `[1]` at 10, then `[1, 2]` at 10, then `[3]` at 20: the collector is full and the queue holds three entries. Admitting `[4]` at 30 polls the stale `[1]`. `getHeap` then shows `[1, 2]` at 10, `[3]` at 20 and `[4]` at 30, while `count` is 2 (`QueueOutgrowsCapacity`). Whether getHeap ends up larger than `maxSize` depends on which pattern each poll takes. In this run the poll takes the stale `[1]` under any tie rule that prefers the earlier entry. Java's heap array does the same here: `[1]` was inserted first, stays at the root, and is the one polled. A poll that took `[1, 2]` instead would also remove it from its bucket, and `getHeap` would show only two patterns.

## Model

| member | source | states |
|---|---|---|
| `Patterns.CompareTo` | core/src/main/java/org/apache/mahout/fpm/pfpgrowth/fpgrowth/FrequentPatternMaxHeap.java:97 | three-way result -1/0/1, negative exactly when the first support is smaller, positive exactly when it is larger |
| `Patterns.Add` | core/src/main/java/org/apache/mahout/fpm/pfpgrowth/fpgrowth/FrequentPatternMaxHeap.java:85 | the extension is one item longer, has the given support, contains the old pattern and the attribute, and nothing else |
| `Patterns.Length` | core/src/main/java/org/apache/mahout/fpm/pfpgrowth/fpgrowth/FrequentPatternMaxHeap.java:92 | the length is zero exactly for a pattern without items |
| `Patterns.SubPatternReflexive` | core/src/main/java/org/apache/mahout/fpm/pfpgrowth/fpgrowth/FrequentPatternMaxHeap.java:152 | every pattern is a sub-pattern of itself, so a candidate equal to a bucket member always meets a super-pattern there |
| `PatternHeapModel.SomeScan` | core/src/main/java/org/apache/mahout/fpm/pfpgrowth/fpgrowth/FrequentPatternMaxHeap.java:151-159 | every bucket and candidate admit at least one scan outcome |
| `PatternHeapModel.MinIndex` | core/src/main/java/org/apache/mahout/fpm/pfpgrowth/fpgrowth/FrequentPatternMaxHeap.java:99-100 | the polled position holds a least-support pattern, and no earlier position has that support |
| `PatternHeapModel.Peek` | core/src/main/java/org/apache/mahout/fpm/pfpgrowth/fpgrowth/FrequentPatternMaxHeap.java:100 | peek returns nothing exactly for an empty queue, and otherwise a queue member |
| `PatternHeapModel.RemoveFromBucket` | core/src/main/java/org/apache/mahout/fpm/pfpgrowth/fpgrowth/FrequentPatternMaxHeap.java:102 | the index keeps its support keys; the named bucket loses the pattern and nothing else; every other bucket is untouched |
| `PatternHeapModel.Empty` | core/src/main/java/org/apache/mahout/fpm/pfpgrowth/fpgrowth/FrequentPatternMaxHeap.java:41-45 | a new collector shows nothing and has leastSupport 0, and is full only for capacity 0 |
| `PatternHeapModel.IsFull` | core/src/main/java/org/apache/mahout/fpm/pfpgrowth/fpgrowth/FrequentPatternMaxHeap.java:125-127 | in a valid state, a full collector has at least `maxSize` queue entries and a threshold, and one not full has a count below capacity |
| `PatternHeapModel.LeastSupport` | core/src/main/java/org/apache/mahout/fpm/pfpgrowth/fpgrowth/FrequentPatternMaxHeap.java:129-134 | in a valid state, it is 0 for an empty collector and otherwise the support of a queued pattern |
| `PatternHeapModel.Addable` | core/src/main/java/org/apache/mahout/fpm/pfpgrowth/fpgrowth/FrequentPatternMaxHeap.java:59-64 | a collector that is not full accepts every support; a full one accepts exactly the supports at or above leastSupport |
| `PatternHeapModel.Evict` | core/src/main/java/org/apache/mahout/fpm/pfpgrowth/fpgrowth/FrequentPatternMaxHeap.java:99-103 | the count, capacity and flag are kept, and the queue loses exactly one entry |
| `PatternHeapModel.Grow` | core/src/main/java/org/apache/mahout/fpm/pfpgrowth/fpgrowth/FrequentPatternMaxHeap.java:109-116 | the count grows by one; queue and index are kept; least becomes the candidate or stays, never falling and at least the candidate's support |
| `PatternHeapModel.Insert` | core/src/main/java/org/apache/mahout/fpm/pfpgrowth/fpgrowth/FrequentPatternMaxHeap.java:91-119 | capacity and flag are kept, the count grows by at most one, and a zero-length pattern leaves the state unchanged |
| `PatternHeapModel.AddPattern` | core/src/main/java/org/apache/mahout/fpm/pfpgrowth/fpgrowth/FrequentPatternMaxHeap.java:141-184 | count, least and capacity are unchanged; the queue gains at most the candidate; a true result means it was appended (always so without the sub-pattern check), and with the sub-pattern check on it then joins its support bucket |
| `PatternHeapModel.GetHeap` | core/src/main/java/org/apache/mahout/fpm/pfpgrowth/fpgrowth/FrequentPatternMaxHeap.java:66-79 | without the sub-pattern check, the queue itself; with it, a pattern is shown exactly when it is in the queue and still in its support bucket |
| `PatternHeapModel.Offer` | core/src/main/java/org/apache/mahout/fpm/pfpgrowth/fpgrowth/FrequentPatternMaxHeap.java:83-87 | one addAll step keeps the invariant, never lowers the count and keeps the capacity |
| `PatternHeapModel.AddAll` | core/src/main/java/org/apache/mahout/fpm/pfpgrowth/fpgrowth/FrequentPatternMaxHeap.java:81-89 | folding a sequence of patterns keeps the invariant, never lowers the count and keeps the capacity |
| `PatternHeapModel.EmptyIsValid` | core/src/main/java/org/apache/mahout/fpm/pfpgrowth/fpgrowth/FrequentPatternMaxHeap.java:41-57 | a new collector of positive capacity satisfies the invariant |
| `PatternHeapModel.AddPatternKeepsIndex` | core/src/main/java/org/apache/mahout/fpm/pfpgrowth/fpgrowth/FrequentPatternMaxHeap.java:160-181 | after addPattern every bucket member still has its bucket's support and is in the queue, and every queue entry has a bucket |
| `PatternHeapModel.PeekFacts` | core/src/main/java/org/apache/mahout/fpm/pfpgrowth/fpgrowth/FrequentPatternMaxHeap.java:100 | peek returns nothing exactly for an empty queue, otherwise a queue member of least support |
| `PatternHeapModel.PollFacts` | core/src/main/java/org/apache/mahout/fpm/pfpgrowth/fpgrowth/FrequentPatternMaxHeap.java:99 | poll removes exactly one least-support element, as a multiset |
| `PatternHeapModel.EvictKeepsIndex` | core/src/main/java/org/apache/mahout/fpm/pfpgrowth/fpgrowth/FrequentPatternMaxHeap.java:99-103 | eviction keeps the index consistent with the queue, and with the sub-pattern check the evicted pattern leaves its bucket |
| `PatternHeapModel.EvictFacts` | core/src/main/java/org/apache/mahout/fpm/pfpgrowth/fpgrowth/FrequentPatternMaxHeap.java:99-104 | eviction removes one least-support element, sets least to the new queue minimum and leaves every other member in place |
| `PatternHeapModel.InsertKeepsInv` | core/src/main/java/org/apache/mahout/fpm/pfpgrowth/fpgrowth/FrequentPatternMaxHeap.java:91-119 | insert keeps the invariant; count grows by at most one and never past the capacity; a full collector stays full |
| `PatternHeapModel.InsertNoChange` | core/src/main/java/org/apache/mahout/fpm/pfpgrowth/fpgrowth/FrequentPatternMaxHeap.java:91-97 | a zero-length pattern, or one not above the threshold when full, leaves the whole state unchanged |
| `PatternHeapModel.AddableIsPrefilter` | core/src/main/java/org/apache/mahout/fpm/pfpgrowth/fpgrowth/FrequentPatternMaxHeap.java:59-64 | addable holds exactly when not full or the threshold is at most the support; a non-addable support is rejected by insert; under the support-only comparison assumed for `Pattern.compareTo`, a full collector finds a support equal to the threshold addable yet insert rejects it |
| `PatternHeapModel.InsertEvicts` | core/src/main/java/org/apache/mahout/fpm/pfpgrowth/fpgrowth/FrequentPatternMaxHeap.java:96-105 | when full and addPattern succeeds, count is unchanged, the queue gains the candidate and loses one pattern of least old support, that pattern leaves its bucket, and least becomes the new queue minimum |
| `PatternHeapModel.InsertSubsumed` | core/src/main/java/org/apache/mahout/fpm/pfpgrowth/fpgrowth/FrequentPatternMaxHeap.java:151-153 | a candidate that meets an equal-support superpattern first is rejected with no state change |
| `PatternHeapModel.DuplicateNotQueued` | core/src/main/java/org/apache/mahout/fpm/pfpgrowth/fpgrowth/FrequentPatternMaxHeap.java:151-164 | a candidate already in its bucket is never found unrelated and never queued again: count, least and the queue are unchanged and it stays in its bucket |
| `PatternHeapModel.InsertReplaces` | core/src/main/java/org/apache/mahout/fpm/pfpgrowth/fpgrowth/FrequentPatternMaxHeap.java:154-166 | replacing member x: the bucket becomes the old one without x and with the candidate; the candidate is queued; x stays in the queue; every other bucket, count and least are unchanged, with no eviction |
| `PatternHeapModel.InsertUnrelated` | core/src/main/java/org/apache/mahout/fpm/pfpgrowth/fpgrowth/FrequentPatternMaxHeap.java:168-181 | an unrelated candidate joins queue and bucket (creating it if missing); count grows by one while filling and stays put when full; while filling, the queue gains exactly the candidate at its end and every other bucket is unchanged |
| `PatternHeapModel.UnrelatedEviction` | core/src/main/java/org/apache/mahout/fpm/pfpgrowth/fpgrowth/FrequentPatternMaxHeap.java:98-103 | the eviction after admitting a candidate above the threshold keeps the candidate and its bucket |
| `PatternHeapModel.FillingLeastIsMax` | core/src/main/java/org/apache/mahout/fpm/pfpgrowth/fpgrowth/FrequentPatternMaxHeap.java:107-117 | while filling, leastSupport stays the largest support in the queue, not the smallest, and is the support of a queue member |
| `PatternHeapModel.FullLeastNonDecreasing` | core/src/main/java/org/apache/mahout/fpm/pfpgrowth/fpgrowth/FrequentPatternMaxHeap.java:96-105 | once full with least the queue minimum, insert keeps it so and never lowers leastSupport |
| `PatternHeapModel.AddAllBounds` | core/src/main/java/org/apache/mahout/fpm/pfpgrowth/fpgrowth/FrequentPatternMaxHeap.java:81-89 | addAll keeps the count between its old value and the capacity |
| `PatternHeapModel.OfferFacts` | core/src/main/java/org/apache/mahout/fpm/pfpgrowth/fpgrowth/FrequentPatternMaxHeap.java:83-87 | the candidate of one addAll step contains the child pattern and the attribute, is one item longer, and has a support at most both `attributeSupport` and the child's, equal to one of them; a non-addable support leaves the state unchanged for every scan; the count grows only while filling, with the candidate then queued; a full collector stays full |
| `PatternHeap.ScanBucket` | core/src/main/java/org/apache/mahout/fpm/pfpgrowth/fpgrowth/FrequentPatternMaxHeap.java:151-159 | the early-exit scan of the bucket ends with an outcome some iteration order allows |
| `PatternHeap.FrequentPatternMaxHeap.constructor` | core/src/main/java/org/apache/mahout/fpm/pfpgrowth/fpgrowth/FrequentPatternMaxHeap.java:41-57 | a new collector is the empty model state and is valid |
| `PatternHeap.FrequentPatternMaxHeap.GetHeap` | core/src/main/java/org/apache/mahout/fpm/pfpgrowth/fpgrowth/FrequentPatternMaxHeap.java:66-79 | the filtering loop returns exactly the model's getHeap |
| `PatternHeap.FrequentPatternMaxHeap.Count` | core/src/main/java/org/apache/mahout/fpm/pfpgrowth/fpgrowth/FrequentPatternMaxHeap.java:121-123 | in a valid object the count is at most the capacity and at most the queue length |
| `PatternHeap.FrequentPatternMaxHeap.IsFull` | core/src/main/java/org/apache/mahout/fpm/pfpgrowth/fpgrowth/FrequentPatternMaxHeap.java:125-127 | in a valid object, full means at least `maxSize` queue entries, and not full means a count below capacity |
| `PatternHeap.FrequentPatternMaxHeap.LeastSupport` | core/src/main/java/org/apache/mahout/fpm/pfpgrowth/fpgrowth/FrequentPatternMaxHeap.java:129-134 | in a valid object, 0 when nothing is counted, otherwise the support of a queued pattern |
| `PatternHeap.FrequentPatternMaxHeap.Addable` | core/src/main/java/org/apache/mahout/fpm/pfpgrowth/fpgrowth/FrequentPatternMaxHeap.java:59-64 | true when not full; when full, exactly for a support at or above leastSupport |
| `PatternHeap.FrequentPatternMaxHeap.AddPattern` | core/src/main/java/org/apache/mahout/fpm/pfpgrowth/fpgrowth/FrequentPatternMaxHeap.java:141-184 | the new fields and the result are the model's addPattern for the scan outcome met, which is an allowed one |
| `PatternHeap.FrequentPatternMaxHeap.Evict` | core/src/main/java/org/apache/mahout/fpm/pfpgrowth/fpgrowth/FrequentPatternMaxHeap.java:99-103 | poll, peek and bucket removal give the model's eviction state |
| `PatternHeap.FrequentPatternMaxHeap.Grow` | core/src/main/java/org/apache/mahout/fpm/pfpgrowth/fpgrowth/FrequentPatternMaxHeap.java:109-116 | the count bump and least update give the model's filling state |
| `PatternHeap.FrequentPatternMaxHeap.Insert` | core/src/main/java/org/apache/mahout/fpm/pfpgrowth/fpgrowth/FrequentPatternMaxHeap.java:91-119 | insert keeps the object valid and reaches the model's insert state for an allowed scan outcome |
| `PatternHeap.FrequentPatternMaxHeap.AddAll` | core/src/main/java/org/apache/mahout/fpm/pfpgrowth/fpgrowth/FrequentPatternMaxHeap.java:81-89 | addAll keeps the object valid and reaches the model's addAll state over the other collector's getHeap, each step with an allowed scan outcome |
| `PatternHeap.FrequentPatternMaxHeap.Offer` | core/src/main/java/org/apache/mahout/fpm/pfpgrowth/fpgrowth/FrequentPatternMaxHeap.java:83-87 | one iteration of addAll: the support is the smaller of the attribute's and the pattern's, and the extended pattern is inserted only when that support is addable; the object stays valid and reaches the model's step state |
| `PatternHeapScenarios.TopTwoOfThree` | core/src/main/java/org/apache/mahout/fpm/pfpgrowth/fpgrowth/FrequentPatternMaxHeap.java:91-119 | capacity 2, supports 5, 3, 7: after two inserts count is 2 and leastSupport is 5; after the third, getHeap is the patterns of support 5 and 7 and leastSupport is 5 |
| `PatternHeapScenarios.FillTwo` | core/src/main/java/org/apache/mahout/fpm/pfpgrowth/fpgrowth/FrequentPatternMaxHeap.java:107-117 | filling capacity 2 with supports 5 then 3 gives count 2, the queue [5, 3] and least at the support-5 pattern |
| `PatternHeapScenarios.EvictFromTwo` | core/src/main/java/org/apache/mahout/fpm/pfpgrowth/fpgrowth/FrequentPatternMaxHeap.java:96-105 | admitting support 7 to the full queue [5, 3] evicts 3 and leaves least at 5 |
| `PatternHeapScenarios.ThresholdCanDecrease` | core/src/main/java/org/apache/mahout/fpm/pfpgrowth/fpgrowth/FrequentPatternMaxHeap.java:96-116 | capacity 3, supports 5, 3, 4 then 6: leastSupport goes from 5 to 4 while full |
| `PatternHeapScenarios.FillThree` | core/src/main/java/org/apache/mahout/fpm/pfpgrowth/fpgrowth/FrequentPatternMaxHeap.java:107-117 | filling capacity 3 with supports 5, 3, 4 leaves least at the support-5 pattern |
| `PatternHeapScenarios.EvictFromThree` | core/src/main/java/org/apache/mahout/fpm/pfpgrowth/fpgrowth/FrequentPatternMaxHeap.java:96-105 | admitting support 6 to the full queue 5, 3, 4 evicts 3 and makes 4 the least |
| `PatternHeapScenarios.EmptyPatternIgnored` | core/src/main/java/org/apache/mahout/fpm/pfpgrowth/fpgrowth/FrequentPatternMaxHeap.java:91-94 | a zero-length pattern changes no state |
| `PatternHeapScenarios.SuperPatternReplacesSubPattern` | core/src/main/java/org/apache/mahout/fpm/pfpgrowth/fpgrowth/FrequentPatternMaxHeap.java:154-166 | [A] then [A, B] at equal support: the only allowed scan replaces [A]; getHeap is [[A, B]], count stays 1, while [A] stays in the queue |
| `PatternHeapScenarios.AddAllExtendsChild` | core/src/main/java/org/apache/mahout/fpm/pfpgrowth/fpgrowth/FrequentPatternMaxHeap.java:81-89 | a child holding [B] at 8, folded with attribute C at 6, gives the parent exactly [B, C] at 6 |
| `PatternHeapScenarios.SubsumedPairSurvives` | core/src/main/java/org/apache/mahout/fpm/pfpgrowth/fpgrowth/FrequentPatternMaxHeap.java:146-170 | after [1], [2] and [1, 2] at support 10, getHeap holds two distinct equal-support patterns one of which is a sub-pattern of the other, whatever the scan order |
| `PatternHeapScenarios.FillPair` | core/src/main/java/org/apache/mahout/fpm/pfpgrowth/fpgrowth/FrequentPatternMaxHeap.java:146-170 | with the sub-pattern check on, [1] and then [2] at support 10 are both admitted into bucket 10, since neither contains the other |
| `PatternHeapScenarios.ReplaceOneOfPair` | core/src/main/java/org/apache/mahout/fpm/pfpgrowth/fpgrowth/FrequentPatternMaxHeap.java:154-166 | [1, 2] at support 10 replaces exactly the one member of the bucket {[1], [2]} that the scan meets first, and is appended to the queue |
| `PatternHeapScenarios.KeptPairInHeap` | core/src/main/java/org/apache/mahout/fpm/pfpgrowth/fpgrowth/FrequentPatternMaxHeap.java:66-79 | two distinct queued members of the same bucket, one a sub-pattern of the other, both appear in getHeap |
| `PatternHeapScenarios.QueueOutgrowsCapacity` | core/src/main/java/org/apache/mahout/fpm/pfpgrowth/fpgrowth/FrequentPatternMaxHeap.java:91-119 | capacity 2 with the sub-pattern check: after [1]@10, [1,2]@10 and [3]@20 the collector is full with three queue entries; after [4]@30, count is 2 and getHeap holds exactly [1,2]@10, [3]@20 and [4]@30 |
| `PatternHeapScenarios.OutgrowFill` | core/src/main/java/org/apache/mahout/fpm/pfpgrowth/fpgrowth/FrequentPatternMaxHeap.java:91-119 | the three insertions [1]@10, [1,2]@10, [3]@20 at capacity 2 reach a full collector with three queue entries and least [3]@20 |
| `PatternHeapScenarios.OutgrowReplace` | core/src/main/java/org/apache/mahout/fpm/pfpgrowth/fpgrowth/FrequentPatternMaxHeap.java:154-166 | [1,2]@10 replaces [1]@10 in its bucket without counting, and [1]@10 stays queued |
| `PatternHeapScenarios.OutgrowThird` | core/src/main/java/org/apache/mahout/fpm/pfpgrowth/fpgrowth/FrequentPatternMaxHeap.java:107-117 | [3]@20 then fills capacity 2 in a new bucket and becomes least |
| `PatternHeapScenarios.OutgrowEviction` | core/src/main/java/org/apache/mahout/fpm/pfpgrowth/fpgrowth/FrequentPatternMaxHeap.java:96-105 | admitting [4]@30 to that state evicts the stale [1]@10 and least becomes [1,2]@10 |
| `PatternHeapScenarios.EvictStaleCopy` | core/src/main/java/org/apache/mahout/fpm/pfpgrowth/fpgrowth/FrequentPatternMaxHeap.java:99-103 | the poll removes the stale [1]@10, the earlier of the two support-10 entries, peek gives [1,2]@10, and the index is left as it was |
| `PatternHeapScenarios.StaleEvictionHeap` | core/src/main/java/org/apache/mahout/fpm/pfpgrowth/fpgrowth/FrequentPatternMaxHeap.java:66-79 | getHeap on the final state shows all three queue entries |
| `Step0Job.ToInt32` | core/src/main/java/org/apache/mahout/df/mapreduce/partial/Step0Job.java:288 | the result is an `int` congruent to the input modulo 2^32, equal to it when it already fits |
| `Step0Job.CompareTo` | core/src/main/java/org/apache/mahout/df/mapreduce/partial/Step0Job.java:275-282 | three-way result -1/0/1, negative exactly for a smaller first id and zero exactly for an equal one |
| `Step0Job.CompareToAntisymmetric` | core/src/main/java/org/apache/mahout/df/mapreduce/partial/Step0Job.java:275-282 | swapping the operands negates the result |
| `Step0Job.CompareToIgnoresSize` | core/src/main/java/org/apache/mahout/df/mapreduce/partial/Step0Job.java:275-282 | the sizes never affect the comparison |
| `Step0Job.ExtractFirstIds` | core/src/main/java/org/apache/mahout/df/mapreduce/partial/Step0Job.java:284-292 | a new array of the input's length whose element p is the int-cast first id of report p |
| `Step0Job.ExtractSizes` | core/src/main/java/org/apache/mahout/df/mapreduce/partial/Step0Job.java:294-302 | a new array of the input's length whose element p is the size of report p |
| `Step0Job.PermutationCovers` | core/src/main/java/org/apache/mahout/df/mapreduce/partial/Step0Job.java:186-191 | n distinct values below n include every one of 0..n-1 |
| `Step0Job.SortedOrderUnique` | core/src/main/java/org/apache/mahout/df/mapreduce/partial/Step0Job.java:168-170 | the stable ascending order of the reports is unique |
| `Step0Job.InsertAt` | core/src/main/java/org/apache/mahout/df/mapreduce/partial/Step0Job.java:170 | one insertion pass keeps a permutation and extends the sorted prefix by one |
| `Step0Job.SortPositions` | core/src/main/java/org/apache/mahout/df/mapreduce/partial/Step0Job.java:168-170 | the report positions end as a permutation in stable ascending first-id order |
| `Step0Job.IndexOf` | core/src/main/java/org/apache/mahout/df/mapreduce/partial/Step0Job.java:181 | the first position holding the value, or -1 exactly when it is absent |
| `Step0Job.ScatteredIsLastWrite` | core/src/main/java/org/apache/mahout/df/mapreduce/partial/Step0Job.java:186-189 | a slot is empty exactly when no key names it, and otherwise holds the value of the last report whose key names it |
| `Step0Job.ScatteredPermutation` | core/src/main/java/org/apache/mahout/df/mapreduce/partial/Step0Job.java:186-191 | with keys a permutation of 0..n-1, every slot is filled and report p sits at slot keys[p] |
| `Step0Job.FirstIdIsPrefixSum` | core/src/main/java/org/apache/mahout/df/mapreduce/partial/Step0Job.java:173-177 | with non-negative sizes whose total fits an int, the k-th sorted first id is the total size of the k before it |
| `Step0Job.FirstIdsArePrefixSums` | core/src/main/java/org/apache/mahout/df/mapreduce/partial/Step0Job.java:173-183 | under the same bounds, every first id is its prefix sum and the id ranges of the partitions do not overlap |
| `Step0Job.OrderedIds` | core/src/main/java/org/apache/mahout/df/mapreduce/partial/Step0Job.java:173-177 | position 0 gets 0 and each later position the previous id plus the previous report's size, wrapping as an int |
| `Step0Job.UpdateFirstIds` | core/src/main/java/org/apache/mahout/df/mapreduce/partial/Step0Job.java:180-183 | only first ids change, and each report takes the id of its own sorted position |
| `Step0Job.Scatter` | core/src/main/java/org/apache/mahout/df/mapreduce/partial/Step0Job.java:186-191 | succeeds exactly when there is a key for every report and each key names a slot; then each slot holds the last report written to it |
| `Step0Job.ProcessOutput` | core/src/main/java/org/apache/mahout/df/mapreduce/partial/Step0Job.java:164-192 | fails for no reports (the store at line 174) and for keys that do not fit (line 188), and otherwise returns the reordered array; in every case with at least one report, the reports are ordered stably by first id, the first gets id 0 and each next one the previous id plus the previous size, and sizes are kept; on success each slot holds the last report keyed to it |
| `Step0Job.MapAllCounts` | core/src/main/java/org/apache/mahout/df/mapreduce/partial/Step0Job.java:225-231 | a fresh mapper fed a sequence of keys records the first key and counts the records modulo 2^32 |
| `Step0Job.MapStep` | core/src/main/java/org/apache/mahout/df/mapreduce/partial/Step0Job.java:225-231 | one record keeps the partition, records its key as the first key when none is set, keeps an existing one, and adds one to the size modulo 2^32 |
| `Step0Job.MapAll` | core/src/main/java/org/apache/mahout/df/mapreduce/partial/Step0Job.java:225-231 | a sequence of records keeps the partition, leaves a first key once any record is seen, and keeps a first key already present |
| `Step0Job.Step0Mapper.constructor` | core/src/main/java/org/apache/mahout/df/mapreduce/partial/Step0Job.java:201-205 | a new mapper has partition 0, size 0 and no first key |
| `Step0Job.Step0Mapper.Configure` | core/src/main/java/org/apache/mahout/df/mapreduce/partial/Step0Job.java:217-222 | the partition is set, and the call succeeds exactly for a non-negative id |
| `Step0Job.Step0Mapper.Map` | core/src/main/java/org/apache/mahout/df/mapreduce/partial/Step0Job.java:225-231 | the first key is recorded only if none was, and the size grows by one as an int |

## Left out

- **Step-0 I/O and Hadoop plumbing.** `Step0Job.run`, `parseOutput`, `Step0Mapper.setup`, `cleanup`, `Step0Output.readFields` and `write` are left out. They are job configuration, file and context I/O.
- **`SparseVector.java`.** It is not part of this model. It has no role in the two components.
- **`Step0Output.clone`.** Reports are values in the model, so a copy is the value itself. The model has no separate member for it.
- **`FrequentPatternMaxHeap.toString`.** It only delegates to `Object.toString`.
- **Pattern internals.** `Pattern`'s own source is not part of this model. Its tie-break on equal support is taken as "equal". Its sub-pattern test is taken as containment of item sets.
- **Pattern equality.** Patterns are values, so the bucket `contains` and `remove` (lines 102, 161-164) and `getHeap`'s filter (line 71) compare by value. Java uses `Pattern.equals`, which may be identity. The two differ when a replaced pattern stays in the queue and an equal pattern is later admitted. Evicting the stale copy then removes the live one from its bucket under value equality, but not under identity.
- **Library data layout.** The heap-array layout of `PriorityQueue` and the hashing of `HashSet` and `HashMap` are not modelled. What remains is:
  - the queue as a sequence, whose poll removes the first least-support element, one fixed way of breaking ties;
  - the iteration order of a bucket, as the `Scan` outcome;
  - the iteration order of `getHeap`'s result, as queue order.
- **The constructor's indexing loop** (lines 46-56). It runs over a queue that was just created and is empty, so it never executes. It is not modelled.
- **A capacity below 1.** `new PriorityQueue(n)` throws for any `n` below 1, so the constructor requires a positive capacity.
- **Java's `count` width.** `count` is a `nat`. It never exceeds `maxSize`, so it never overflows.
- `PatternHeap.FrequentPatternMaxHeap.AddAll`: the model iterates over a snapshot of `patterns.getHeap()` and extends a copy of each pattern. It does not model several things:
  - `pattern.add` rewriting a pattern that the other collector still holds;
  - a `ConcurrentModificationException` when a collector without the sub-pattern check is folded into itself.
- `PatternHeap.FrequentPatternMaxHeap.Insert`: the threshold comparison uses support only, because `Pattern.compareTo`'s tie-break is not part of this model.
- `Step0Job.ProcessOutput`: the reports are values in an array, not shared objects. The model does not capture that `reordered` holds the same objects as `values`, nor that `indexOf` compares by identity. The stable sort order of positions stands in for both.
- `Step0Job.ProcessOutput`: the keys come as a sequence. Null elements, which would throw when unboxed, are not modelled.
- `Step0Job.ProcessOutput`: each exception is modelled as the result `None`. This covers the empty list (line 174), a short key list and an out-of-range key (line 188). The exception type is not kept.
- `Step0Job.Step0Mapper.Configure`: the `RuntimeException` on a negative id is modelled as the result `false`; the partition is still set.
