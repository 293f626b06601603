# scache in Dafny

A model of `scache`, a small in-memory cache for Go with approximate-LRU
eviction, and of its settings builder.

- The cache maps string keys to items. Each item holds a value, an expiry
  time and a last-access time, all in Unix seconds.
- `Get` expires entries lazily. An entry past its expiry reads as a miss but
  stays in the map. A hit stamps the entry's access time.
- `Set` stores a fresh item and replaces whatever the key held.
- `Fetch` is get-or-produce. On a miss it stores the producer's value unless
  the producer failed.
- `prune` is one eviction round:
  1. It samples up to `workSize` access times into the reusable `times`
     buffer. An entry is skipped when its random draw exceeds `workSize`.
  2. It sorts that prefix in place and takes `times[0]` as the threshold.
  3. It collects up to `workSize` keys accessed at or before the threshold
     into the reusable `scratch` buffer.
  4. It deletes those keys.
- `Configuration` holds the sample width, the item ceiling and the sweep
  interval. Its setters assign a field and return the receiver for chaining.
  `MaxItems` derives the width as `count / 20`.

Files:

- `config.dfy` (module `Config`): the `Configuration` class, Go's truncating
  division, and the width derivation.
- `times.dfy` (module `Times`): the `Times` slice's `Less` and `Swap`, and
  the in-place sort that `prune` runs through them. The sort is written as an
  insertion sort, the algorithm Go's sort package uses on short ranges.
- `sampling.dfy` (module `Sampling`): the two selection passes of `prune` as
  functions of the access times, with their properties.
- `scenarios.dfy` (module `Scenarios`): callers that drive the class through
  the scenarios of the package's tests.
- `scache.dfy` (module `SCache`):
  - the `Item` and `Cache` classes;
  - the store as a value (`Snapshot`);
  - the store-level specification functions `Lookup`, `AfterGet`,
    `AfterSet` and `AfterFetch`;
  - the lemmas about those functions.

`Get`, `Set` and `Fetch` are proved against these functions. `Prune` is
proved against the selection functions `Sample`, `Threshold` and `Victims`.
`New` and `Clear` state the new store outright. The clock reading
`now`, the `ttl`, the random draws and the iteration orders of the two
`range` loops over the map are parameters.

Two behaviours of the code are easy to miss:

- `MaxItems` has no lower clamp. A count from 0 to 19 gives a width of 0,
  so `Prune` requires a width of at least 1. A count of -20 or less gives a
  negative width, which `New` rejects.
- An entry is still a hit at the second it expires, because the miss test is
  `expires < now`.

## Model

| member | source | states |
|---|---|---|
| Config.TruncDiv | configuration.go:29 | Go's `/` on `int`: the remainder has the sign of the dividend and is smaller than the divisor, which fixes the quotient |
| Config.WorkSizeFor | configuration.go:29 | the width `count / 20` is at least 1 exactly when the count is at least 20; it is 0 for counts 0..19 because there is no clamp; for a non-negative count it is the largest `w` with `20*w <= count` |
| Config.Configuration.Configure | configuration.go:14-20 | the defaults are width 50, 1000 items and a five-minute sweep interval, and the width agrees with the derivation from 1000 items |
| Config.Configuration.MaxItems | configuration.go:27-31 | sets the item ceiling and the derived width, leaves the sweep interval unchanged, and returns the receiver |
| Config.Configuration.PruneFrequency | configuration.go:37-40 | sets only the sweep interval and returns the receiver |
| Config.ConfigureChained | configuration.go:14-40 | a chained `Configure().MaxItems(c).PruneFrequency(f)` yields one fresh object with exactly those settings; a count from 0 to 19 leaves the width at 0 |
| Times.Swap | scache.go:38-40 | exchanges two positions of the array and leaves every other position as it was |
| Times.Insert | scache.go:34-40 | one insertion round driven by `Less` and `Swap`: a sorted `t[..i]` becomes a sorted `t[..i+1]`, the array is permuted, and nothing from `i+1` on moves, so only `t[..i+1]` is rearranged |
| Times.Sort | scache.go:125 | `sort.Sort(c.times[:found])`: the prefix ends ascending and is a permutation of what it held, and the rest of the array is untouched |
| Sampling.Admitted | scache.go:114 | counts the draws that admit their entry; there are never more than draws |
| Sampling.Sample | scache.go:110-122 | the first pass of `prune` as a function of the access times, the visiting order and the draws; it never takes more than the width |
| Sampling.SampleFromVisited | scache.go:113-118 | every sampled time is the access time of a visited key |
| Sampling.SampleSize | scache.go:114-121 | the sample is exactly as long as the number of admitting draws, capped at the width |
| Sampling.AdmittedAll | scache.go:114 | when no draw exceeds the width, every draw admits its entry |
| Sampling.SampleWhole | scache.go:113-121 | with no more entries than the width and no draw above it, the sample is every visited entry's access time, in visiting order |
| Sampling.SampleSaturated | scache.go:119-121 | once the width is reached, later entries add nothing, which justifies the `break` |
| Sampling.Min | scache.go:126 | the minimum of a non-empty sequence is one of its elements and no larger than any of them |
| Sampling.SortedHeadIsMin | scache.go:125-126 | after sorting a non-empty sample in place, `times[0]` is the sample's minimum |
| Sampling.Threshold | scache.go:125-126 | the threshold is the smallest sampled time, or the stale `times[0]` when nothing was sampled |
| Sampling.Victims | scache.go:128-139 | the second pass of `prune` as a function of the access times, the visiting order and the threshold; it never takes more than the width |
| Sampling.VictimsQualify | scache.go:130-134 | every victim is a visited key accessed at or before the threshold |
| Sampling.VictimsSaturated | scache.go:136-138 | once the width is reached, later keys add nothing, which justifies the `break` |
| Sampling.VictimsDistinct | scache.go:130-135 | when each key is visited once, no key is named twice |
| Sampling.VictimsComplete | scache.go:130-139 | when the pass stops short of the width, it has taken every visited key at or below the threshold |
| Sampling.DistinctCard | scache.go:130-146 | a sequence has at most as many distinct elements as it is long, and exactly as many when no element repeats; this is what makes the deletions count exactly |
| Sampling.EvictionRound | scache.go:109-146 | over the access times, with both passes visiting every key once: the victims are distinct keys of the store, at most the width, none accessed after the threshold; the threshold is no later than any sampled time; fewer victims than the width means every key at or below the threshold is one; a non-empty sample yields at least one victim; the store shrinks by exactly the number of victims |
| SCache.ExpiryBoundary | scache.go:61-65 | an entry is served at the very second it expires and missed from the next second on |
| SCache.GetMissKeepsStore | scache.go:55-63 | a miss leaves the store unchanged, so an expired entry stays in it |
| SCache.GetHitStamps | scache.go:61-65 | a hit returns the stored value and sets that entry's access time to `now`; no key is added or removed and no other entry changes |
| SCache.GetInvisible | scache.go:53-66 | a `Get` never changes what any later `Get` answers, for any key at any time |
| SCache.SetThenGet | scache.go:68-79 | after `Set`, the key reads back the new value up to and including `now + ttl` and misses after that, whatever it held before |
| SCache.SetLeavesOthers | scache.go:68-79 | `Set` adds at most its key, gives it the entry `(value, now + ttl, now)`, and leaves every other entry alone |
| SCache.SetOverwrites | scache.go:76-78 | a second `Set` of the same key overwrites the first completely |
| SCache.FetchHitIsGet | scache.go:81-85 | `Fetch` on a hit changes the store exactly as `Get` does, whatever the producer would have given |
| SCache.FetchMiss | scache.go:86-90 | `Fetch` on a miss with a successful producer stores its value, and for a non-negative ttl a `Get` at the same instant returns it; a failing producer leaves the store unchanged |
| SCache.PruneEffect | scache.go:109-146 | one `prune` round on the store: it removes at most the width, each removed entry was accessed no later than the threshold, kept entries are unchanged, on a non-empty sample the threshold is one of the sampled times and the access time of an entry of the store, and it is never later than any sampled time, fewer removals than the width means no kept entry is at or below the threshold, and a non-empty sample strictly shrinks the store |
| SCache.SmallStoreSampledWhole | scache.go:110-126 | a store no larger than the width is sampled whole whatever the draws in `[0, len(lookup))`: the sample holds every entry's access time, and the threshold is the least access time in the store, so the round is exact LRU |
| SCache.Item.constructor | scache.go:21-26 | an item holds its key, value, expiry and access time |
| SCache.Cache.New | scache.go:42-48 | an empty `lookup` map, and two fresh buffers of exactly the configured width, with `times` zeroed |
| SCache.Cache.Get | scache.go:53-66 | returns `Lookup` of the old store and leaves the store as `AfterGet`, with the key set unchanged |
| SCache.Cache.Set | scache.go:68-79 | the new store is `AfterSet` of the old one; the key now holds a freshly allocated item, and every other key keeps its item object |
| SCache.Cache.Fetch | scache.go:81-91 | a hit returns the cached value with no error; a miss returns the producer's value and error verbatim; the new store is `AfterFetch`; every key holds either the item object it held before or a freshly allocated one |
| SCache.Cache.Clear | scache_test.go:39-40 | the `lookup` map becomes empty |
| SCache.Cache.Prune | scache.go:109-147 | `times[..|sample|]` is the sorted sample and `times[0]` is the threshold, `scratch[..|victims|]` holds the victims, both buffers are untouched beyond those prefixes, and the new store is the old one minus exactly the victims; every kept key keeps its item object |
| SCache.Cache.SampleSorted | scache.go:110-126 | after the first pass and the sort, the prefix is the sorted sample and `times[0]` is the threshold |
| SCache.Cache.SamplePass | scache.go:110-123 | the first loop writes exactly the sample into `times[..found]` and nothing beyond it |
| SCache.Cache.VictimPass | scache.go:128-140 | the second loop writes exactly the victims into `scratch[..found]` and nothing beyond it |
| SCache.Cache.Evict | scache.go:142-146 | the deletion loop removes exactly the keys in `scratch[..found]` from `lookup` and from the store |
| Scenarios.MissOnUnknownKey | scache_test.go:11-15 | a new cache misses a key that was never set |
| Scenarios.ExpiredIsMissed | scache_test.go:17-23 | a value set for ten seconds is missed eleven seconds later |
| Scenarios.LiveIsServed | scache_test.go:25-31 | a value set for ten seconds is served nine seconds later |
| Scenarios.ClearEmpties | scache_test.go:33-41 | two set keys are held, and after `Clear` none are |
| Scenarios.SetOverwritesValue | scache_test.go:43-49 | a second `Set` of a key is what `Get` then serves |
| Scenarios.FetchServesCached | scache_test.go:51-58 | `Fetch` of a live key returns the cached value and no error, whatever the producer would give |
| Scenarios.FetchLoadsOnMiss | scache_test.go:60-69 | `Fetch` of a missing key returns the producer's value with no error, and a `Get` then serves it |
| Scenarios.FetchPassesError | scache_test.go:71-79 | `Fetch` with a failing producer returns its value and error as they are, and the key stays missing |
| Scenarios.PruneThenGet | scache.go:109-147 | after an eviction round, `Get` answers from the old store minus exactly the victims |

## Left out

- The `gc` goroutine (scache.go:93-107) is not modelled. It is an endless sleep-and-prune loop run concurrently, so no termination can be claimed.
- `sync.RWMutex` and the `sync/atomic` loads and stores are erased, and every operation runs alone. Races between `prune`'s passes and concurrent `Get` or `Set` calls are not modelled.
- `rand.Int31n` is replaced by the `draws` parameter, one draw per entry the first loop visits. The statistical bias of the eviction is not modelled.
- The `int32` casts at scache.go:111 and scache.go:114 are not modelled. They convert the map length and the width. An overflow needs at least 2^31 entries or a width of at least 2^31.
- The iteration order of Go's map `range` is replaced by the `order` and `order2` parameters.
- `nd.Now()` is replaced by the `now` parameter, in Unix seconds.
- `ttl` is taken in whole seconds. `time.Duration`'s nanoseconds and the truncation of `now.Add(ttl).Unix()` for sub-second parts are not modelled.
- `pruneFrequency` is kept in nanoseconds, as `time.Duration` stores it.
- SCache.Cache.Fetch: one `now` serves both the inner `Get` and the inner `Set`. The source reads the clock twice.
- SCache.Cache.Fetch: values are a generic `V` and a miss is `None`. In the source a stored `nil` value is indistinguishable from a miss, which makes `Fetch` call the producer again. That conflation is not modelled.
- SCache.Cache.Fetch: the producer is modelled by its outcome `(produced, failure)`. Whether the producer is called at all (the tests pass `nil` on a hit) is not modelled.
- SCache.Cache.Clear: `Clear` is not defined in scache.go or configuration.go. It is called by scache_test.go:39-40, which expects the store to be empty afterwards, and only that is modelled.
- SCache.Cache.New: the precondition that the width is non-negative stands for Go's `make` panicking on a negative length.
- SCache.Cache.Prune: the width must be at least 1. With a width of 0, `times[0]` would index out of range.
- The configuration must not change after `New`. The buffers keep the width they were allocated with, and `Prune` requires them to match the configured width.
- Times.Sort is written as an insertion sort. Go's `sort.Sort` uses a different algorithm on longer ranges, but its promised result is the same: the prefix ends sorted and is a permutation of what it held.
- `Times.Len` is not modelled separately. The slice length is the parameter `n` of `Times.Sort`.
- `Times.Less` is modelled, but it has no row in the table. It is the comparison `t[i] < t[j]` and has no contract of its own.
