# Prompt cache: model and proofs

A model of the prompt cache in `src/prompt_cache/`, with its state kept the way
the code keeps it and its properties stated over every input, every run and
every interleaving.

The files follow the program.

- `lru_chain.dfy`, `heap.dfy`, `eviction.dfy`: the eviction strategies as they
  are in memory: a sentinel doubly linked list with a side map, a binary heap
  with lazily discarded records, two chains that share no node. Each method is
  proved to refine a function on the abstract policy of `eviction_model.dfy`: a
  recency sequence, a table of uses, a pair of disjoint sequences.
- `entries.dfy`, `backend.dfy`, `semantic.dfy`, `prompt_cache.dfy`: entries, the
  in-memory backend with its running byte total, the semantic layer with its
  dirty index, and the orchestrator as an object over all of them. Its methods
  are proved to compute the steps of `cache_model.dfy`.
- `cache_model.dfy`: the cache as a state machine. Every critical section is one
  step with its own clock; a lookup is a read step and a mark step, and anything
  may happen between the two.
- `agreement.dfy`, `lru_runs.dfy`, `lru_inclusion.dfy`, `recency_orders.dfy`,
  `lfu_counts.dfy`, `slru_scan.dfy`, `slru_hot.dfy`, `factory.dfy`: what holds over
  whole runs of that machine.
- `rwlock.dfy`: the read-write lock as a transition system over finitely many
  tasks, each with any list of read and write sections, and as an object whose
  tasks are run one step at a time.
- `values.dfy`, `text.dfy`, `ordering.dfy`, `key_builder.dfy`, `cache_keys.dfy`:
  values with ordered dictionaries, text normalization, canonical values and
  cache keys.
- `canonical_forms.dfy`: when two values have the same canonical form and two
  requests the same key, told without computing either.
- `requests.dfy`: which request an entry answers, and what a hit on a request
  returns.
- `restored_keys.dfy`, `warm.dfy`: dumping a cache to lines of JSON, warming one
  from them, and what sorting the keys on the way does.
- `witnesses.dfy`: the assumptions on libraries can be met.
- `keys.dfy`: duplicate-free key sequences, which everything else is stated in.

The central invariant is that stored keys are tracked keys, and not the
converse: the backend deletes expired entries on its own and the policy is not
told. Tracked keys that are no longer stored are called ghosts here. Every bound
and every theorem about runs holds with ghosts present, unless it says that
nothing expires.

Parameters stand for what the code calls but does not define: clock readings,
the serialized size of an entry, the embedding function and the square root,
glob matching, the digest, `str`, and the JSON library. Where a result needs
something of them, it is a named assumption of that result:
`KeyBuilder.HexDigests` (a digest is its own canonical text and has no colon),
`CacheKeys.Injective` (different texts have different digests),
`CacheKeys.TellsApart` (the JSON forms of the two key materials at hand differ if
they do), `Warm.Reads` (the payload at hand is read back, on one line, with its
keys sorted) and `Agreement.Rooted` (the root is that of the squared lengths at
hand). `witnesses.dfy` shows that they can be met, for any finite number of
requests and payloads.

## Where code and documentation differ

The model follows the code.

- `src/prompt_cache/concurrency.py:11` calls the lock fair. Writers are
  preferred: a reader waits for as long as some writer is waiting. Termination
  is proved for finitely many sections; that no reader starves is not claimed.
- `src/prompt_cache/core.py:155` says that `clear` resets all policy state.
  Ghosts stay tracked (`CacheModel.GhostOutlivesClear`); the exact condition is
  `CacheModel.ClearForgetsAll`.
- `src/prompt_cache/core.py:193-215` enforces the limits on a store only. A hit
  can break a byte limit (`CacheModel.MarkCanExceed`, `CacheModel.TenthHitExceeds`);
  the exact condition is `CacheModel.LimitsOverRuns`.
- `src/prompt_cache/key_builder.py:17-20` promises one key for logically
  equivalent requests. Parameter order matters when a caller passes both
  `system` and `system_hash` (`CacheKeys.SystemOrderMatters`); the exact condition
  is `CacheKeys.OrderIrrelevantExactly`.
- `src/prompt_cache/warm.py:84-85` promises a warm restart. JSON sorts the keys of
  the parameters, so an entry stored with `system_hash` before `system` comes back
  under another key (`RestoredKeys.HashFirstChangesKey`); the exact condition
  is `Warm.DumpThenWarm`.
- `src/prompt_cache/eviction.py:164-171` does not mention that segmented LRU
  treats an empty key as no key; `EvictionModel.NoVictimExactly` says when.

## Model

| member | source | states |
|---|---|---|
| `LruChains.LruChain.AppendMru` | src/prompt_cache/eviction.py:43-49 | the linked list and its side map, relinked in place, end as `Touch` of the old key sequence; links agree both ways between the sentinels, and the map stays a bijection onto the nodes |
| `LruChains.LruChain.AppendNew` | src/prompt_cache/eviction.py:47-49 | the branch for an absent key: one fresh node, linked in as most recently used |
| `LruChains.LruChain.MoveToMru` | src/prompt_cache/eviction.py:51-56 | a present key becomes the most recently used one, an absent one changes nothing; no node is allocated |
| `LruChains.LruChain.Remove` | src/prompt_cache/eviction.py:58-62 | the key leaves list and map together; the order of the others is untouched |
| `LruChains.LruChain.LruKey` | src/prompt_cache/eviction.py:64-68 | the first key of the abstract sequence, and nothing exactly when it is empty |
| `LruChains.LruChain.PopLru` | src/prompt_cache/eviction.py:70-75 | returns the first key and leaves the rest of the sequence |
| `LruChains.LruChain.Unlink` | src/prompt_cache/eviction.py:77-85 | splices one node out of the ring by its neighbours alone: the ring closes over the gap, and the node points nowhere |
| `LruChains.LruChain.InsertBefore` | src/prompt_cache/eviction.py:87-93 | splices a node in before an anchor at any position of the ring |
| `LruChains.LruChain.Length` | src/prompt_cache/eviction.py:40-41 | the size of the map is the length of the sequence |
| `LruChains.MapsRemove` | src/prompt_cache/eviction.py:58-62 | dropping a key from the map and its node from the spine keeps the two in bijection |
| `LruChains.MapsMove` | src/prompt_cache/eviction.py:51-56 | moving a node to the end keeps the same map a bijection, and is `Touch` on the keys |
| `Eviction.LRUPolicy.SelectVictim` | src/prompt_cache/eviction.py:111-112 | the least recently used tracked key |
| `Eviction.LFUPolicy.PushRecord` | src/prompt_cache/eviction.py:131-145 | a new matching record at a new clock keeps the heap ordered and exact, and leaves earlier records of the key stale |
| `Eviction.LFUPolicy.RecordInsert` | src/prompt_cache/eviction.py:131-134 | the lazy heap refines the table of uses: the key restarts at frequency one |
| `Eviction.LFUPolicy.RecordAccess` | src/prompt_cache/eviction.py:136-145 | the frequency of a tracked key is exactly one higher, at a new clock, and that of an untracked one is one; no other key changes |
| `Eviction.LFUPolicy.RecordDelete` | src/prompt_cache/eviction.py:147-148 | forgetting a live key leaves its heap record stale and the heap exact |
| `Eviction.LFUPolicy.DiscardTop` | src/prompt_cache/eviction.py:154-156 | popping a stale root removes that record only, keeps the heap ordered and no live key loses its record |
| `Eviction.LFUPolicy.SelectVictim` | src/prompt_cache/eviction.py:150-158 | the loop ends, discards only stale records, and returns the live key minimal in frequency and then clock; it returns nothing exactly when nothing is tracked |
| `Eviction.LFUPolicy.PopsAreBounded` | src/prompt_cache/eviction.py:126-158 | in every reachable state, all pops so far are at most the pushes minus the live keys |
| `Eviction.LiveRootIsLeast` | src/prompt_cache/eviction.py:150-157 | a heap root that matches the state table is the strict minimum over all live keys |
| `Eviction.LiveAtMostRecords` | src/prompt_cache/eviction.py:126-134 | live keys never outnumber heap records |
| `Eviction.ExactPush` | src/prompt_cache/eviction.py:131-145 | one matching record per live key, distinct clocks and none ahead of the counter survive a push at the next clock |
| `RecordHeap.Push` | src/prompt_cache/eviction.py:134 | the binary heap keeps its order under an insertion, and holds exactly one record more |
| `RecordHeap.Pop` | src/prompt_cache/eviction.py:155 | the heap gives up its root, which no other record is less than, and keeps its order |
| `RecordHeap.RootIsLeast` | src/prompt_cache/eviction.py:152 | heap order makes the root a minimum of the whole heap |
| `Eviction.SLRUPolicy.Create` | src/prompt_cache/eviction.py:173-183 | construction fails exactly when a capacity is not positive |
| `Eviction.SLRUPolicy.RecordInsert` | src/prompt_cache/eviction.py:185-192 | a re-inserted key is touched in the segment it is in, a new one joins probation; the two chains stay disjoint in memory |
| `Eviction.SLRUPolicy.RecordAccess` | src/prompt_cache/eviction.py:194-206 | whichever segment a tracked key is in, it ends as the most recent protected key and is not on probation; an unknown one joins probation |
| `Eviction.SLRUPolicy.DemoteOverflow` | src/prompt_cache/eviction.py:201-204 | the protected segment, when over its capacity, hands back exactly its least recently used key as the most recent probationary one |
| `Eviction.SLRUPolicy.RecordDelete` | src/prompt_cache/eviction.py:208-210 | the key leaves both segments |
| `Eviction.SLRUPolicy.SelectVictim` | src/prompt_cache/eviction.py:212-215 | both branches and the truthiness of `or`: the first probationary key unless it is empty, otherwise the first protected one |
| `Eviction.SLRUPolicy.Length` | src/prompt_cache/eviction.py:217-218 | the two lengths add up to the number of tracked keys |
| `Eviction.EvictionPolicy.RecordInsert` | src/prompt_cache/eviction.py:102-192 | whichever strategy is configured refines the abstract policy on inserts |
| `Eviction.EvictionPolicy.RecordAccess` | src/prompt_cache/eviction.py:105-206 | and on accesses |
| `Eviction.EvictionPolicy.RecordDelete` | src/prompt_cache/eviction.py:108-210 | and on deletes |
| `Eviction.EvictionPolicy.SelectVictim` | src/prompt_cache/eviction.py:111-215 | and on the choice of a victim, which leaves the abstract state alone |
| `EvictionModel.InsertKeeps` | src/prompt_cache/eviction.py:102-192 | for each policy and any key, an insert keeps its structure and adds exactly that key to the tracked ones |
| `EvictionModel.AccessKeeps` | src/prompt_cache/eviction.py:105-206 | for any key, an access keeps the structure of the policy; LRU tracks no new key, the others track the key accessed |
| `EvictionModel.PromoteKeeps` | src/prompt_cache/eviction.py:198-205 | promotion with its overflow protects the key, loses none, keeps the segments disjoint and the protected one within capacity |
| `EvictionModel.AccessProtects` | src/prompt_cache/eviction.py:198-205 | an access to a probationary key makes it the last protected one; the others keep their order, and only a full segment gives one up: its old first key, which becomes the last probationary one |
| `EvictionModel.SegmentIsKept` | src/prompt_cache/eviction.py:185-206 | otherwise a key is touched in the segment it is in: no insert ever protects a key, and an access to an unknown key starts its probation |
| `EvictionModel.AccessHeats` | src/prompt_cache/eviction.py:194-206 | so in either segment a tracked key ends as the most recent protected one |
| `EvictionModel.DeleteKeeps` | src/prompt_cache/eviction.py:108-210 | deletes keep the structure of the policy and forget exactly the given keys |
| `EvictionModel.LeastExists` | src/prompt_cache/eviction.py:150-158 | distinct clocks make a non-empty table of uses have a strict minimum |
| `EvictionModel.VictimExists` | src/prompt_cache/eviction.py:111-215 | every victim is tracked, and there is none exactly when nothing is tracked, for all three policies |
| `EvictionModel.NoVictimExactly` | src/prompt_cache/eviction.py:212-215 | for SLRU on arbitrary keys: exactly when `or` makes it report no victim |
| `EvictionModel.EmptyKeyHasNoVictim` | src/prompt_cache/eviction.py:212-215 | a tracked empty key that SLRU cannot offer |
| `LfuCounts.FrequencyCountsUses` | src/prompt_cache/eviction.py:131-148 | over every run of inserts, accesses and deletes, counted from the operations: exactly the keys used since their last delete are tracked, a frequency is one more than the accesses since the last insert, and clocks order keys by last use |
| `LfuCounts.FrequencyAfterInsert` | src/prompt_cache/eviction.py:131-145 | after an insert, or an access that acts as one, the frequency is one more than the number of accesses that follow, until the key is inserted again or deleted |
| `LfuCounts.VictimIsColdest` | src/prompt_cache/eviction.py:150-158 | over every such run the victim is exactly the key used least, and the least recently used among equals; there is none exactly if no key is left |
| `LfuCounts.FrequencyCountsHits` | src/prompt_cache/core.py:182-191 | over every run of an LFU cache, with entries expiring silently, the frequency of a stored key is one more than the hits its entry reports (also lines 102-111) |
| `LfuCounts.SetTakesColdest` | src/prompt_cache/core.py:193-215 | so a store costs no entry that had more hits than one still stored afterwards, ghosts or not; an entry with a hit outlives the new one |
| `Backend.InMemoryBackend.Get` | src/prompt_cache/backends.py:53-62 | a live entry is returned and becomes the most recent, an expired one is deleted on the way, and the accounting stays exact |
| `Backend.InMemoryBackend.Set` | src/prompt_cache/backends.py:64-72 | entry, size, order and running total change together, on a new key and on an overwrite |
| `Backend.InMemoryBackend.DeleteUnlocked` | src/prompt_cache/backends.py:78-84 | removes all three records of the key and reports whether it was there |
| `Backend.InMemoryBackend.Clear` | src/prompt_cache/backends.py:86-91 | empties the store |
| `Backend.LookupKeeps` | src/prompt_cache/backends.py:53-62 | a lookup keeps entries, sizes and order on one key set with the exact total, and never adds a key or a byte |
| `Backend.PutKeeps` | src/prompt_cache/backends.py:64-72 | so does a store: the total is the sum of the sizes of what is stored now |
| `Backend.DiscardKeeps` | src/prompt_cache/backends.py:78-84 | so does removing any set of keys, and the total never grows or becomes negative |
| `Backend.DeleteIsDiscard` | src/prompt_cache/backends.py:78-84 | deleting one key is removing the singleton set, whether or not it is stored |
| `Backend.DiscardTwice` | src/prompt_cache/backends.py:78-84 | removing keys in two rounds is removing them in one, so the order of deletions does not matter |
| `Entries.DictRoundTrip` | src/prompt_cache/types.py:60-85 | reading back the dictionary form of any entry gives that entry |
| `Entries.ExpiryInstant` | src/prompt_cache/types.py:39-53 | an entry counts as expired exactly from the instant it expires at, and never without one |
| `Entries.Copy` | src/prompt_cache/backends.py:62-68 | the copy made through the dictionary form equals the original |
| `CacheModel.CapacityOverRuns` | src/prompt_cache/core.py:102-111 | over every run from an empty cache, under every policy and with entries expiring silently: stored keys are tracked keys, the byte total is the sum of the stored sizes, and the item count is within the limit at every release of the lock exactly when that limit is not negative (also lines 193-215) |
| `CacheModel.SetEndsWithin` | src/prompt_cache/core.py:102-111 | a store ends within item limit and both byte limits exactly when none of them is negative; so the exit without a victim is never taken over a limit that can be met |
| `CacheModel.SetThatFits` | src/prompt_cache/core.py:193-215 | a store that leaves item count and bytes within the limits takes nothing away |
| `CacheModel.EnsureCapacityKeeps` | src/prompt_cache/core.py:193-215 | enforcing capacity ends within the limits or with nothing left, only removes entries and never alters one, and counts each removal |
| `CacheModel.EnsureCapacityStep` | src/prompt_cache/core.py:205-215 | each turn of the loop tracks strictly fewer keys, ghosts included, and leaves the outcome the same |
| `CacheModel.EvictKeeps` | src/prompt_cache/core.py:205-215 | evicting the selected victim forgets exactly that key, stored or ghost, and keeps stored keys tracked |
| `CacheModel.EvictIsDrop` | src/prompt_cache/core.py:208-214 | a turn of the loop does to backend and policy what an invalidation of that one key would |
| `CacheModel.MarkKeeps` | src/prompt_cache/core.py:182-191 | a mark keeps the cache invariant, whatever happened since its read phase, and adds no key |
| `CacheModel.MarkEndsWithin` | src/prompt_cache/core.py:187-190 | a mark serializes the entry again without enforcing limits: it stays within them exactly when the marked entry has not outgrown them |
| `CacheModel.MarkCanExceed` | src/prompt_cache/core.py:187-190 | for every serialization and every entry that a hit makes longer: a byte limit that the stored entry just met is broken by the hit |
| `CacheModel.TenthHitExceeds` | src/prompt_cache/core.py:187-190 | an instance as a run: with the hit count in decimal, nine hits keep a full cache within its limit and the tenth does not |
| `CacheModel.LimitsOverRuns` | src/prompt_cache/core.py:102-111 | over every run, the item limit and both byte limits hold at every release of the lock exactly when every mark on the way leaves its entry room (also lines 182-191, 193-215) |
| `CacheModel.ReadLeavesNoGhost` | src/prompt_cache/core.py:52-53 | the tracked keys stay exactly the stored keys through a read unless the key read has expired |
| `CacheModel.ClearForgetsAll` | src/prompt_cache/core.py:154-164 | clear empties the policy exactly when no ghost was tracked |
| `CacheModel.GhostOutlivesClear` | src/prompt_cache/core.py:154-164 | a ghost that stays in the policy after clear, though its description says that it resets all policy state |
| `CacheModel.OnlySetAdds` | src/prompt_cache/core.py:47-77 | no critical section but a store adds a stored key (also lines 113-127, 154-164) |
| `Agreement.RemovedLosesEmbedding` | src/prompt_cache/core.py:113-164 | an entry that is evicted, invalidated or cleared takes its embedding with it; one that a read or a mark removes has expired, and leaves it behind (also lines 208-214) |
| `CacheModel.SetKeepsCount` | src/prompt_cache/core.py:102-111 | after a store the item limit holds even when a byte limit cannot be met |
| `CacheModel.DropKeeps` | src/prompt_cache/core.py:113-127 | removing any set of keys everywhere keeps the invariant |
| `CacheModel.DropTwice` | src/prompt_cache/core.py:120-125 | dropping keys one after the other is dropping them together |
| `PromptCaches.PromptCache.constructor` | src/prompt_cache/core.py:28-45 | an empty backend, policy and semantic layer make the empty cache |
| `PromptCaches.PromptCache.Get` | src/prompt_cache/core.py:47-77 | exact match first and semantic match second, every phase at its own clock: which entry is returned, which one is marked, when there is no candidate, what raises, and the whole new state |
| `PromptCaches.PromptCache.GetSimilar` | src/prompt_cache/core.py:59-77 | the second half of a lookup: the candidate of the scan, or none, looked up again, annotated and marked |
| `PromptCaches.PromptCache.LookupPhase` | src/prompt_cache/core.py:52-53 | the read phase, with its lazy deletion |
| `PromptCaches.PromptCache.Mark` | src/prompt_cache/core.py:182-191 | the mark phase looks the key up again and changes nothing if it has gone |
| `PromptCaches.PromptCache.Set` | src/prompt_cache/core.py:79-111 | the entry built from the prompt and the ordered parameters of the call, recorded in backend, policy and semantic layer, and capacity enforced; nothing changes if building it raises |
| `PromptCaches.PromptCache.EnsureWithinLimits` | src/prompt_cache/core.py:193-215 | the loop over mutable backend, policy and semantic layer terminates and computes the abstract result |
| `PromptCaches.PromptCache.EvictVictim` | src/prompt_cache/core.py:208-215 | one turn: a stored victim leaves all three parts and is counted, a ghost leaves the policy only |
| `PromptCaches.PromptCache.Invalidate` | src/prompt_cache/core.py:113-127 | removes exactly the stored keys that match, in backend, policy and semantic layer, and returns how many there were |
| `PromptCaches.PromptCache.Clear` | src/prompt_cache/core.py:154-164 | empties backend and semantic layer; the policy forgets the keys that were stored |
| `PromptCaches.PromptCache.ListEntries` | src/prompt_cache/core.py:166-175 | the live entries in listing order, each read at its own clock, with the deletions that reading causes |
| `PromptCaches.ListedExactly` | src/prompt_cache/core.py:166-175 | an entry is listed exactly if it is stored and unexpired at the clock at which it is read |
| `PromptCaches.PromptCache.SemanticCandidate` | src/prompt_cache/core.py:59-66 | exactly the result of the scan over the recorded vectors; none without a layer, or if the embedding function raises |
| `Agreement.HitReturnsLastSet` | src/prompt_cache/core.py:47-57 | over every interleaving, a hit returns value, creation time, time to live and metadata of the last store on its key that nothing removed since, expires at the same instant, and is unexpired at the clock read; its hit count is the number of marks since |
| `Agreement.StoredIsHistory` | src/prompt_cache/core.py:102-111 | whatever was evicted or expired on the way, a stored entry is the one the history of its key alone determines (also lines 182-191) |
| `Agreement.HistoryIsLastSet` | src/prompt_cache/core.py:182-191 | that history is the last store plus one bump per mark |
| `Agreement.MarkKeepsContents` | src/prompt_cache/types.py:39-53 | a hit moves neither the contents of an entry nor its expiry |
| `Agreement.NoResurrection` | src/prompt_cache/core.py:182-186 | over any run, with any delayed marks in it, a removed key stays absent until it is stored again |
| `Requests.HitAnswersRequest` | src/prompt_cache/core.py:47-57 | a hit on a request returns the contents of the last entry that was stored for a request with the same prompt words and canonical metadata, and that nothing removed since (also lines 79-127, 182-191) |
| `Requests.AnswersByKey` | src/prompt_cache/key_builder.py:113-118 | an entry answers a request exactly when it is stored under the key of the request |
| `Requests.AnswersExactly` | src/prompt_cache/key_builder.py:83-106 | which is exactly if the words of the prompts are the same and the two requests agree on every field, told without canonical forms |
| `Requests.MadeIsWellMade` | src/prompt_cache/core.py:82-101 | the entry that a store builds has the key of the prompt and parameters that it records |
| `Requests.StoredIsWellMade` | src/prompt_cache/core.py:79-104 | and so has every entry of every reachable cache, whatever marks it went through |
| `Requests.RequestKeepsOthers` | src/prompt_cache/core.py:82-88 | the request that is stored has all parameters but the response fields and the time to live, in their order |
| `Requests.MetadataHolds` | src/prompt_cache/core.py:95-100 | the metadata of a new entry holds the prompt, the parameters of the request, each response field as given, an unset flag, and nothing else |
| `Requests.MadeHolds` | src/prompt_cache/core.py:90-101 | a new entry holds the response, no hits, and the clock readings at which it was created and last accessed |
| `Requests.MadeExpires` | src/prompt_cache/core.py:83 | a new entry expires after the default time to live if none is given, never if none at all is asked for, and otherwise after the number given (also lines 90-94) |
| `Requests.MarkHolds` | src/prompt_cache/core.py:182-191 | a mark counts one hit and notes the clock and the kind of hit; all else in the entry stays |
| `Requests.CopyHolds` | src/prompt_cache/core.py:69-70 | the copy that a semantic hit returns carries the similarity and the flag; all else is as stored |
| `Agreement.StoredHasEmbedding` | src/prompt_cache/core.py:105-107 | if embedding never raises, every stored key has the embedding of the prompt it was last stored under (also lines 113-125, 208-214) |
| `Agreement.StoredPromptMatches` | src/prompt_cache/semantic.py:78-101 | over every run, the prompt of a stored entry finds a match of similarity one at every threshold up to one, unless its embedding is zero |
| `Agreement.VectorsRecall` | src/prompt_cache/semantic.py:72-76 | over every run, each recorded vector is the normalized raw embedding of the last prompt that was stored under its key and embedded |
| `Agreement.MatchIsLargestCosine` | src/prompt_cache/semantic.py:78-101 | over every run a prompt finds a match exactly if its cosine with the raw embedding of some recorded prompt reaches the threshold; the match has the largest cosine, and reports it |
| `Agreement.LiveKeepsEmbedding` | src/prompt_cache/core.py:208-214 | enforcing capacity drops no embedding of a key that stays |
| `LruRuns.SetSurvives` | src/prompt_cache/core.py:102-110 | under LRU the entry just stored is still stored after eviction exactly when it fits the limits on its own (also lines 193-215) |
| `LruRuns.MostRecentSurvives` | src/prompt_cache/core.py:193-215 | the induction over evictions, ghost keys included, behind it |
| `LruRuns.WorkingSetAfterUse` | src/prompt_cache/core.py:182-215 | under LRU with only the item limit active, a key just stored or hit is lost only after at least as many other keys as the cache holds have been stored or actually hit |
| `LruRuns.WorkingSet` | src/prompt_cache/core.py:182-215 | meanwhile every key more recent than it is one of those |
| `LruRuns.RecentSurvives` | src/prompt_cache/core.py:193-215 | eviction for the item limit never reaches a key with fewer more recent keys than the limit |
| `LruInclusion.RunIncluded` | src/prompt_cache/core.py:193-215 | on every run without expiry and with bytes to spare, a larger LRU cache always stores the keys of a smaller one, in the same relative order |
| `LruInclusion.LargerCacheHits` | src/prompt_cache/core.py:47-57 | so every hit of the smaller cache is the same hit, entry for entry, of the larger one |
| `LruInclusion.IncludedStep` | src/prompt_cache/eviction.py:96-112 | one operation on both recency sequences keeps the inclusion and the bound on what the smaller one misses |
| `LruInclusion.SettledStep` | src/prompt_cache/core.py:193-215 | without expiry the whole cache behaves as a bounded recency sequence: each operation is one sequence operation and at most one eviction |
| `LruInclusion.OneEviction` | src/prompt_cache/core.py:193-215 | one key too many costs exactly the least recently used key |
| `RecencyOrders.SequentialRunsAlign` | src/prompt_cache/backends.py:53-84 | in every sequential run under LRU the backend order is the policy chain restricted to the stored keys, across expiry between phases, eviction, invalidation and overwrites |
| `RecencyOrders.UnmarkedRead` | src/prompt_cache/core.py:166-175 | a read without its mark, as listing performs, keeps the two orders together exactly when it misses or reads the most recent key |
| `RecencyOrders.AlignedLookup` | src/prompt_cache/core.py:52-55 | both phases of a lookup together keep them aligned in each of their outcomes (also lines 182-191) |
| `SlruScan.ScanSparesProtected` | src/prompt_cache/eviction.py:185-215 | under SLRU, with a protected capacity below the item limit, a run of any length of stores on unprotected keys leaves the protected sequence unchanged and its stored keys stored |
| `SlruScan.SetSparesProtected` | src/prompt_cache/core.py:193-215 | evictions that the item limit alone causes never take a protected key nor the key just set, even with ghosts tracked |
| `SlruScan.VictimIsCold` | src/prompt_cache/eviction.py:212-215 | while over the item limit the victim is the oldest probationary key, and not the newest one |
| `Factory.SegmentsShareTheLimit` | src/prompt_cache/factory.py:36-37 | the configured protected capacity leaves room for probation exactly when the cache holds at least two items; the capacities then add up to the limit |
| `Factory.ProtectedIsTheShare` | src/prompt_cache/factory.py:36 | the protected capacity is the largest whole number within the given share of the limit, but at least one |
| `Factory.BuildEvictionPolicy` | src/prompt_cache/factory.py:31-41 | each name gives its policy, with the computed capacities; any other name gives SLRU |
| `Factory.ConfiguredCacheResistsScans` | src/prompt_cache/factory.py:31-41 | however a configured SLRU cache of at least two items was used before, a scan then spares its protected keys |
| `Factory.RunKeepsCapacity` | src/prompt_cache/eviction.py:173-183 | no run changes the segment capacities |
| `SlruHot.HitProtects` | src/prompt_cache/eviction.py:194-206 | in every reachable state of an SLRU cache, a hit leaves its key stored, protected and the most recent of the protected ones |
| `SlruHot.HitKeySurvives` | src/prompt_cache/eviction.py:194-215 | a key that is hit stays stored and protected, whatever is stored after it, until at least as many other keys as the protected segment holds have been hit or stored again while protected |
| `SlruHot.HitKeySurvivesScans` | src/prompt_cache/eviction.py:185-215 | in a configured SLRU cache of at least two items, however it was used before, a key that is hit survives every scan that follows |
| `RWLock.Exclusion` | src/prompt_cache/concurrency.py:28-57 | in every reachable state a writer inside excludes all other tasks, and the three counters are the true counts |
| `RWLock.NoNewReaders` | src/prompt_cache/concurrency.py:29 | from when a writer waits until it enters, any reader inside was inside all along, in the same section (also lines 45-51) |
| `RWLock.NoReaderEnters` | src/prompt_cache/concurrency.py:29 | no step takes a reader inside while a writer waits |
| `RWLock.EntersExactly` | src/prompt_cache/concurrency.py:28-51 | in every reachable state, told from the statuses of the tasks alone: a reader that tests its guard gets in exactly if no writer is inside or waiting, a writer exactly if nobody is inside; otherwise the task falls asleep |
| `RWLock.ReadersShare` | src/prompt_cache/concurrency.py:28-31 | while no writer is inside or waiting, any number of readers that arrive are all inside at once, with those who were before |
| `RWLock.AllReadersInside` | src/prompt_cache/concurrency.py:28-31 | tasks that all begin with a read are all inside after one step each |
| `RWLock.LastOutWakes` | src/prompt_cache/concurrency.py:33-38 | the last task to leave wakes every sleeper; while somebody stays inside nobody else changes (also lines 53-57) |
| `RWLock.NoLostWakeup` | src/prompt_cache/concurrency.py:28-57 | in every reachable state a sleeping task still has a false entry guard |
| `RWLock.StepKeeps` | src/prompt_cache/concurrency.py:28-57 | every step keeps the counters true and every sleeper blocked |
| `RWLock.Progress` | src/prompt_cache/concurrency.py:28-57 | until all tasks are done, some task can take a step |
| `RWLock.StepDescends` | src/prompt_cache/concurrency.py:28-57 | every step lowers the remaining phases, or keeps them and lowers the woken tasks |
| `RWLock.RunsAreBounded` | src/prompt_cache/concurrency.py:28-57 | so the length of any run is bounded, from any state |
| `RWLock.MaximalRunsFinish` | src/prompt_cache/concurrency.py:24-57 | no run goes on for ever, and one that cannot be extended has completed every section of every task and left the lock free |
| `RWLock.EverySectionRuns` | src/prompt_cache/concurrency.py:24-57 | such a run has let every task enter each of its sections once, in its order |
| `RWLock.Scheduler.TakeStep` | src/prompt_cache/concurrency.py:24-57 | a step of a task as the coroutine takes it, on the mutable counters and the tasks that wait, is the abstract step; a task that tests its guard gets in exactly if the statuses of the tasks admit it; counters stay true and every sleeper blocked |
| `RWLock.Scheduler.RunToCompletion` | src/prompt_cache/concurrency.py:24-57 | letting any enabled task go next, in whatever order, ends within the bound, with every section of every task completed and the lock free |
| `RWLock.Scheduler.NotifyAll` | src/prompt_cache/concurrency.py:38 | every sleeper is woken and no other task changes (also line 57) |
| `Text.NormalizeIsJoin` | src/prompt_cache/key_builder.py:58-63 | the canonical text is the lowercase words joined by single spaces |
| `Text.NormalizeIdempotent` | src/prompt_cache/key_builder.py:58-63 | a second normalization changes nothing |
| `Text.NormalizeSeparates` | src/prompt_cache/key_builder.py:58-63 | two texts normalize alike exactly when their lowercase word sequences are equal |
| `Text.NormalizeCompares` | src/prompt_cache/key_builder.py:58-63 | which is exactly if they have as many words, and each word has the letters of its partner but for their case |
| `Text.WordsSplit` | src/prompt_cache/key_builder.py:39 | words are what whitespace separates: those of a text are those before any whitespace and those after it |
| `KeyBuilder.CanonicalIdempotent` | src/prompt_cache/key_builder.py:65-81 | canonicalizing a nested value again changes nothing and cannot raise, so the second pass over the metadata is the identity (also lines 105) |
| `KeyBuilder.OrderIndependent` | src/prompt_cache/key_builder.py:72-80 | the canonical form, and whether there is one, does not depend on the iteration order of maps with distinct key texts or of sets, at any depth |
| `KeyBuilder.SetOrderIndependent` | src/prompt_cache/key_builder.py:77-78 | for a set of mutually comparable items |
| `KeyBuilder.DictOrderIndependent` | src/prompt_cache/key_builder.py:72-76 | for a map with distinct key texts |
| `CanonicalForms.AlikeExactly` | src/prompt_cache/key_builder.py:65-81 | two values have the same canonical form exactly if they are alike: the same null, truth value or number, text with the same lowercase words, bytes by their digest, lists element by element, mappings field by field, sets up to order, and a set and a list if the list has the elements in order |
| `CanonicalForms.CanonicalExactly` | src/prompt_cache/key_builder.py:65-81 | the canonical form of a value is the one value alike to it that is made of null, truth values, numbers, normalized text, lists, and mappings with sorted keys |
| `CacheKeys.BuildComponents` | src/prompt_cache/key_builder.py:83-106 | the loop over the parameters computes the key material, or the type error, that the specification gives |
| `CacheKeys.OrderIrrelevantExactly` | src/prompt_cache/key_builder.py:90-106 | the key material is the same for every order of the parameters exactly when no two of them write different values to the same field |
| `CacheKeys.ConflictMatters` | src/prompt_cache/key_builder.py:94-99 | otherwise two orders really differ: `system` and `system_hash` write the same field |
| `CacheKeys.SystemOrderMatters` | src/prompt_cache/key_builder.py:94-99 | for every prompt and hash: giving `system` and `system_hash` in the two orders makes the same key material exactly when the hash given is that of the prompt |
| `CacheKeys.OnlySystemConflicts` | src/prompt_cache/key_builder.py:94-99 | with distinct names, the only conflict is a system prompt together with a `system_hash` that is not its hash |
| `CacheKeys.KeysAreNamed` | src/prompt_cache/key_builder.py:113-118 | a built key is never empty and starts with its namespace and version |
| `CacheKeys.KeyIgnoresOrder` | src/prompt_cache/key_builder.py:113-118 | reordering unconflicted parameters and reformatting the prompt keep the key, failures included |
| `CacheKeys.KeyIgnoresNestedOrder` | src/prompt_cache/key_builder.py:72-78 | so does reordering inside the parameter values (also lines 113-118) |
| `CacheKeys.KeyIgnoresExcluded` | src/prompt_cache/key_builder.py:92-93 | so does adding an excluded parameter anywhere (also lines 113-118) |
| `CacheKeys.KeyIgnoresOperational` | src/prompt_cache/key_builder.py:49-56 | for a builder constructed with any further exclusions, so does adding one of the four operational parameters |
| `KeyBuilder.MakeBuilder` | src/prompt_cache/key_builder.py:47-56 | a constructed builder has a namespace and a version that are not blank, keeps those that need no stripping, and excludes exactly the four operational parameters and those asked for |
| `CacheKeys.KeysSeparateRequests` | src/prompt_cache/key_builder.py:113-118 | under an injective digest two requests, to one builder or to two, share a key exactly when namespace, version, prompt words and canonical metadata agree; prompts with different words, and different namespaces or versions, never do |
| `CanonicalForms.MetadataMeans` | src/prompt_cache/key_builder.py:90-106 | two requests have the same metadata exactly if they agree on every field: both without it, or with alike values; the system prompt counts by the digest of its words |
| `CanonicalForms.KeysAgreeExactly` | src/prompt_cache/key_builder.py:113-118 | two requests share a key exactly if the words of their prompts are the same and they agree on every field |
| `CanonicalForms.UnrelatedFieldsDiffer` | src/prompt_cache/key_builder.py:113-118 | so one field on which they disagree keeps their keys apart |
| `CanonicalForms.NumbersDiffer` | src/prompt_cache/key_builder.py:66-67 | as two different numbers or truth values do |
| `CanonicalForms.TextsDiffer` | src/prompt_cache/key_builder.py:68-69 | two texts with different words |
| `CanonicalForms.ListsDiffer` | src/prompt_cache/key_builder.py:79-80 | two lists that disagree at one place or in length |
| `CanonicalForms.AbsenceDiffers` | src/prompt_cache/key_builder.py:91-100 | a parameter that only one of them gives |
| `CanonicalForms.SystemPromptsDiffer` | src/prompt_cache/key_builder.py:94-99 | and two system prompts with different words |
| `CacheKeys.MetadataFolds` | src/prompt_cache/key_builder.py:90-106 | the metadata is a sorted-insertion fold over the parameters, one pass instead of the two that are coded |
| `RestoredKeys.MetadataAgrees` | src/prompt_cache/key_builder.py:90-106 | two requests have the same metadata exactly when the last value they write to each field is the same |
| `RestoredKeys.CanonicalOfSorted` | src/prompt_cache/key_builder.py:72-76 | sorting the keys inside a value does not change its canonical form |
| `RestoredKeys.SortedKey` | src/prompt_cache/key_builder.py:90-118 | sorting the parameters of a request, as JSON does, keeps its key exactly when a system prompt after a `system_hash` agrees with it, and one given alone reads the same with sorted keys |
| `RestoredKeys.TextIsRestorable` | src/prompt_cache/key_builder.py:94-99 | a text system prompt without a `system_hash`, or before one, is harmless to sort |
| `RestoredKeys.HashFirstChangesKey` | src/prompt_cache/key_builder.py:94-99 | an input that fails: a request with `system_hash` first and `system` second leads to another key when dumped, unless the hash is that of the system prompt |
| `Warm.DumpThenWarm` | src/prompt_cache/warm.py:60-121 | warming an empty cache of any policy, with room enough, from a dump recreates exactly the dumped keys, each with its value, prompt, parameters and time to live, if and only if sorting is harmless to the parameters of every dumped entry |
| `Warm.ListedAreDistinct` | src/prompt_cache/core.py:166-175 | listing a cache yields distinct keys, each with the entry stored under it |
| `Warm.WarmedHolds` | src/prompt_cache/warm.py:60-81 | entries that fit together are all stored as they are, in any policy |
| `Warm.ParseDumped` | src/prompt_cache/warm.py:70-77 | reading back a dumped line gives the prompt, response and parameters with sorted keys, and the explicit time to live of its entry, including none |
| `Warm.SplitJoined` | src/prompt_cache/warm.py:41-42 | splitting the written text at every line terminator gives back the lines, also when there are none |
| `Warm.DumpEntries` | src/prompt_cache/warm.py:91-109 | one line per entry that has a prompt, in order; the others are counted as skipped |
| `Warm.DumpedExactly` | src/prompt_cache/warm.py:94-99 | an entry is dumped exactly if it has a prompt, in its place among the others |
| `Warm.WarmFromText` | src/prompt_cache/warm.py:40-49 | the loop over the lines leaves the cache and the counters of the line-by-line specification |
| `Warm.ProcessWarmLine` | src/prompt_cache/warm.py:60-81 | a blank line is skipped, a malformed one and one whose store raises are skipped and reported, any other is stored with its explicit or default time to live |
| `Warm.BlankExactly` | src/prompt_cache/warm.py:67-69 | a line is blank exactly if it has no words |
| `Warm.ParsedGives` | src/prompt_cache/warm.py:70-77 | a line gives the store its prompt, response and parameters; a time to live that it names goes before one among the parameters |
| `Warm.WarmedCounts` | src/prompt_cache/warm.py:67-81 | every line is loaded or skipped; the loaded ones are those that lead to an entry, and the skipped ones are errors unless they are blank |
| `Semantic.SemanticCacheLayer.FindSimilar` | src/prompt_cache/semantic.py:78-101 | for every threshold: a key of maximal similarity if some recorded key reaches the threshold, and none otherwise; where nothing beats -1 and the threshold is no higher, the empty key it started from. The index then describes exactly the recorded vectors |
| `Semantic.SemanticCacheLayer.EnsureIndex` | src/prompt_cache/semantic.py:116-126 | rebuilds a dirty index so that it lists exactly the recorded vectors |
| `Semantic.SemanticCacheLayer.Record` | src/prompt_cache/semantic.py:72-76 | replaces the vector of the key and marks the index dirty; nothing changes if the embedding raises |
| `Semantic.SemanticCacheLayer.Delete` | src/prompt_cache/semantic.py:103-106 | forgets one vector |
| `Semantic.SemanticCacheLayer.Clear` | src/prompt_cache/semantic.py:108-114 | forgets all vectors and leaves a clean empty index |
| `Semantic.RecordedPromptMatches` | src/prompt_cache/semantic.py:92-101 | a recorded prompt whose embedding is not zero always finds a match, as normalization gives it length one |
| `Semantic.NormalizedLength` | src/prompt_cache/semantic.py:16-20 | a normalized vector has length one, or zero if the vector was zero |
| `Semantic.NormalizedDirection` | src/prompt_cache/semantic.py:16-20 | normalization keeps the direction: as many components, and each of them times the length of the vector is the component of the vector |
| `Semantic.SimilarityTimesLengths` | src/prompt_cache/semantic.py:92-101 | the similarity of two normalized vectors, times the product of the lengths of the raw ones, is the dot product of the raw ones |
| `Semantic.SimilarityIsCosine` | src/prompt_cache/semantic.py:92-101 | so the similarity is the cosine of the raw vectors, and 0 if one of them is zero |
| `Semantic.DotUpdate` | src/prompt_cache/semantic.py:94-95 | in a similarity each component counts once, with its own partner |
| `Semantic.DotBound` | src/prompt_cache/semantic.py:94-95 | similarities of vectors of at most unit length lie between -1 and 1 |
| `Semantic.ScanFindsBest` | src/prompt_cache/semantic.py:92-101 | for thresholds above -1 the scan finds a best match exactly when there is one |

## Left out

- `RedisBackend`, `DiskBackend`, the command line, the HTTP service, configuration loading, metrics export and the LLM client: wrappers over libraries and I/O. Redis and disk also start with keys that the policy has never seen, so nothing here holds for them.
- Hit, miss, latency and error counters, and the cache gauges: they only record; the eviction counter is modelled.
- `PromptCache.warm` over tuples: a loop of stores.
- Task cancellation in the lock: a cancelled waiting writer leaves without notifying, so the absence of lost wake-ups is claimed for runs without cancellation.
- The lock and the cache are linked only by taking each critical section as one atomic step. `list_entries` takes no lock: its reads are `Read` steps, which may fall between any others, but not inside another section.
- Iteration order of dictionaries that hold entries and vectors: listings return the keys in some order, each once.
- The nearest-neighbour index of scikit-learn: the linear scan is modelled, with real arithmetic in place of floating point; `hashing_embedding` is one of the embedding functions that the parameter stands for.
- Semantic.RecordedPromptMatches: the root is exact, so a vector of non-zero length never normalizes to a zero or an infinite one, as rounding could make it.
- Agreement.MatchIsLargestCosine: is about thresholds above -1; `Semantic.Scanned` says what the code does below.
- CacheModel.CapacityOverRuns: starts from an empty in-memory backend and excludes stores under an empty key, which segmented LRU would not offer for eviction; a built key is never empty.
- LruInclusion.RunIncluded: is about runs in which no entry has a time to live and no store exceeds a byte limit; with either, inclusion is not claimed.
- LruRuns.WorkingSetAfterUse: asks that the key is not invalidated or found expired and that stores stay within the byte limits; what happens to other keys is unrestricted.
- SlruHot.HitKeySurvives: asks that the key is not invalidated or found expired and that stores stay within the byte limits.
- LfuCounts.FrequencyCountsHits: is about entries that start without hits, as every store makes them.
- SlruScan.ScanSparesProtected: is about stores within the byte limits; a byte limit may evict protected keys.
- Factory.SegmentsShareTheLimit: multiplies over the reals; rounding of the float product is not modelled.
- Segmented LRU has no bound on probation: nothing in the code trims it, so none is stated.
- A key just stored may be evicted at once under LFU, which restarts its frequency at one; `LfuCounts.SetTakesColdest` says which entries can be lost instead.
- Embeddings of ghosts may stay recorded after their eviction, as in the code; a candidate that is no longer stored ends in a miss.
- Unicode: text is ASCII, on which NFKC is the identity and lowercasing is by letter. Outside ASCII a second normalization can change the text.
- KeyBuilder.SetOrderIndependent: sets hold scalars; tuples and frozen sets inside sets are not modelled. Bytes are only hashed, and floating-point values are reals, so NaN is not covered.
- Parameters whose names are response metadata fields: a store strips them and a lookup does not, so the two can disagree on the key.
- Dictionary forms: numeric strings where a number is expected, lists of pairs where a dictionary is, and integers too large for a float are not modelled; a line with one counts as malformed here.
- Entries are values: a cached value or nested metadata shared by reference and changed by its holder is not modelled.
- Warm.DumpThenWarm: creation times restart at load, and recency order and response metadata are not in a dump. It is about entries whose value and parameters JSON can write and whose parameters have none of the names that `set` takes for itself, and asks that the limits have room for the restored entries.
- Warm.SplitJoined: a dumped line is taken to escape every line terminator, as the ASCII form of JSON does.
- Warm.WarmFromText: is the path without `aiofiles`, which splits the text it has read; iterating over the file splits at fewer terminators.
- Reading and writing the files themselves, file encodings and the error texts of malformed lines.
