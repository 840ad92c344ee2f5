/** Whatever interleaving of lookups, stores, invalidations, clears, evictions
    and expiries: a hit returns what the last store on its key put there. */
module Agreement {
  import opened KeySeq
  import opened Values
  import opened Entries
  import opened Backend
  import opened EvictionModel
  import opened Semantic
  import opened CacheModel

  /** `op` replaces or removes whatever was stored under `k`. */
  predicate Overrides(op: Op, k: Key) {
    match op
    case Set(entry, _) => entry.key == k
    case Invalidate(matches) => matches(k)
    case ClearAll => true
    case _ => false
  }

  /** Operation `i` is the last store on `k`, and nothing removed it since. */
  ghost predicate LastSet(ops: seq<Op>, k: Key, i: nat) {
    && i < |ops| && ops[i].Set? && ops[i].entry.key == k
    && forall j :: i < j < |ops| ==> !Overrides(ops[j], k)
  }

  /** `e` after `op`, which may be a mark on `k`. */
  function MarkedOnce(e: Entry, op: Op, k: Key): Entry {
    if op.Mark? && op.key == k then Bump(e, op.stamp, op.semantic) else e
  }

  /** The entry under `k` if nothing was ever evicted and nothing expired. */
  function History(ops: seq<Op>, k: Key): Option<Entry> {
    if ops == [] then None
    else
      var before, op := History(ops[..|ops| - 1], k), ops[|ops| - 1];
      if op.Set? && op.entry.key == k then Some(op.entry)
      else if before == None || Overrides(op, k) then None
      else Some(MarkedOnce(before.value, op, k))
  }

  /** The marks on `k` since it was last stored or removed. */
  function MarksSince(ops: seq<Op>, k: Key): nat {
    if ops == [] || Overrides(ops[|ops| - 1], k) then 0
    else MarksSince(ops[..|ops| - 1], k) + if ops[|ops| - 1].Mark? && ops[|ops| - 1].key == k then 1 else 0
  }

  lemma SetOnEntry(cfg: Config, c: Cache, e: Entry, prompt: string, k: Key)
    requires Inv(cfg, c) && e.key != "" && k in SetEntry(cfg, c, e, prompt).store.entries
    ensures
      var stored := SetEntry(cfg, c, e, prompt).store.entries[k];
      if e.key == k then stored == e else k in c.store.entries && stored == c.store.entries[k]
  {
    var stored := StoredKeeps(cfg, c, e, prompt);
    EnsureCapacityKeeps(cfg, stored);
  }

  lemma MarkOnEntry(cfg: Config, c: Cache, key: Key, now: real, stamp: real, semantic: bool, k: Key)
    requires Inv(cfg, c) && k in MarkAccess(cfg, c, key, now, stamp, semantic).store.entries
    ensures
      var e := MarkAccess(cfg, c, key, now, stamp, semantic).store.entries[k];
      k in c.store.entries && e == if k == key then Bump(c.store.entries[k], stamp, semantic) else c.store.entries[k]
  {
    if key in c.store.entries && !c.store.entries[key].IsExpired(now) {
      MarkedBytes(cfg, c, key, now, stamp, semantic);
    } else {
      assert MarkAccess(cfg, c, key, now, stamp, semantic).store.entries == c.store.entries - {key};
    }
  }

  /** What one step does to the entry stored under `k`. */
  lemma StepOnEntry(cfg: Config, c: Cache, op: Op, k: Key)
    requires Inv(cfg, c) && ValidOp(op) && k in Step(cfg, c, op).store.entries
    ensures
      var e := Step(cfg, c, op).store.entries[k];
      if op.Set? && op.entry.key == k then e == op.entry
      else
        && !Overrides(op, k) && k in c.store.entries
        && e == MarkedOnce(c.store.entries[k], op, k)
  {
    match op
    case Read(_, _) =>
    case Mark(key, now, stamp, semantic) => MarkOnEntry(cfg, c, key, now, stamp, semantic, k);
    case Set(entry, prompt) => SetOnEntry(cfg, c, entry, prompt, k);
    case Invalidate(_) =>
    case ClearAll =>
  }

  /** The cache may have forgotten a key, but an entry it holds is the one the
      history of its key gives. */
  lemma {:induction false} StoredIsHistory(cfg: Config, policy: Policy, ops: seq<Op>, k: Key)
    requires Coherent(policy) && ValidOps(ops)
    requires k in Run(cfg, Fresh(policy), ops).store.entries
    ensures History(ops, k) == Some(Run(cfg, Fresh(policy), ops).store.entries[k])
  {
    var init, op := ops[..|ops| - 1], ops[|ops| - 1];
    StepOnEntry(cfg, Run(cfg, Fresh(policy), init), op, k);
    if !(op.Set? && op.entry.key == k) {
      StoredIsHistory(cfg, policy, init, k);
    }
  }

  /** Both hold what the caller stored, and expire at the same instant. */
  ghost predicate SameContents(a: Entry, b: Entry) {
    && a.key == b.key && a.value == b.value && a.createdAt == b.createdAt && a.ttl == b.ttl
    && forall field :: field != "semantic_hit" ==> Find(a.metadata, field) == Find(b.metadata, field)
  }

  /** Marks count the hits and leave the contents alone. */
  lemma {:induction false} HistoryIsLastSet(ops: seq<Op>, k: Key) returns (i: nat)
    requires History(ops, k).Some?
    ensures LastSet(ops, k, i)
    ensures SameContents(History(ops, k).value, ops[i].entry)
    ensures History(ops, k).value.hitCount == ops[i].entry.hitCount + MarksSince(ops, k)
  {
    var init, op := ops[..|ops| - 1], ops[|ops| - 1];
    if op.Set? && op.entry.key == k {
      i := |ops| - 1;
    } else {
      i := HistoryIsLastSet(init, k);
      assert forall j :: 0 <= j < |init| ==> ops[j] == init[j];
      MarkKeepsContents(History(init, k).value, op, k);
    }
  }

  lemma MarkKeepsContents(e: Entry, op: Op, k: Key)
    ensures SameContents(MarkedOnce(e, op, k), e) && MarkedOnce(e, op, k).ExpiresAt() == e.ExpiresAt()
  {
    if op.Mark? && op.key == k {
      forall field | field != "semantic_hit"
        ensures Find(MarkedOnce(e, op, k).metadata, field) == Find(e.metadata, field)
      {
        FindSetField(e.metadata, Item("semantic_hit", Leaf(Bool(op.semantic))), field);
      }
    }
  }

  lemma HitIsStored(c: Cache, k: Key, now: real) returns (stored: Entry)
    requires ReadPhase(c, k, now).1.Some?
    ensures k in c.store.entries && stored == c.store.entries[k] == ReadPhase(c, k, now).1.value
    ensures !stored.IsExpired(now)
  {
    stored := c.store.entries[k];
  }

  lemma SameExpiry(a: Entry, b: Entry, now: real)
    requires SameContents(a, b)
    ensures a.ExpiresAt() == b.ExpiresAt() && (a.IsExpired(now) <==> b.IsExpired(now))
  {
  }

  /** A hit, exact or semantic, returns the contents of the last store on its
      key, unexpired at the clock it read; its hit count is the number of marks
      since. */
  lemma HitReturnsLastSet(cfg: Config, policy: Policy, ops: seq<Op>, k: Key, now: real) returns (i: nat)
    requires Coherent(policy) && ValidOps(ops)
    requires ReadPhase(Run(cfg, Fresh(policy), ops), k, now).1.Some?
    ensures LastSet(ops, k, i)
    ensures
      var hit, e := ReadPhase(Run(cfg, Fresh(policy), ops), k, now).1.value, ops[i].entry;
      && SameContents(hit, e) && hit.ExpiresAt() == e.ExpiresAt() && !e.IsExpired(now)
      && hit.hitCount == e.hitCount + MarksSince(ops, k)
  {
    var stored := HitIsStored(Run(cfg, Fresh(policy), ops), k, now);
    StoredIsHistory(cfg, policy, ops, k);
    i := HistoryIsLastSet(ops, k);
    SameExpiry(stored, ops[i].entry, now);
  }

  /** A mark that comes after its key was removed changes nothing: over any run
      in between, a key no store has put back stays absent. */
  lemma {:induction false} NoResurrection(cfg: Config, c: Cache, ops: seq<Op>, k: Key)
    requires Inv(cfg, c) && ValidOps(ops) && k !in c.store.entries
    requires forall i :: 0 <= i < |ops| && ops[i].Set? ==> ops[i].entry.key != k
    ensures k !in Run(cfg, c, ops).store.entries
  {
    if ops != [] {
      NoResurrection(cfg, c, ops[..|ops| - 1], k);
      if k in Run(cfg, c, ops).store.entries {
        StepOnEntry(cfg, Run(cfg, c, ops[..|ops| - 1]), ops[|ops| - 1], k);
      }
    }
  }

  // ---------- Recorded embeddings ----------

  /** The prompt `k` was last stored under, unless it was removed since. */
  function LastPrompt(ops: seq<Op>, k: Key): Option<string> {
    if ops == [] then None
    else
      var op := ops[|ops| - 1];
      if op.Set? && op.entry.key == k then Some(op.prompt)
      else if Overrides(op, k) then None
      else LastPrompt(ops[..|ops| - 1], k)
  }

  lemma StepKeepsEmbedding(cfg: Config, c: Cache, op: Op, k: Key)
    requires Inv(cfg, c) && ValidOp(op) && cfg.embed.Some?
    requires op.Set? ==> Resolve(cfg.embed.value, op.prompt).Some?
    requires k in Step(cfg, c, op).store.entries
    requires (op.Set? && op.entry.key == k) || k in c.vectors
    ensures k in Step(cfg, c, op).vectors
    ensures Step(cfg, c, op).vectors[k] ==
      if op.Set? && op.entry.key == k then Resolve(cfg.embed.value, op.prompt).value else c.vectors[k]
  {
    match op
    case Read(_, _) =>
    case Mark(_, _, _, _) =>
    case Set(entry, prompt) =>
      var stored := StoredKeeps(cfg, c, entry, prompt);
      LiveKeepsEmbedding(cfg, stored, k);
    case Invalidate(_) =>
    case ClearAll =>
  }

  /** With an embedding function that never raises, every stored key has the
      embedding of the prompt it was last stored under. */
  lemma {:induction false} StoredHasEmbedding(cfg: Config, policy: Policy, ops: seq<Op>, k: Key)
    requires Coherent(policy) && ValidOps(ops) && cfg.embed.Some?
    requires forall p :: cfg.embed.value.raw(p).Some?
    requires k in Run(cfg, Fresh(policy), ops).store.entries
    ensures LastPrompt(ops, k).Some?
    ensures
      var vectors := Run(cfg, Fresh(policy), ops).vectors;
      k in vectors && Some(vectors[k]) == Resolve(cfg.embed.value, LastPrompt(ops, k).value)
  {
    var init, op := ops[..|ops| - 1], ops[|ops| - 1];
    var before := Run(cfg, Fresh(policy), init);
    StepOnEntry(cfg, before, op, k);
    if !(op.Set? && op.entry.key == k) {
      StoredHasEmbedding(cfg, policy, init, k);
    }
    StepKeepsEmbedding(cfg, before, op, k);
  }

  /** Enforcing capacity never drops the embedding of a key it keeps. */
  lemma {:induction false} LiveKeepsEmbedding(cfg: Config, c: Cache, k: Key)
    requires Inv(cfg, c) && k in EnsureCapacity(cfg, c).store.entries && k in c.vectors
    ensures k in EnsureCapacity(cfg, c).vectors && EnsureCapacity(cfg, c).vectors[k] == c.vectors[k]
    decreases |Tracked(c.policy)|
  {
    var victim := SelectVictim(c.policy);
    if !Within(cfg, c.store) && victim.Some? {
      EnsureCapacityStep(cfg, c, victim.value);
      EvictKeeps(cfg, c, victim.value);
      EnsureCapacityKeeps(cfg, Evict(c, victim.value));
      LiveKeepsEmbedding(cfg, Evict(c, victim.value), k);
    }
  }

  // ---------- Similarities over runs ----------

  /** The last prompt under which `k` was stored and whose embedding was recorded,
      told from the operations and the raw embeddings. */
  function RecordedPrompt(embed: Embedder, ops: seq<Op>, k: Key): Option<string> {
    if ops == [] then None
    else
      var op := ops[|ops| - 1];
      if op.Set? && op.entry.key == k && RawOf(embed, op.prompt).Some? then Some(op.prompt)
      else RecordedPrompt(embed, ops[..|ops| - 1], k)
  }

  function RawOf(embed: Embedder, prompt: string): Option<Vector> {
    embed.raw(prompt)
  }

  lemma {:induction false} EvictedLosesEmbedding(cfg: Config, c: Cache, k: Key)
    requires Inv(cfg, c) && k in c.store.entries && k !in EnsureCapacity(cfg, c).store.entries
    ensures k !in EnsureCapacity(cfg, c).vectors
    decreases |Tracked(c.policy)|
  {
    var victim := SelectVictim(c.policy).value;
    EnsureCapacityStep(cfg, c, victim);
    EvictKeeps(cfg, c, victim);
    if k == victim {
      EnsureCapacityForgets(cfg, Evict(c, victim));
    } else {
      EvictedLosesEmbedding(cfg, Evict(c, victim), k);
    }
  }

  lemma SetLosesEmbedding(cfg: Config, c: Cache, e: Entry, prompt: string, k: Key)
    requires Inv(cfg, c) && e.key != "" && (k == e.key || k in c.store.entries)
    requires k !in SetEntry(cfg, c, e, prompt).store.entries
    ensures k !in SetEntry(cfg, c, e, prompt).vectors
  {
    var stored := StoredKeeps(cfg, c, e, prompt);
    EvictedLosesEmbedding(cfg, stored, k);
  }

  /** An entry that is evicted, invalidated or cleared takes its embedding with it;
      one that expires leaves it behind. */
  lemma RemovedLosesEmbedding(cfg: Config, c: Cache, op: Op, k: Key)
    requires Inv(cfg, c) && ValidOp(op) && k in c.store.entries && k !in Step(cfg, c, op).store.entries
    ensures op.Set? || op.Invalidate? || op.ClearAll? ==> k !in Step(cfg, c, op).vectors
    ensures op.Read? || op.Mark? ==> Step(cfg, c, op).vectors == c.vectors && c.store.entries[k].IsExpired(op.now)
  {
    match op
    case Read(_, _) =>
    case Mark(key, now, _, _) =>
      if k != key || !c.store.entries[k].IsExpired(now) {
        MarkKeepsOther(cfg, c, op, k);
      }
    case Set(entry, prompt) => SetLosesEmbedding(cfg, c, entry, prompt, k);
    case Invalidate(_) =>
    case ClearAll =>
  }

  lemma MarkKeepsOther(cfg: Config, c: Cache, op: Op, k: Key)
    requires Inv(cfg, c) && op.Mark? && k in c.store.entries
    requires k != op.key || !c.store.entries[k].IsExpired(op.now)
    ensures k in Step(cfg, c, op).store.entries
  {
    if op.key in c.store.entries && !c.store.entries[op.key].IsExpired(op.now) {
      MarkedBytes(cfg, c, op.key, op.now, op.stamp, op.semantic);
    }
  }

  /** Every recorded vector is the embedding of the last recorded prompt. */
  ghost predicate Recalls(embed: Embedder, ops: seq<Op>, vectors: map<Key, Vector>) {
    forall k :: k in vectors ==>
      RecordedPrompt(embed, ops, k).Some? && Some(vectors[k]) == Resolve(embed, RecordedPrompt(embed, ops, k).value)
  }

  lemma {:induction false} EnsureCapacityForgets(cfg: Config, c: Cache)
    requires Inv(cfg, c)
    ensures
      var vectors := EnsureCapacity(cfg, c).vectors;
      forall k :: k in vectors ==> k in c.vectors && vectors[k] == c.vectors[k]
    decreases |Tracked(c.policy)|
  {
    var victim := SelectVictim(c.policy);
    if !Within(cfg, c.store) && victim.Some? {
      EnsureCapacityStep(cfg, c, victim.value);
      EnsureCapacityForgets(cfg, Evict(c, victim.value));
    }
  }

  lemma SetOnVector(cfg: Config, c: Cache, e: Entry, prompt: string, k: Key)
    requires Inv(cfg, c) && e.key != "" && k in SetEntry(cfg, c, e, prompt).vectors
    ensures k in Recorded(cfg, c.vectors, e.key, prompt)
    ensures SetEntry(cfg, c, e, prompt).vectors[k] == Recorded(cfg, c.vectors, e.key, prompt)[k]
  {
    var stored := StoredKeeps(cfg, c, e, prompt);
    EnsureCapacityForgets(cfg, stored);
  }

  lemma StepOnVector(cfg: Config, c: Cache, op: Op, k: Key)
    requires Inv(cfg, c) && ValidOp(op) && k in Step(cfg, c, op).vectors
    ensures op.Set? ==>
      && k in Recorded(cfg, c.vectors, op.entry.key, op.prompt)
      && Step(cfg, c, op).vectors[k] == Recorded(cfg, c.vectors, op.entry.key, op.prompt)[k]
    ensures !op.Set? ==> k in c.vectors && Step(cfg, c, op).vectors[k] == c.vectors[k]
  {
    match op
    case Read(_, _) =>
    case Mark(_, _, _, _) =>
    case Set(entry, prompt) => SetOnVector(cfg, c, entry, prompt, k);
    case Invalidate(_) =>
    case ClearAll =>
  }

  lemma {:induction false} VectorsRecall(cfg: Config, policy: Policy, ops: seq<Op>)
    requires Coherent(policy) && ValidOps(ops) && cfg.embed.Some?
    ensures Recalls(cfg.embed.value, ops, Run(cfg, Fresh(policy), ops).vectors)
  {
    if ops != [] {
      var init, op := ops[..|ops| - 1], ops[|ops| - 1];
      VectorsRecall(cfg, policy, init);
      var before := Run(cfg, Fresh(policy), init);
      var vectors := Run(cfg, Fresh(policy), ops).vectors;
      forall k | k in vectors
        ensures RecordedPrompt(cfg.embed.value, ops, k).Some?
        ensures Some(vectors[k]) == Resolve(cfg.embed.value, RecordedPrompt(cfg.embed.value, ops, k).value)
      {
        StepOnVector(cfg, before, op, k);
      }
    }
  }

  /** The cosine between a prompt and the one recorded for `k`. */
  function CosineTo(embed: Embedder, ops: seq<Op>, prompt: string, k: Key): real
    requires RawOf(embed, prompt).Some?
  {
    var recorded := RecordedPrompt(embed, ops, k);
    if recorded == None || RawOf(embed, recorded.value) == None then 0.0
    else Cosine(embed.root, RawOf(embed, prompt).value, RawOf(embed, recorded.value).value)
  }

  lemma SimilarityTo(embed: Embedder, ops: seq<Op>, vectors: map<Key, Vector>, prompt: string, k: Key)
    requires Recalls(embed, ops, vectors) && Rooted(embed) && RawOf(embed, prompt).Some? && k in vectors
    ensures Dot(Resolve(embed, prompt).value, vectors[k]) == CosineTo(embed, ops, prompt, k)
  {
    var recorded := RecordedPrompt(embed, ops, k).value;
    SimilarityIsCosine(embed.root, RawOf(embed, prompt).value, RawOf(embed, recorded).value);
  }

  /** Over every run: a prompt finds a match exactly if its cosine with some
      recorded prompt reaches the threshold; the match is the one with the largest
      cosine, which is the similarity reported. */
  lemma MatchIsLargestCosine(cfg: Config, policy: Policy, ops: seq<Op>, prompt: string, threshold: real,
                             r: Option<Match>)
    requires Coherent(policy) && ValidOps(ops) && cfg.embed.Some? && Rooted(cfg.embed.value)
    requires RawOf(cfg.embed.value, prompt).Some? && threshold > -1.0
    requires Scanned(Run(cfg, Fresh(policy), ops).vectors, Resolve(cfg.embed.value, prompt).value, threshold, r)
    ensures
      var e, vectors := cfg.embed.value, Run(cfg, Fresh(policy), ops).vectors;
      && (r.Some? <==> exists k :: k in vectors && CosineTo(e, ops, prompt, k) >= threshold)
      && (r.Some? ==>
            && r.value.key in vectors && r.value.similarity == CosineTo(e, ops, prompt, r.value.key)
            && forall k :: k in vectors ==> CosineTo(e, ops, prompt, k) <= r.value.similarity)
  {
    var e, vectors := cfg.embed.value, Run(cfg, Fresh(policy), ops).vectors;
    VectorsRecall(cfg, policy, ops);
    forall k | k in vectors
      ensures Dot(Resolve(e, prompt).value, vectors[k]) == CosineTo(e, ops, prompt, k)
    {
      SimilarityTo(e, ops, vectors, prompt, k);
    }
    ScanIsCosine(e, ops, vectors, prompt, threshold, r);
  }

  lemma ScanIsCosine(e: Embedder, ops: seq<Op>, vectors: map<Key, Vector>, prompt: string, threshold: real,
                     r: Option<Match>)
    requires RawOf(e, prompt).Some? && threshold > -1.0 && Scanned(vectors, Resolve(e, prompt).value, threshold, r)
    requires forall k :: k in vectors ==> Dot(Resolve(e, prompt).value, vectors[k]) == CosineTo(e, ops, prompt, k)
    ensures r.Some? <==> exists k :: k in vectors && CosineTo(e, ops, prompt, k) >= threshold
    ensures r.Some? ==>
      && r.value.key in vectors && r.value.similarity == CosineTo(e, ops, prompt, r.value.key)
      && forall k :: k in vectors ==> CosineTo(e, ops, prompt, k) <= r.value.similarity
  {
    ScanFindsBest(vectors, Resolve(e, prompt).value, threshold, r);
    if k :| k in vectors && CosineTo(e, ops, prompt, k) >= threshold {
      assert Reaches(vectors, Resolve(e, prompt).value, threshold, k);
    }
  }

  /** Recorded vectors have at most unit length. */
  ghost predicate Bounded(vectors: map<Key, Vector>) {
    forall k :: k in vectors ==> Dot(vectors[k], vectors[k]) <= 1.0
  }

  lemma {:induction false} EnsureCapacityVectors(cfg: Config, c: Cache)
    requires Inv(cfg, c) && Bounded(c.vectors)
    ensures Bounded(EnsureCapacity(cfg, c).vectors)
    decreases |Tracked(c.policy)|
  {
    var victim := SelectVictim(c.policy);
    if !Within(cfg, c.store) && victim.Some? {
      EnsureCapacityStep(cfg, c, victim.value);
      EnsureCapacityVectors(cfg, Evict(c, victim.value));
    }
  }

  lemma RecordedBounded(cfg: Config, vectors: map<Key, Vector>, key: Key, prompt: string)
    requires Bounded(vectors) && cfg.embed.Some? && Rooted(cfg.embed.value)
    ensures Bounded(Recorded(cfg, vectors, key, prompt))
  {
    var raw := cfg.embed.value.raw(prompt);
    if raw.Some? {
      NormalizedLength(cfg.embed.value.root, raw.value);
    }
  }

  lemma SetBounded(cfg: Config, c: Cache, e: Entry, prompt: string)
    requires Inv(cfg, c) && e.key != "" && Bounded(c.vectors) && cfg.embed.Some? && Rooted(cfg.embed.value)
    ensures Bounded(SetEntry(cfg, c, e, prompt).vectors)
  {
    RecordedBounded(cfg, c.vectors, e.key, prompt);
    var stored := StoredKeeps(cfg, c, e, prompt);
    EnsureCapacityVectors(cfg, stored);
  }

  lemma StepBounded(cfg: Config, c: Cache, op: Op)
    requires Inv(cfg, c) && ValidOp(op) && Bounded(c.vectors) && cfg.embed.Some? && Rooted(cfg.embed.value)
    ensures Bounded(Step(cfg, c, op).vectors)
  {
    match op
    case Read(_, _) =>
    case Mark(_, _, _, _) =>
    case Set(entry, prompt) => SetBounded(cfg, c, entry, prompt);
    case Invalidate(_) =>
    case ClearAll =>
  }

  lemma {:induction false} RunBounded(cfg: Config, policy: Policy, ops: seq<Op>)
    requires Coherent(policy) && ValidOps(ops) && cfg.embed.Some? && Rooted(cfg.embed.value)
    ensures Bounded(Run(cfg, Fresh(policy), ops).vectors)
  {
    if ops != [] {
      RunBounded(cfg, policy, ops[..|ops| - 1]);
      StepBounded(cfg, Run(cfg, Fresh(policy), ops[..|ops| - 1]), ops[|ops| - 1]);
    }
  }

  /** The root is that of the squared length of every embedding. */
  ghost predicate Rooted(e: Embedder) {
    forall p :: e.raw(p).Some? ==> IsRoot(e.root, Dot(e.raw(p).value, e.raw(p).value))
  }

  /** Over every run: the prompt of a stored entry, unless its embedding is zero,
      finds a match at every threshold up to one, and one of similarity one. */
  lemma StoredPromptMatches(cfg: Config, policy: Policy, ops: seq<Op>, k: Key, threshold: real, r: Option<Match>)
    requires Coherent(policy) && ValidOps(ops) && cfg.embed.Some? && Rooted(cfg.embed.value)
    requires forall p :: cfg.embed.value.raw(p).Some?
    requires k in Run(cfg, Fresh(policy), ops).store.entries && threshold <= 1.0
    requires LastPrompt(ops, k).Some? && NonZero(cfg.embed.value.raw(LastPrompt(ops, k).value).value)
    requires
      var probe := Resolve(cfg.embed.value, LastPrompt(ops, k).value).value;
      Scanned(Run(cfg, Fresh(policy), ops).vectors, probe, threshold, r)
    ensures r.Some? && r.value.key in Run(cfg, Fresh(policy), ops).vectors && r.value.similarity == 1.0
  {
    var e, prompt, vectors := cfg.embed.value, LastPrompt(ops, k).value, Run(cfg, Fresh(policy), ops).vectors;
    StoredHasEmbedding(cfg, policy, ops, k);
    RecordedPromptMatches(e, vectors, prompt, threshold, r, k);
    RunBounded(cfg, policy, ops);
    NormalizedLength(e.root, e.raw(prompt).value);
    DotBound(Resolve(e, prompt).value, vectors[r.value.key]);
  }
}
