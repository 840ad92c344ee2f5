/** Dumping the cache to lines of JSON, and warming a cache from them. */
module Warm {
  import opened KeySeq
  import opened Text
  import opened Values
  import opened Entries
  import opened Backend
  import opened EvictionModel
  import opened CacheModel
  import opened Agreement
  import opened PromptCaches
  import opened Requests
  import opened RestoredKeys
  import KeyBuilder
  import CacheKeys

  /** JSON text; `loads` answers `None` where the library raises. */
  datatype Serde = Serde(dumps: Value -> string, loads: string -> Option<Value>)

  /** This value is read back as it was written, with its keys sorted, from one
      line that stripping leaves alone. */
  ghost predicate Reads(serde: Serde, v: Value) {
    && serde.loads(serde.dumps(v)) == Some(SortKeys(v))
    && OneLine(serde.dumps(v)) && serde.dumps(v) != "" && Strip(serde.dumps(v)) == serde.dumps(v)
  }

  // ---------- Lines ----------

  /** The characters that end a line; a line feed after a carriage return does
      not end another one. */
  predicate IsBreak(c: char) {
    '\n' <= c <= '\r' || 28 as char <= c <= 30 as char || c in {133 as char, '\U{2028}', '\U{2029}'}
  }

  predicate OneLine(s: string) {
    forall i :: 0 <= i < |s| ==> !IsBreak(s[i])
  }

  function JoinLines(lines: seq<string>): string {
    if lines == [] then "" else JoinLines(lines[..|lines| - 1]) + lines[|lines| - 1] + "\n"
  }

  /** The lines of a text; a last line need not be terminated. */
  function SplitLines(text: string): seq<string> {
    var lines := Lines(text);
    if lines[|lines| - 1] == "" then lines[..|lines| - 1] else lines
  }

  /** What lies between the breaks. */
  function Lines(text: string): (lines: seq<string>)
    ensures lines != []
  {
    if text == "" then [""]
    else
      var init, c := text[..|text| - 1], text[|text| - 1];
      var before := Lines(init);
      if c == '\n' && init != "" && init[|init| - 1] == '\r' then before
      else if IsBreak(c) then before + [""]
      else before[..|before| - 1] + [before[|before| - 1] + [c]]
  }

  lemma {:induction false} LinesAppend(text: string, line: string)
    requires OneLine(line)
    ensures var before := Lines(text);
      Lines(text + line) == before[..|before| - 1] + [before[|before| - 1] + line]
  {
    var before := Lines(text);
    if line == "" {
      assert text + line == text && before[|before| - 1] + line == before[|before| - 1];
    } else {
      var init, c := line[..|line| - 1], line[|line| - 1];
      LinesAppend(text, init);
      assert (text + line)[..|text + line| - 1] == text + init;
      assert before[|before| - 1] + init + [c] == before[|before| - 1] + line;
    }
  }

  lemma LinesBreak(text: string)
    requires text == "" || text[|text| - 1] != '\r'
    ensures Lines(text + "\n") == Lines(text) + [""]
  {
    assert (text + "\n")[..|text|] == text;
  }

  lemma JoinedEnds(lines: seq<string>)
    ensures lines != [] ==> JoinLines(lines) != "" && JoinLines(lines)[|JoinLines(lines)| - 1] == '\n'
  {
  }

  /** A joined text and one more line do not end in a carriage return. */
  lemma NoReturn(lines: seq<string>, line: string)
    requires OneLine(line)
    ensures var text := JoinLines(lines) + line; text == "" || text[|text| - 1] != '\r'
  {
    var joined := JoinLines(lines);
    JoinedEnds(lines);
    if line != "" {
      assert (joined + line)[|joined + line| - 1] == line[|line| - 1];
    } else {
      assert joined + line == joined;
    }
  }

  /** After complete lines, appended text is a line of its own. */
  lemma LinesComplete(text: string, lines: seq<string>, line: string)
    requires OneLine(line) && Lines(text) == lines + [""]
    ensures Lines(text + line) == lines + [line]
  {
    LinesAppend(text, line);
    assert (lines + [""])[..|lines|] == lines && "" + line == line;
  }

  lemma {:induction false} LinesJoined(lines: seq<string>)
    requires forall i :: 0 <= i < |lines| ==> OneLine(lines[i])
    ensures Lines(JoinLines(lines)) == lines + [""]
  {
    if lines != [] {
      var init, last := lines[..|lines| - 1], lines[|lines| - 1];
      var joined := JoinLines(init);
      LinesJoined(init);
      LinesComplete(joined, init, last);
      assert init + [last] == lines;
      NoReturn(init, last);
      LinesBreak(joined + last);
    }
  }

  /** Splitting gives back the lines that were joined. */
  lemma SplitJoined(lines: seq<string>)
    requires forall i :: 0 <= i < |lines| ==> OneLine(lines[i])
    ensures SplitLines(JoinLines(lines)) == lines
  {
    LinesJoined(lines);
    assert (lines + [""])[..|lines|] == lines;
  }

  // ---------- Dumping ----------

  function TtlValue(ttl: Option<real>): Value {
    Leaf(if ttl == None then Null else Float(ttl.value))
  }

  function Payload(e: Entry): Value {
    Dict([Item("prompt", Leaf(Str(PromptOf(e)))), Item("response", e.value),
          Item("llm_params", Dict(ParamsOf(e))), Item("ttl", TtlValue(e.ttl))])
  }

  /** The entries that are dumped: those with a prompt. */
  function Dumped(entries: seq<Entry>): seq<Entry> {
    if entries == [] then []
    else
      var before, last := Dumped(entries[..|entries| - 1]), entries[|entries| - 1];
      if PromptOf(last) == "" then before else before + [last]
  }

  lemma DumpedSnoc(init: seq<Entry>, last: Entry)
    ensures Dumped(init + [last]) == if PromptOf(last) == "" then Dumped(init) else Dumped(init) + [last]
  {
    assert (init + [last])[..|init|] == init;
  }

  lemma SnocConcat<A>(before: seq<A>, init: seq<A>, last: A)
    ensures before + (init + [last]) == before + init + [last]
  {
  }

  lemma {:induction false} DumpedConcat(before: seq<Entry>, after: seq<Entry>)
    ensures Dumped(before + after) == Dumped(before) + Dumped(after)
  {
    if after == [] {
      assert before + after == before;
    } else {
      var init, last := after[..|after| - 1], after[|after| - 1];
      assert after == init + [last];
      DumpedConcat(before, init);
      SnocConcat(before, init, last);
      DumpedSnoc(before + init, last);
      SnocConcat(Dumped(before), Dumped(init), last);
      DumpedSnoc(init, last);
    }
  }

  /** Every entry with a prompt is dumped, in its place, and no other one. */
  lemma DumpedExactly(before: seq<Entry>, e: Entry, after: seq<Entry>)
    ensures Dumped(before + [e] + after) ==
      Dumped(before) + (if PromptOf(e) == "" then [] else [e]) + Dumped(after)
  {
    DumpedConcat(before + [e], after);
    DumpedSnoc(before, e);
  }

  function DumpLines(serde: Serde, entries: seq<Entry>): seq<string> {
    seq(|entries|, i requires 0 <= i < |entries| => serde.dumps(Payload(entries[i])))
  }

  method DumpEntries(serde: Serde, entries: seq<Entry>) returns (text: string, written: nat, skipped: nat)
    ensures text == JoinLines(DumpLines(serde, Dumped(entries)))
    ensures written == |Dumped(entries)| && written + skipped == |entries|
  {
    var lines := [];
    skipped := 0;
    for i := 0 to |entries|
      invariant lines == DumpLines(serde, Dumped(entries[..i])) && |lines| + skipped == i
    {
      assert entries[..i + 1][..i] == entries[..i];
      var prompt := PromptOf(entries[i]);
      if prompt == "" {
        skipped := skipped + 1;
        continue;
      }
      lines := lines + [serde.dumps(Payload(entries[i]))];
    }
    assert entries[..|entries|] == entries;
    text := JoinLines(lines);
    written := |lines|;
  }

  // ---------- Warming ----------

  datatype Line = Blank | Malformed | Pair(prompt: string, response: Value, params: Params)

  /** Names that a keyword argument of a store may not have. */
  const RESERVED: set<string> := {"self", "prompt", "response"}

  function ParseLine(serde: Serde, line: string): Line {
    var stripped := Strip(line);
    if stripped == "" then Blank
    else
      match serde.loads(stripped)
      case Some(Dict(payload)) => ParsePayload(payload)
      case _ => Malformed
  }

  function ParsePayload(payload: seq<Item>): Line {
    var prompt, response := Find(payload, "prompt"), Find(payload, "response");
    var params := GetOr(payload, "llm_params", Dict([]));
    if prompt == None || response == None || !prompt.value.Leaf? || !prompt.value.scalar.Str? || !params.Dict?
       || exists i :: 0 <= i < |params.items| && params.items[i].key in RESERVED
    then Malformed
    else
      var ttl := Find(payload, "ttl");
      Pair(prompt.value.scalar.s, response.value,
           if ttl == None then params.items else SetField(params.items, Item("cache_ttl", ttl.value)))
  }

  /** A line is blank exactly if it has no words. */
  lemma BlankExactly(serde: Serde, line: string)
    ensures ParseLine(serde, line) == Blank <==> Words(line) == []
  {
    var skipped := SkipSpaces(line);
    SkipSpacesShrinks(line);
    DropTrailingStrips(skipped);
    WordsSkipSpaces(line);
    WordsDropTrailing(skipped);
  }

  /** What a line gives to the store: prompt and response, the parameters, and the
      time to live it names, which goes before one among the parameters. */
  lemma ParsedGives(payload: seq<Item>, prompt: string, response: Value, params: Params, name: string)
    requires ParsePayload(payload) == Pair(prompt, response, params)
    ensures Find(payload, "prompt") == Some(Leaf(Str(prompt))) && Find(payload, "response") == Some(response)
    ensures
      var given := GetOr(payload, "llm_params", Dict([]));
      && given.Dict?
      && Find(params, name) ==
           if name == "cache_ttl" && Find(payload, "ttl").Some? then Find(payload, "ttl")
           else Find(given.items, name)
  {
    var given, ttl := GetOr(payload, "llm_params", Dict([])), Find(payload, "ttl");
    if ttl.Some? {
      FindSetField(given.items, Item("cache_ttl", ttl.value), name);
    }
  }

  /** How one cache reads a line, the entry it makes of one, and how it stores
      an entry. */
  datatype Warmer = Warmer(
    parse: string -> Line,
    make: (string, Value, Params, real, real) -> Option<Entry>,
    store: (Cache, Entry, string) -> Cache)

  ghost function WarmerOf(cfg: Config, serde: Serde, b: KeyBuilder.Builder, defaultTtl: real): Warmer {
    Warmer(
      line => ParseLine(serde, line),
      (prompt, response, params, now, stamp) => MakeEntry(b, defaultTtl, prompt, response, params, now, stamp),
      (c: Cache, e: Entry, prompt: string) => if Inv(cfg, c) && e.key != "" then SetEntry(cfg, c, e, prompt) else c)
  }

  /** `w` acts as the parts do, stated so that a use of a part brings up the
      equation for it and nothing else does. */
  ghost predicate Describes(w: Warmer, cfg: Config, serde: Serde, b: KeyBuilder.Builder, defaultTtl: real) {
    && (forall line {:trigger ParseLine(serde, line)} :: w.parse(line) == ParseLine(serde, line))
    && (forall prompt, response, params, now, stamp
          {:trigger MakeEntry(b, defaultTtl, prompt, response, params, now, stamp)} ::
          w.make(prompt, response, params, now, stamp)
          == MakeEntry(b, defaultTtl, prompt, response, params, now, stamp))
    && StoresAs(w, cfg)
  }

  ghost predicate StoresAs(w: Warmer, cfg: Config) {
    forall c: Cache, e: Entry, prompt: string {:trigger SetEntry(cfg, c, e, prompt)} ::
      Inv(cfg, c) && e.key != "" ==> w.store(c, e, prompt) == SetEntry(cfg, c, e, prompt)
  }

  /** The entry that a line leads to, if it leads to one. */
  function Remake(w: Warmer, line: string, now: real, stamp: real): Option<Entry> {
    match w.parse(line)
    case Pair(prompt, response, params) => w.make(prompt, response, params, now, stamp)
    case _ => None
  }

  /** The cache and the counts of a run over a file. */
  datatype Warming = Warming(cache: Cache, loaded: nat, skipped: nat, errors: nat)

  function WarmOne(w: Warmer, s: Warming, line: string, now: real, stamp: real): Warming {
    match w.parse(line)
    case Blank => s.(skipped := s.skipped + 1)
    case Malformed => s.(skipped := s.skipped + 1, errors := s.errors + 1)
    case Pair(prompt, response, params) =>
      var made := w.make(prompt, response, params, now, stamp);
      if made == None then s.(skipped := s.skipped + 1, errors := s.errors + 1)
      else s.(cache := w.store(s.cache, made.value, prompt), loaded := s.loaded + 1)
  }

  // Line `i` reads the clock twice.

  function Now(clock: nat -> real, i: nat): real { clock(2 * i) }

  function Stamp(clock: nat -> real, i: nat): real { clock(2 * i + 1) }

  /** Warming from the first `n` lines. */
  function Warmed(w: Warmer, c: Cache, lines: seq<string>, n: nat, clock: nat -> real): Warming
    requires n <= |lines|
  {
    if n == 0 then Warming(c, 0, 0, 0)
    else
      WarmOne(w, Warmed(w, c, lines, n - 1, clock), lines[n - 1], Now(clock, n - 1), Stamp(clock, n - 1))
  }

  /** The lines that lead to an entry. */
  function Good(w: Warmer, lines: seq<string>, n: nat, clock: nat -> real): set<nat>
    requires n <= |lines|
  {
    set i: nat | i < n && Remake(w, lines[i], Now(clock, i), Stamp(clock, i)).Some?
  }

  lemma GoodNext(w: Warmer, lines: seq<string>, n: nat, clock: nat -> real)
    requires n < |lines|
    ensures |Good(w, lines, n + 1, clock)| ==
      |Good(w, lines, n, clock)| + if Remake(w, lines[n], Now(clock, n), Stamp(clock, n)).Some? then 1 else 0
  {
    assert Good(w, lines, n + 1, clock) ==
      Good(w, lines, n, clock) + if Remake(w, lines[n], Now(clock, n), Stamp(clock, n)).Some? then {n} else {};
  }

  /** The blank ones among the first lines. */
  function BlankLines(w: Warmer, lines: seq<string>, n: nat): nat
    requires n <= |lines|
  {
    if n == 0 then 0 else BlankLines(w, lines, n - 1) + if w.parse(lines[n - 1]) == Blank then 1 else 0
  }

  /** Every line is either loaded or skipped: loaded if it leads to an entry, and
      otherwise an error unless it is blank. */
  lemma {:induction false} WarmedCounts(w: Warmer, c: Cache, lines: seq<string>, n: nat, clock: nat -> real)
    requires n <= |lines|
    ensures
      var s := Warmed(w, c, lines, n, clock);
      && s.loaded == |Good(w, lines, n, clock)| && s.loaded + s.skipped == n
      && s.errors + BlankLines(w, lines, n) == s.skipped
  {
    if n > 0 {
      WarmedCounts(w, c, lines, n - 1, clock);
      GoodNext(w, lines, n - 1, clock);
    }
  }

  /** The same effect, in terms of the parts. */
  ghost function LineStep(cfg: Config, serde: Serde, b: KeyBuilder.Builder, defaultTtl: real,
                          s: Warming, line: string, now: real, stamp: real): Warming
    requires Inv(cfg, s.cache)
  {
    match ParseLine(serde, line)
    case Blank => s.(skipped := s.skipped + 1)
    case Malformed => s.(skipped := s.skipped + 1, errors := s.errors + 1)
    case Pair(prompt, response, params) =>
      var made := MakeEntry(b, defaultTtl, prompt, response, params, now, stamp);
      if made == None then s.(skipped := s.skipped + 1, errors := s.errors + 1)
      else s.(cache := SetEntry(cfg, s.cache, made.value, prompt), loaded := s.loaded + 1)
  }

  lemma WarmOneIsLineStep(w: Warmer, cfg: Config, serde: Serde, b: KeyBuilder.Builder, defaultTtl: real,
                          s: Warming, line: string, now: real, stamp: real)
    requires Describes(w, cfg, serde, b, defaultTtl) && Inv(cfg, s.cache)
    ensures WarmOne(w, s, line, now, stamp) == LineStep(cfg, serde, b, defaultTtl, s, line, now, stamp)
  {
  }

  method ProcessWarmLine(cache: PromptCache, serde: Serde, line: string, loaded: nat, skipped: nat, errors: nat,
                         now: real, stamp: real, ghost w: Warmer)
    returns (loaded': nat, skipped': nat, errors': nat)
    requires cache.Valid() && Describes(w, cache.Settings(), serde, cache.builder, cache.defaultTtl)
    modifies cache.Repr()
    ensures cache.Valid() && fresh(cache.policy.repr - old(cache.policy.repr))
    ensures Warming(cache.State(), loaded', skipped', errors')
         == WarmOne(w, Warming(old(cache.State()), loaded, skipped, errors), line, now, stamp)
  {
    WarmOneIsLineStep(w, cache.Settings(), serde, cache.builder, cache.defaultTtl,
                      Warming(cache.State(), loaded, skipped, errors), line, now, stamp);
    var parsed := ParseLine(serde, line);
    loaded', skipped', errors' := loaded, skipped, errors;
    match parsed
    case Blank => skipped' := skipped + 1;
    case Malformed => skipped', errors' := skipped + 1, errors + 1;
    case Pair(prompt, response, params) =>
      var stored := cache.Set(prompt, response, params, now, stamp);
      if stored {
        loaded' := loaded + 1;
      } else {
        skipped', errors' := skipped + 1, errors + 1;
      }
  }

  lemma WarmedNext(w: Warmer, c: Cache, lines: seq<string>, i: nat, clock: nat -> real)
    requires i < |lines|
    ensures Warmed(w, c, lines, i + 1, clock)
         == WarmOne(w, Warmed(w, c, lines, i, clock), lines[i], Now(clock, i), Stamp(clock, i))
  {
  }

  method WarmFromText(cache: PromptCache, serde: Serde, text: string, clock: nat -> real, ghost w: Warmer)
    returns (loaded: nat, skipped: nat, errors: nat)
    requires cache.Valid() && Describes(w, cache.Settings(), serde, cache.builder, cache.defaultTtl)
    modifies cache.Repr()
    ensures cache.Valid() && fresh(cache.policy.repr - old(cache.policy.repr))
    ensures
      var lines := SplitLines(text);
      Warming(cache.State(), loaded, skipped, errors) == Warmed(w, old(cache.State()), lines, |lines|, clock)
  {
    ghost var c := cache.State();
    var lines := SplitLines(text);
    loaded, skipped, errors := 0, 0, 0;
    for i := 0 to |lines|
      invariant cache.Valid() && fresh(cache.policy.repr - old(cache.policy.repr))
      invariant Warming(cache.State(), loaded, skipped, errors) == Warmed(w, c, lines, i, clock)
    {
      WarmedNext(w, c, lines, i, clock);
      var line, now, stamp := lines[i], Now(clock, i), Stamp(clock, i);
      loaded, skipped, errors := ProcessWarmLine(cache, serde, line, loaded, skipped, errors, now, stamp, w);
    }
  }

  // ---------- Dump, then warm ----------

  /** What a dump asks of an entry: JSON can write it, and no parameter has a name
      that a store takes for itself. */
  ghost predicate Dumpable(e: Entry) {
    && JsonNative(e.value) && JsonNative(Dict(ParamsOf(e)))
    && forall p :: p in ParamsOf(e) ==> p.key !in RESERVED
  }

  /** Listing a cache meets what restoring a dump asks of the entries. */
  lemma {:induction false} ListedAreDistinct(entries: map<Key, Entry>, ks: seq<Key>, clock: nat -> real)
    requires NoDup(ks) && forall k :: k in entries ==> entries[k].key == k
    ensures DistinctEntries(Listed(entries, ks, clock))
    ensures forall i :: 0 <= i < |Listed(entries, ks, clock)| ==>
      var e := Listed(entries, ks, clock)[i];
      e.key in Keys(ks) && e.key in entries && e == entries[e.key]
  {
    if ks != [] {
      ListedAreDistinct(entries, Init(ks), clock);
    }
  }

  /** The parameters that a dumped line gives to the store. */
  function Redumped(e: Entry): Params {
    SetField(SortItems(ParamsOf(e)), Item("cache_ttl", TtlValue(e.ttl)))
  }

  /** Reading back a dumped line gives the request, with sorted keys, and the
      explicit time to live. */
  lemma ParseDumped(serde: Serde, e: Entry)
    requires Reads(serde, Payload(e)) && Dumpable(e)
    ensures ParseLine(serde, serde.dumps(Payload(e))) == Pair(PromptOf(e), SortKeys(e.value), Redumped(e))
  {
    var payload := Payload(e).items;
    FindDistinct(payload, 0);
    FindDistinct(payload, 1);
    FindDistinct(payload, 2);
    FindDistinct(payload, 3);
    FindSorted(payload, "prompt");
    FindSorted(payload, "response");
    FindSorted(payload, "llm_params");
    FindSorted(payload, "ttl");
    SortedNames(ParamsOf(e));
  }

  /** Sorting gives no parameter another name. */
  lemma SortedNames(items: seq<Item>)
    ensures forall p :: p in SortItems(items) ==> exists q :: q in items && q.key == p.key
  {
    var sorted := SortItems(items);
    SortItemsSorts(items);
    SortedDistinct(sorted);
    forall p | p in sorted ensures exists q :: q in items && q.key == p.key {
      var i :| 0 <= i < |sorted| && sorted[i] == p;
      FindDistinct(sorted, i);
      FindSorted(items, p.key);
      FindIn(items, p.key);
      var j :| 0 <= j < |items| && items[j].key == p.key;
      assert items[j] in items;
    }
  }

  lemma RedumpedIsRequest(b: KeyBuilder.Builder, e: Entry)
    requires WellMade(b, e)
    ensures RequestParams(Redumped(e)) == SortItems(ParamsOf(e)) && DistinctKeys(Redumped(e))
    ensures Find(Redumped(e), "cache_ttl") == Some(TtlValue(e.ttl))
  {
    var sorted, ttl := SortItems(ParamsOf(e)), Item("cache_ttl", TtlValue(e.ttl));
    RequestParamsFacts(ParamsOf(e));
    SortItemsSorts(ParamsOf(e));
    SortedDistinct(sorted);
    SortedNames(ParamsOf(e));
    FindSorted(ParamsOf(e), "cache_ttl");
    FindIn(ParamsOf(e), "cache_ttl");
    FindIn(sorted, "cache_ttl");
    RequestParamsAgain(sorted);
    assert Redumped(e) == sorted + [ttl];
    assert (sorted + [ttl])[..|sorted|] == sorted;
    FindSnoc(sorted, ttl, "cache_ttl");
  }

  /** `r` answers the request of `e`, with the same value, for the same length of
      time, and has the keys of its dictionaries sorted. */
  ghost predicate SameRequest(r: Entry, e: Entry) {
    && r.value == SortKeys(e.value) && r.ttl == e.ttl
    && PromptOf(r) == PromptOf(e) && ParamsOf(r) == SortItems(ParamsOf(e))
  }

  lemma MadeFromDump(b: KeyBuilder.Builder, defaultTtl: real, e: Entry, now: real, stamp: real)
    requires WellMade(b, e) && Dumpable(e)
    ensures
      var made := MakeEntry(b, defaultTtl, PromptOf(e), SortKeys(e.value), Redumped(e), now, stamp);
      made.Some? && SameRequest(made.value, e) && WellMade(b, made.value)
  {
    RedumpedIsRequest(b, e);
    SortedIsNative(Dict(ParamsOf(e)));
    NativeNeverRaises(b, SortItems(ParamsOf(e)));
    assert MakeEntry(b, defaultTtl, PromptOf(e), SortKeys(e.value), Redumped(e), now, stamp).Some?;
    MadeIsWellMade(b, defaultTtl, PromptOf(e), SortKeys(e.value), Redumped(e), now, stamp);
  }

  lemma RemadeFromDump(cfg: Config, serde: Serde, b: KeyBuilder.Builder, defaultTtl: real,
                       e: Entry, now: real, stamp: real)
    requires WellMade(b, e) && Dumpable(e) && Reads(serde, Payload(e))
    ensures
      var made := Remake(WarmerOf(cfg, serde, b, defaultTtl), serde.dumps(Payload(e)), now, stamp);
      made.Some? && SameRequest(made.value, e) && WellMade(b, made.value)
  {
    ParseDumped(serde, e);
    MadeFromDump(b, defaultTtl, e, now, stamp);
    assert Remake(WarmerOf(cfg, serde, b, defaultTtl), serde.dumps(Payload(e)), now, stamp)
      == MakeEntry(b, defaultTtl, PromptOf(e), SortKeys(e.value), Redumped(e), now, stamp);
  }

  // ---------- Entries that fit are stored as they are ----------

  ghost predicate Makes(w: Warmer, line: string) {
    forall now, stamp :: Remake(w, line, now, stamp).Some?
  }

  ghost predicate AllMade(w: Warmer, lines: seq<string>) {
    forall i :: 0 <= i < |lines| ==> Makes(w, lines[i])
  }

  /** The entries that warming stores from the first `n` lines. */
  ghost function Remade(w: Warmer, lines: seq<string>, n: nat, clock: nat -> real): (r: seq<Entry>)
    requires AllMade(w, lines) && n <= |lines|
    ensures |r| == n
  {
    if n == 0 then []
    else Remade(w, lines, n - 1, clock) + [Remake(w, lines[n - 1], Now(clock, n - 1), Stamp(clock, n - 1)).value]
  }

  function SizeSum(sizeOf: Entry -> nat, entries: seq<Entry>): nat {
    if entries == [] then 0 else SizeSum(sizeOf, entries[..|entries| - 1]) + sizeOf(entries[|entries| - 1])
  }

  /** The limits have room for all of `entries`. */
  ghost predicate Roomy(cfg: Config, entries: seq<Entry>) {
    && |entries| <= cfg.maxItems
    && SizeSum(cfg.sizeOf, entries) <= cfg.maxBytes && SizeSum(cfg.sizeOf, entries) <= cfg.backendMaxBytes
  }

  ghost predicate DistinctEntries(entries: seq<Entry>) {
    forall i, j :: 0 <= i < j < |entries| ==> entries[i].key != entries[j].key
  }

  function ByKey(entries: seq<Entry>): map<Key, Entry> {
    if entries == [] then map[]
    else ByKey(entries[..|entries| - 1])[entries[|entries| - 1].key := entries[|entries| - 1]]
  }

  lemma {:induction false} ByKeyFacts(entries: seq<Entry>)
    requires DistinctEntries(entries)
    ensures forall i :: 0 <= i < |entries| ==>
      entries[i].key in ByKey(entries) && ByKey(entries)[entries[i].key] == entries[i]
    ensures forall k :: k in ByKey(entries) ==> exists i :: 0 <= i < |entries| && entries[i].key == k
  {
    if entries != [] {
      var init := entries[..|entries| - 1];
      ByKeyFacts(init);
      forall k | k in ByKey(init) ensures exists i :: 0 <= i < |entries| && entries[i].key == k {
        var i :| 0 <= i < |init| && init[i].key == k;
        assert entries[i].key == k;
      }
      assert forall i :: 0 <= i < |init| ==> init[i] == entries[i];
    }
  }

  lemma PutNew(sizeOf: Entry -> nat, b: Store, e: Entry)
    requires Accounted(sizeOf, b) && e.key !in b.entries
    ensures
      var r := Put(b, e.key, e, sizeOf);
      r.entries == b.entries[e.key := e] && |r.entries| == |b.entries| + 1 && r.bytes == b.bytes + sizeOf(e)
  {
    assert b.entries[e.key := e].Keys == b.entries.Keys + {e.key};
  }

  lemma StoreFitting(cfg: Config, c: Cache, e: Entry, prompt: string)
    requires Inv(cfg, c) && e.key != "" && e.key !in c.store.entries
    requires |c.store.entries| + 1 <= cfg.maxItems
    requires c.store.bytes + cfg.sizeOf(e) <= cfg.maxBytes && c.store.bytes + cfg.sizeOf(e) <= cfg.backendMaxBytes
    ensures SetEntry(cfg, c, e, prompt).store == Put(c.store, e.key, e, cfg.sizeOf)
  {
    PutNew(cfg.sizeOf, c.store, e);
    var stored := StoredKeeps(cfg, c, e, prompt);
    assert Within(cfg, stored.store);
  }

  /** The store holds exactly these entries. */
  ghost predicate Holds(cfg: Config, b: Store, entries: seq<Entry>) {
    b.entries == ByKey(entries) && |b.entries| == |entries| && b.bytes == SizeSum(cfg.sizeOf, entries)
  }

  lemma PrefixFits(cfg: Config, entries: seq<Entry>)
    requires entries != [] && Roomy(cfg, entries) && DistinctEntries(entries)
    ensures Roomy(cfg, entries[..|entries| - 1]) && DistinctEntries(entries[..|entries| - 1])
  {
  }

  lemma LastIsNew(entries: seq<Entry>)
    requires entries != [] && DistinctEntries(entries)
    ensures entries[|entries| - 1].key !in ByKey(entries[..|entries| - 1])
  {
    ByKeyFacts(entries[..|entries| - 1]);
  }

  lemma StoreNext(cfg: Config, c: Cache, entries: seq<Entry>, prompt: string)
    requires Inv(cfg, c) && entries != [] && DistinctEntries(entries) && Roomy(cfg, entries)
    requires Holds(cfg, c.store, entries[..|entries| - 1]) && entries[|entries| - 1].key != ""
    ensures Holds(cfg, SetEntry(cfg, c, entries[|entries| - 1], prompt).store, entries)
  {
    LastIsNew(entries);
    PutNew(cfg.sizeOf, c.store, entries[|entries| - 1]);
    StoreFitting(cfg, c, entries[|entries| - 1], prompt);
  }

  lemma WarmOneHolds(cfg: Config, w: Warmer, s: Warming, line: string, now: real, stamp: real, made: seq<Entry>)
    requires Inv(cfg, s.cache) && StoresAs(w, cfg) && Remake(w, line, now, stamp).Some?
    requires made != [] && made[|made| - 1] == Remake(w, line, now, stamp).value && made[|made| - 1].key != ""
    requires DistinctEntries(made) && Roomy(cfg, made) && Holds(cfg, s.cache.store, made[..|made| - 1])
    ensures Inv(cfg, WarmOne(w, s, line, now, stamp).cache)
    ensures Holds(cfg, WarmOne(w, s, line, now, stamp).cache.store, made)
  {
    StoreNext(cfg, s.cache, made, w.parse(line).prompt);
  }

  lemma RemadeNext(w: Warmer, lines: seq<string>, n: nat, clock: nat -> real) returns (made: seq<Entry>)
    requires AllMade(w, lines) && n < |lines|
    ensures made == Remade(w, lines, n + 1, clock) && |made| == n + 1 && made[..n] == Remade(w, lines, n, clock)
    ensures Remake(w, lines[n], Now(clock, n), Stamp(clock, n)) == Some(made[n])
  {
    made := Remade(w, lines, n + 1, clock);
  }

  ghost predicate NonEmptyKeys(entries: seq<Entry>) {
    forall i :: 0 <= i < |entries| ==> entries[i].key != ""
  }

  /** Entries that fit together are stored as they are, in any policy. */
  lemma {:induction false} WarmedHolds(cfg: Config, policy: Policy, w: Warmer,
                                       lines: seq<string>, n: nat, clock: nat -> real)
    requires Coherent(policy) && StoresAs(w, cfg) && AllMade(w, lines) && n <= |lines|
    requires DistinctEntries(Remade(w, lines, n, clock)) && Roomy(cfg, Remade(w, lines, n, clock))
    requires NonEmptyKeys(Remade(w, lines, n, clock))
    ensures Inv(cfg, Warmed(w, Fresh(policy), lines, n, clock).cache)
    ensures Holds(cfg, Warmed(w, Fresh(policy), lines, n, clock).cache.store, Remade(w, lines, n, clock))
  {
    if n > 0 {
      var i := n - 1;
      var made := RemadeNext(w, lines, i, clock);
      PrefixFits(cfg, made);
      assert NonEmptyKeys(made[..i]);
      WarmedHolds(cfg, policy, w, lines, i, clock);
      var s := Warmed(w, Fresh(policy), lines, i, clock);
      WarmOneHolds(cfg, w, s, lines[i], Now(clock, i), Stamp(clock, i), made);
      WarmedNext(w, Fresh(policy), lines, i, clock);
    }
  }

  // ---------- The round trip ----------

  ghost predicate RestoresLine(w: Warmer, b: KeyBuilder.Builder, line: string, e: Entry) {
    forall now, stamp ::
      var made := Remake(w, line, now, stamp);
      made.Some? && SameRequest(made.value, e) && WellMade(b, made.value)
  }

  /** Line `i` of a dump is restored as entry `i`. */
  ghost predicate Restores(w: Warmer, b: KeyBuilder.Builder, lines: seq<string>, entries: seq<Entry>) {
    |lines| == |entries| && forall i :: 0 <= i < |lines| ==> RestoresLine(w, b, lines[i], entries[i])
  }

  lemma RestoresMakes(w: Warmer, b: KeyBuilder.Builder, lines: seq<string>, entries: seq<Entry>)
    requires Restores(w, b, lines, entries)
    ensures AllMade(w, lines)
  {
    forall i | 0 <= i < |lines| ensures Makes(w, lines[i]) {
      assert RestoresLine(w, b, lines[i], entries[i]);
    }
  }

  lemma {:induction false} RemadeAt(w: Warmer, lines: seq<string>, n: nat, i: nat, clock: nat -> real)
    requires AllMade(w, lines) && i < n <= |lines|
    ensures Remake(w, lines[i], Now(clock, i), Stamp(clock, i)) == Some(Remade(w, lines, n, clock)[i])
  {
    assert Makes(w, lines[n - 1]);
    if i < n - 1 {
      RemadeAt(w, lines, n - 1, i, clock);
    }
  }

  lemma DumpIsRemade(w: Warmer, b: KeyBuilder.Builder, lines: seq<string>, entries: seq<Entry>,
                     i: nat, clock: nat -> real)
    requires Restores(w, b, lines, entries) && AllMade(w, lines) && i < |lines|
    ensures
      var made := Remade(w, lines, |lines|, clock)[i];
      SameRequest(made, entries[i]) && WellMade(b, made)
  {
    RemadeAt(w, lines, |lines|, i, clock);
    assert RestoresLine(w, b, lines[i], entries[i]);
  }

  lemma DumpRestores(cfg: Config, serde: Serde, b: KeyBuilder.Builder, defaultTtl: real, entries: seq<Entry>)
    requires forall i :: 0 <= i < |entries| ==> Restorative(serde, b, entries[i])
    ensures Restores(WarmerOf(cfg, serde, b, defaultTtl), b, DumpLines(serde, entries), entries)
    ensures SplitLines(JoinLines(DumpLines(serde, entries))) == DumpLines(serde, entries)
  {
    var w, lines := WarmerOf(cfg, serde, b, defaultTtl), DumpLines(serde, entries);
    forall i | 0 <= i < |lines| ensures RestoresLine(w, b, lines[i], entries[i]) {
      assert Restorative(serde, b, entries[i]);
      forall now, stamp
        ensures
          var made := Remake(w, lines[i], now, stamp);
          made.Some? && SameRequest(made.value, entries[i]) && WellMade(b, made.value)
      {
        RemadeFromDump(cfg, serde, b, defaultTtl, entries[i], now, stamp);
      }
    }
    forall i | 0 <= i < |lines| ensures OneLine(lines[i]) {
      assert Restorative(serde, b, entries[i]);
    }
    SplitJoined(lines);
  }

  /** Everything that the round trip of an entry asks of it, but that sorting its
      parameters is harmless. */
  ghost predicate Restorative(serde: Serde, b: KeyBuilder.Builder, e: Entry) {
    WellMade(b, e) && Dumpable(e) && Reads(serde, Payload(e)) && Discerns(b, e)
  }

  /** `r` has a key exactly for each entry with a prompt, and answers the same
      request under it. */
  ghost predicate Recreates(r: map<Key, Entry>, entries: seq<Entry>) {
    && (forall k :: k in r <==> exists i :: 0 <= i < |entries| && entries[i].key == k && PromptOf(entries[i]) != "")
    && (forall i :: 0 <= i < |entries| && PromptOf(entries[i]) != "" ==> SameRequest(r[entries[i].key], entries[i]))
  }

  lemma DumpedRecreates(r: map<Key, Entry>, entries: seq<Entry>, dumped: seq<Entry>)
    requires forall e :: e in dumped <==> e in entries && PromptOf(e) != ""
    requires forall i :: 0 <= i < |dumped| ==> dumped[i].key in r && SameRequest(r[dumped[i].key], dumped[i])
    requires forall k :: k in r ==> exists i :: 0 <= i < |dumped| && dumped[i].key == k
    ensures Recreates(r, entries)
  {
    forall i | 0 <= i < |entries| && PromptOf(entries[i]) != ""
      ensures entries[i].key in r && SameRequest(r[entries[i].key], entries[i])
    {
      assert entries[i] in dumped;
    }
    forall k | k in r ensures exists i :: 0 <= i < |entries| && entries[i].key == k && PromptOf(entries[i]) != "" {
      var j :| 0 <= j < |dumped| && dumped[j].key == k;
      assert dumped[j] in dumped;
    }
  }

  /** Entry by entry, `made` has the keys and answers the requests of `entries`. */
  ghost predicate Matches(made: seq<Entry>, entries: seq<Entry>) {
    && |made| == |entries| && NonEmptyKeys(made)
    && forall i :: 0 <= i < |entries| ==> made[i].key == entries[i].key && SameRequest(made[i], entries[i])
  }

  lemma MadeByKey(made: seq<Entry>, entries: seq<Entry>)
    requires Matches(made, entries) && DistinctEntries(entries)
    ensures DistinctEntries(made)
    ensures forall i :: 0 <= i < |entries| ==>
      entries[i].key in ByKey(made) && SameRequest(ByKey(made)[entries[i].key], entries[i])
    ensures forall k :: k in ByKey(made) ==> exists i :: 0 <= i < |entries| && entries[i].key == k
  {
    ByKeyFacts(made);
  }

  lemma {:induction false} DumpedFacts(entries: seq<Entry>)
    requires DistinctEntries(entries)
    ensures DistinctEntries(Dumped(entries))
    ensures forall e :: e in Dumped(entries) <==> e in entries && PromptOf(e) != ""
  {
    if entries != [] {
      var init, last := entries[..|entries| - 1], entries[|entries| - 1];
      DumpedFacts(init);
      assert entries == init + [last];
      forall i | 0 <= i < |Dumped(init)| ensures Dumped(init)[i].key != last.key {
        assert Dumped(init)[i] in init;
      }
    }
  }

  /** A remade entry has the key it came from exactly when sorting the parameters
      is harmless. */
  lemma RemadeKey(b: KeyBuilder.Builder, r: Entry, e: Entry)
    requires KeyBuilder.HexDigests(b.lib) && CacheKeys.Injective(b.lib)
    requires WellMade(b, r) && WellMade(b, e) && SameRequest(r, e) && Dumpable(e) && Discerns(b, e)
    ensures r.key == e.key <==> Restorable(b, ParamsOf(e))
  {
    SortedKey(b, PromptOf(e), ParamsOf(e));
  }

  /** The JSON form of the key material tells this request from the one that its
      dump leads to. */
  ghost predicate Discerns(b: KeyBuilder.Builder, e: Entry) {
    CacheKeys.TellsApart(b.lib, KeyMaterial(b, PromptOf(e), SortItems(ParamsOf(e))),
                         KeyMaterial(b, PromptOf(e), ParamsOf(e)))
  }

  /** Every entry is stored under the key of its request. */
  ghost predicate AllWellMade(b: KeyBuilder.Builder, r: map<Key, Entry>) {
    forall k :: k in r ==> r[k].key == k && WellMade(b, r[k])
  }

  lemma SetWellMade(cfg: Config, c: Cache, b: KeyBuilder.Builder, e: Entry, prompt: string)
    requires Inv(cfg, c) && AllWellMade(b, c.store.entries) && e.key != "" && WellMade(b, e)
    ensures AllWellMade(b, SetEntry(cfg, c, e, prompt).store.entries)
  {
    var r := SetEntry(cfg, c, e, prompt).store.entries;
    forall k | k in r ensures r[k].key == k && WellMade(b, r[k]) {
      SetOnEntry(cfg, c, e, prompt, k);
    }
  }

  lemma WarmOneWellMade(cfg: Config, w: Warmer, b: KeyBuilder.Builder, s: Warming, line: string, e: Entry,
                        now: real, stamp: real)
    requires Inv(cfg, s.cache) && AllWellMade(b, s.cache.store.entries)
    requires StoresAs(w, cfg) && RestoresLine(w, b, line, e)
    ensures
      var r := WarmOne(w, s, line, now, stamp).cache;
      Inv(cfg, r) && AllWellMade(b, r.store.entries)
  {
    var made, prompt := Remake(w, line, now, stamp).value, w.parse(line).prompt;
    CacheKeys.KeysAreNamed(b, PromptOf(made), ParamsOf(made));
    SetWellMade(cfg, s.cache, b, made, prompt);
    assert WarmOne(w, s, line, now, stamp).cache == SetEntry(cfg, s.cache, made, prompt);
  }

  lemma {:induction false} WarmedWellMade(cfg: Config, policy: Policy, b: KeyBuilder.Builder, w: Warmer,
                                          lines: seq<string>, entries: seq<Entry>, n: nat, clock: nat -> real)
    requires Coherent(policy) && StoresAs(w, cfg) && Restores(w, b, lines, entries) && n <= |lines|
    ensures Inv(cfg, Warmed(w, Fresh(policy), lines, n, clock).cache)
    ensures AllWellMade(b, Warmed(w, Fresh(policy), lines, n, clock).cache.store.entries)
  {
    if n > 0 {
      var i := n - 1;
      WarmedWellMade(cfg, policy, b, w, lines, entries, i, clock);
      assert RestoresLine(w, b, lines[i], entries[i]);
      WarmOneWellMade(cfg, w, b, Warmed(w, Fresh(policy), lines, i, clock), lines[i], entries[i],
                      Now(clock, i), Stamp(clock, i));
      WarmedNext(w, Fresh(policy), lines, i, clock);
    }
  }

  ghost predicate AllRestorable(b: KeyBuilder.Builder, entries: seq<Entry>) {
    forall i :: 0 <= i < |entries| && PromptOf(entries[i]) != "" ==> Restorable(b, ParamsOf(entries[i]))
  }

  lemma DumpedKeep(serde: Serde, b: KeyBuilder.Builder, entries: seq<Entry>, i: nat)
    requires DistinctEntries(entries) && i < |Dumped(entries)|
    requires forall j :: 0 <= j < |entries| ==> Restorative(serde, b, entries[j])
    ensures Restorative(serde, b, Dumped(entries)[i])
    ensures AllRestorable(b, entries) ==> Restorable(b, ParamsOf(Dumped(entries)[i]))
  {
    DumpedFacts(entries);
    assert Dumped(entries)[i] in Dumped(entries);
    var j :| 0 <= j < |entries| && entries[j] == Dumped(entries)[i];
  }

  /** Warming a fresh cache with room enough from a dump recreates exactly the
      dumped keys, with their values, prompts, parameters and times to live, if
      and only if sorting is harmless to the parameters of every dumped entry. */
  lemma DumpThenWarm(cfg: Config, policy: Policy, b: KeyBuilder.Builder, defaultTtl: real,
                     serde: Serde, entries: seq<Entry>, clock: nat -> real)
    requires Coherent(policy) && KeyBuilder.HexDigests(b.lib) && CacheKeys.Injective(b.lib)
    requires DistinctEntries(entries) && forall i :: 0 <= i < |entries| ==> Restorative(serde, b, entries[i])
    requires
      var w, lines := WarmerOf(cfg, serde, b, defaultTtl), DumpLines(serde, Dumped(entries));
      AllMade(w, lines) ==> Roomy(cfg, Remade(w, lines, |lines|, clock))
    ensures
      var lines := SplitLines(JoinLines(DumpLines(serde, Dumped(entries))));
      var warmed := Warmed(WarmerOf(cfg, serde, b, defaultTtl), Fresh(policy), lines, |lines|, clock);
      Recreates(warmed.cache.store.entries, entries) <==> AllRestorable(b, entries)
  {
    var w, dumped := WarmerOf(cfg, serde, b, defaultTtl), Dumped(entries);
    var lines := DumpLines(serde, dumped);
    forall i | 0 <= i < |dumped| ensures Restorative(serde, b, dumped[i]) {
      DumpedKeep(serde, b, entries, i);
    }
    DumpRestores(cfg, serde, b, defaultTtl, dumped);
    RestoresMakes(w, b, lines, dumped);
    WarmedWellMade(cfg, policy, b, w, lines, dumped, |lines|, clock);
    if Recreates(Warmed(w, Fresh(policy), lines, |lines|, clock).cache.store.entries, entries) {
      RecreatedIsRestorable(serde, b, Warmed(w, Fresh(policy), lines, |lines|, clock).cache.store.entries, entries);
    }
    if AllRestorable(b, entries) {
      RemadeMatches(serde, b, w, lines, entries, clock);
      MatchingAreRecreated(cfg, policy, w, lines, entries, clock);
    }
  }

  lemma RecreatedIsRestorable(serde: Serde, b: KeyBuilder.Builder, r: map<Key, Entry>, entries: seq<Entry>)
    requires KeyBuilder.HexDigests(b.lib) && CacheKeys.Injective(b.lib) && Recreates(r, entries) && AllWellMade(b, r)
    requires forall i :: 0 <= i < |entries| ==> Restorative(serde, b, entries[i])
    ensures AllRestorable(b, entries)
  {
    forall i | 0 <= i < |entries| && PromptOf(entries[i]) != "" ensures Restorable(b, ParamsOf(entries[i])) {
      assert Restorative(serde, b, entries[i]);
      RemadeKey(b, r[entries[i].key], entries[i]);
    }
  }

  /** Restored one by one, the entries have their own keys again. */
  lemma RestoredKey(serde: Serde, b: KeyBuilder.Builder, made: Entry, e: Entry)
    requires KeyBuilder.HexDigests(b.lib) && CacheKeys.Injective(b.lib)
    requires WellMade(b, made) && SameRequest(made, e) && Restorative(serde, b, e) && Restorable(b, ParamsOf(e))
    ensures made.key == e.key && made.key != ""
  {
    RemadeKey(b, made, e);
    CacheKeys.KeysAreNamed(b, PromptOf(made), ParamsOf(made));
  }

  lemma RemadeMatches(serde: Serde, b: KeyBuilder.Builder, w: Warmer, lines: seq<string>,
                      entries: seq<Entry>, clock: nat -> real)
    requires KeyBuilder.HexDigests(b.lib) && CacheKeys.Injective(b.lib)
    requires Restores(w, b, lines, Dumped(entries)) && AllMade(w, lines)
    requires DistinctEntries(entries) && AllRestorable(b, entries)
    requires forall i :: 0 <= i < |entries| ==> Restorative(serde, b, entries[i])
    ensures Matches(Remade(w, lines, |lines|, clock), Dumped(entries))
  {
    var dumped, made := Dumped(entries), Remade(w, lines, |lines|, clock);
    forall i | 0 <= i < |made|
      ensures SameRequest(made[i], dumped[i]) && made[i].key == dumped[i].key && made[i].key != ""
    {
      DumpIsRemade(w, b, lines, dumped, i, clock);
      DumpedKeep(serde, b, entries, i);
      RestoredKey(serde, b, made[i], dumped[i]);
    }
  }

  /** Entries that match the dumped ones, and fit, are what warming leaves. */
  lemma MatchingAreRecreated(cfg: Config, policy: Policy, w: Warmer,
                             lines: seq<string>, entries: seq<Entry>, clock: nat -> real)
    requires Coherent(policy) && StoresAs(w, cfg) && AllMade(w, lines) && DistinctEntries(entries)
    requires Matches(Remade(w, lines, |lines|, clock), Dumped(entries))
    requires Roomy(cfg, Remade(w, lines, |lines|, clock))
    ensures Recreates(Warmed(w, Fresh(policy), lines, |lines|, clock).cache.store.entries, entries)
  {
    var made := Remade(w, lines, |lines|, clock);
    DumpedFacts(entries);
    MadeByKey(made, Dumped(entries));
    WarmedHolds(cfg, policy, w, lines, |lines|, clock);
    DumpedRecreates(ByKey(made), entries, Dumped(entries));
  }
}
