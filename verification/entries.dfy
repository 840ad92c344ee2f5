/** Cache entries and their dictionary form. */
module Entries {
  import opened KeySeq
  import opened Values

  datatype Entry = Entry(
    key: Key,
    value: Value,
    createdAt: real,
    ttl: Option<real>,
    hitCount: int,
    metadata: seq<Item>,
    lastAccessed: real)
  {
    function ExpiresAt(): Option<real> {
      if ttl == None then None else Some(createdAt + ttl.value)
    }

    predicate IsExpired(now: real) {
      ttl.Some? && now >= createdAt + ttl.value
    }

    function ToDict(): seq<Item> {
      [Item("key", Leaf(Str(key))),
       Item("value", value),
       Item("created_at", Leaf(Float(createdAt))),
       Item("ttl", Leaf(if ttl == None then Null else Float(ttl.value))),
       Item("hit_count", Leaf(Int(hitCount))),
       Item("metadata", Dict(metadata)),
       Item("last_accessed", Leaf(Float(lastAccessed)))]
    }
  }

  function GetOr(payload: seq<Item>, field: string, default: Value): Value {
    if Find(payload, field) == None then default else Find(payload, field).value
  }

  /** `float(...)`; `None` stands for the exception it raises. */
  function FloatOf(v: Value): Option<real> {
    match v
    case Leaf(Float(r)) => Some(r)
    case Leaf(Int(n)) => Some(n as real)
    case Leaf(Bool(b)) => Some(if b then 1.0 else 0.0)
    case _ => None
  }

  /** `int(...)` truncates towards zero. */
  function Truncate(r: real): int {
    if r >= 0.0 then r.Floor else -((-r).Floor)
  }

  function IntOf(v: Value): Option<int> {
    if FloatOf(v) == None then None
    else if v.scalar.Int? then Some(v.scalar.n)
    else Some(Truncate(FloatOf(v).value))
  }

  /** An absent or empty time to live is none at all. */
  function TtlOf(v: Value): Option<Option<real>> {
    if v == Leaf(Null) then Some(None)
    else if FloatOf(v) == None then None
    else Some(FloatOf(v))
  }

  /** `None` stands for the exception a malformed payload raises. */
  function FromDict(payload: seq<Item>): Option<Entry> {
    var key, created := Find(payload, "key"), Find(payload, "created_at");
    if key == None || created == None then None
    else
      var ttl := TtlOf(GetOr(payload, "ttl", Leaf(Null)));
      var hits := IntOf(GetOr(payload, "hit_count", Leaf(Int(0))));
      var metadata := GetOr(payload, "metadata", Dict([]));
      var accessed := FloatOf(GetOr(payload, "last_accessed", created.value));
      if key.value.Leaf? && key.value.scalar.Str? && FloatOf(created.value).Some? && ttl.Some? && hits.Some?
         && metadata.Dict? && accessed.Some?
      then
        Some(Entry(key.value.scalar.s, GetOr(payload, "value", Leaf(Null)), FloatOf(created.value).value,
                   ttl.value, hits.value, metadata.items, accessed.value))
      else None
  }

  /** Nothing of an entry is lost in its dictionary form, an absent `ttl`
      included. */
  lemma DictRoundTrip(e: Entry)
    ensures FromDict(e.ToDict()) == Some(e)
  {
    var d := e.ToDict();
    FindDistinct(d, 0);
    FindDistinct(d, 1);
    FindDistinct(d, 2);
    FindDistinct(d, 3);
    FindDistinct(d, 4);
    FindDistinct(d, 5);
    FindDistinct(d, 6);
  }

  /** An entry is expired from the instant it expires at, and never without
      one. */
  lemma ExpiryInstant(e: Entry, now: real)
    ensures e.IsExpired(now) <==> e.ExpiresAt().Some? && e.ExpiresAt().value <= now
  {
  }

  /** The copy a backend makes on the way in and on the way out. */
  method Copy(e: Entry) returns (r: Entry)
    ensures r == e
  {
    DictRoundTrip(e);
    r := FromDict(e.ToDict()).value;
  }
}
