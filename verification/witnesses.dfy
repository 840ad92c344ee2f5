/** The assumptions that results make of the libraries can be met: for any
    finite number of requests there is a digest and a JSON form that meet them,
    and for any finite number of values a serializer. */
module Witnesses {
  import opened KeySeq
  import opened Text
  import opened Values
  import opened KeyBuilder
  import opened CacheKeys
  import opened Semantic
  import opened Agreement
  import Warm

  // ---------- An injective digest ----------

  function As(n: nat): string {
    if n == 0 then "" else As(n - 1) + "a"
  }

  lemma {:induction false} AsFacts(n: nat)
    ensures |As(n)| == n && forall i :: 0 <= i < n ==> As(n)[i] == 'a'
  {
    if n > 0 {
      AsFacts(n - 1);
    }
  }

  /** Every character in unary, closed by a mark. */
  function Code(s: string): string {
    if s == "" then "" else As(s[0] as int) + "b" + Code(s[1..])
  }

  /** The first mark tells where the first character ends. */
  lemma FirstMark(m: nat, rest: string, n: nat, rest': string)
    requires As(m) + "b" + rest == As(n) + "b" + rest'
    ensures m == n && rest == rest'
  {
    AsFacts(m);
    AsFacts(n);
    var s, t := As(m) + "b" + rest, As(n) + "b" + rest';
    assert s[m] == 'b' && t[n] == 'b';
    assert forall i :: 0 <= i < m ==> s[i] == 'a';
    assert forall i :: 0 <= i < n ==> t[i] == 'a';
    assert s[m + 1..] == rest && t[n + 1..] == rest';
  }

  lemma {:induction false} CodeIsInjective(s: string, t: string)
    requires Code(s) == Code(t)
    ensures s == t
  {
    if s != "" && t != "" {
      FirstMark(s[0] as int, Code(s[1..]), t[0] as int, Code(t[1..]));
      CodeIsInjective(s[1..], t[1..]);
      assert s == [s[0]] + s[1..] && t == [t[0]] + t[1..];
    }
  }

  lemma {:induction false} CodeLetters(s: string)
    ensures forall i :: 0 <= i < |Code(s)| ==> Code(s)[i] in {'a', 'b'}
  {
    if s != "" {
      AsFacts(s[0] as int);
      CodeLetters(s[1..]);
    }
  }

  lemma CodeIsNormal(s: string)
    ensures Normalize(Code(s)) == Code(s) && ':' !in Code(s)
  {
    var code := Code(s);
    CodeLetters(s);
    NormalizeIsJoin(code);
    assert Lower(code) == code;
    if code != "" {
      assert IsWord(code);
      WordsOfJoin([code]);
      assert Join([code]) == code;
    }
  }

  // ---------- Telling finitely many values apart ----------

  function IndexOf<T(==)>(ts: seq<T>, t: T): (i: nat)
    ensures t in ts ==> i < |ts| && ts[i] == t
  {
    if ts == [] then 0
    else if ts[|ts| - 1] == t then |ts| - 1
    else IndexOf(ts[..|ts| - 1], t)
  }

  // ---------- Key material does not depend on the JSON form ----------

  lemma {:induction false} ScalarsBySha(lib: Library, lib': Library, xs: seq<Scalar>)
    requires lib.sha == lib'.sha
    ensures CanonicalScalars(lib, xs) == CanonicalScalars(lib', xs)
  {
    if xs != [] {
      ScalarsBySha(lib, lib', xs[..|xs| - 1]);
    }
  }

  lemma {:induction false} CanonicalBySha(lib: Library, lib': Library, v: Value)
    requires lib.sha == lib'.sha
    ensures Canonical(lib, v) == Canonical(lib', v)
    decreases v, 0
  {
    match v
    case Leaf(_) =>
    case Other(_) =>
    case SetOf(xs) => ScalarsBySha(lib, lib', xs);
    case List(vs) =>
      forall i | 0 <= i < |vs| ensures Canonical(lib, vs[i]) == Canonical(lib', vs[i]) {
        CanonicalBySha(lib, lib', vs[i]);
      }
    case Dict(items) => ItemsBySha(lib, lib', items);
  }

  lemma {:induction false} ItemsBySha(lib: Library, lib': Library, items: seq<Item>)
    requires lib.sha == lib'.sha
    ensures CanonicalItems(lib, items) == CanonicalItems(lib', items)
    decreases items, 1
  {
    if items != [] {
      ItemsBySha(lib, lib', items[..|items| - 1]);
      CanonicalBySha(lib, lib', items[|items| - 1].value);
    }
  }

  lemma {:induction false} RecordedBySha(b: Builder, b': Builder, params: Params)
    requires b.lib.sha == b'.lib.sha && b.lib.str == b'.lib.str && b.exclude == b'.exclude
    ensures Recorded(b, params) == Recorded(b', params)
  {
    if params != [] {
      RecordedBySha(b, b', params[..|params| - 1]);
      CanonicalBySha(b.lib, b'.lib, params[|params| - 1].value);
    }
  }

  lemma MetadataBySha(b: Builder, b': Builder, params: Params)
    requires b.lib.sha == b'.lib.sha && b.lib.str == b'.lib.str && b.exclude == b'.exclude
    ensures Metadata(b, params) == Metadata(b', params)
  {
    RecordedBySha(b, b', params);
    CanonicalBySha(b.lib, b'.lib, Dict(Recorded(b, params)));
  }

  // ---------- A digest and a JSON form ----------

  function Materials(b: Builder, prompts: seq<string>, params: seq<Params>): (cs: seq<Components>)
    requires |prompts| == |params|
    ensures |cs| == |prompts|
  {
    seq(|prompts|, i requires 0 <= i < |prompts| =>
      Components(b.namespace, b.version, Normalize(prompts[i]), Metadata(b, params[i])))
  }

  /** A builder whose digest is injective and whose JSON form tells any finite
      number of requests apart. */
  lemma BuilderExists(namespace: string, version: string, exclude: set<string>, str: Value -> string,
                      prompts: seq<string>, params: seq<Params>) returns (b: Builder)
    requires |prompts| == |params|
    ensures b.namespace == namespace && b.version == version && b.exclude == exclude && b.lib.str == str
    ensures HexDigests(b.lib) && Injective(b.lib)
    ensures forall i, j :: 0 <= i < |prompts| && 0 <= j < |prompts| ==>
      TellsApart(b.lib, Materials(b, prompts, params)[i], Materials(b, prompts, params)[j])
  {
    var sha := (s: string) => Code(s);
    var plain := Builder(namespace, version, exclude, Library(sha, str, c => ""));
    var cs := Materials(plain, prompts, params);
    b := Builder(namespace, version, exclude, Library(sha, str, c => As(IndexOf(cs, c))));
    forall s ensures Normalize(b.lib.sha(s)) == b.lib.sha(s) && ':' !in b.lib.sha(s) {
      CodeIsNormal(s);
    }
    forall s, t | b.lib.sha(s) == b.lib.sha(t) ensures s == t {
      CodeIsInjective(s, t);
    }
    forall i, j | 0 <= i < |prompts| && 0 <= j < |prompts|
      ensures TellsApart(b.lib, Materials(b, prompts, params)[i], Materials(b, prompts, params)[j])
    {
      MetadataBySha(plain, b, params[i]);
      MetadataBySha(plain, b, params[j]);
      AsFacts(IndexOf(cs, cs[i]));
      AsFacts(IndexOf(cs, cs[j]));
      assert cs[i] in cs && cs[j] in cs;
    }
  }

  // ---------- A serializer ----------

  lemma AsIsOneLine(n: nat)
    requires n > 0
    ensures Warm.OneLine(As(n)) && As(n) != "" && Strip(As(n)) == As(n)
  {
    AsFacts(n);
    assert !IsSpace(As(n)[0]) && !IsSpace(As(n)[n - 1]);
  }

  /** A serializer as the round trip of a dump assumes, for any finite number of
      values. */
  lemma SerdeExists(vs: seq<Value>) returns (serde: Warm.Serde)
    ensures forall v :: v in vs ==> Warm.Reads(serde, v)
  {
    serde := Warm.Serde(
      v => As(IndexOf(vs, v) + 1),
      s => if 1 <= |s| <= |vs| then Some(SortKeys(vs[|s| - 1])) else None);
    forall v | v in vs ensures Warm.Reads(serde, v) {
      AsIsOneLine(IndexOf(vs, v) + 1);
      AsFacts(IndexOf(vs, v) + 1);
    }
  }

  /** An embedding function that never raises, with its square root. */
  lemma EmbedderExists() returns (e: Embedder)
    ensures Rooted(e) && forall p :: e.raw(p).Some? && NonZero(e.raw(p).value)
  {
    e := Embedder(p => Some([1.0]), x => 1.0);
    assert Dot([1.0], [1.0]) == 1.0;
  }
}
