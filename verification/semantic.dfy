/** The semantic layer: embeddings by key, an index rebuilt when dirty, and the
    scan for the most similar recorded prompt. */
module Semantic {
  import opened KeySeq

  type Vector = seq<real>

  /** The embedding function, where `None` stands for raising, and the square
      root that normalization uses. */
  datatype Embedder = Embedder(raw: string -> Option<Vector>, root: real -> real)

  datatype Match = Match(key: Key, similarity: real)

  /** The sum of products over the shorter of the two vectors. */
  function Dot(a: Vector, b: Vector): real {
    if a == [] || b == [] then 0.0 else a[0] * b[0] + Dot(a[1..], b[1..])
  }

  ghost predicate Reaches(vectors: map<Key, Vector>, probe: Vector, threshold: real, k: Key) {
    k in vectors && Dot(probe, vectors[k]) >= threshold
  }

  /** `r` is a recorded key of maximal similarity if some recorded key reaches
      the threshold, and `None` otherwise. */
  ghost predicate BestMatch(vectors: map<Key, Vector>, probe: Vector, threshold: real, r: Option<Match>) {
    match r
    case None => !exists k :: Reaches(vectors, probe, threshold, k)
    case Some(m) =>
      && Reaches(vectors, probe, threshold, m.key)
      && m.similarity == Dot(probe, vectors[m.key])
      && forall k :: k in vectors ==> Dot(probe, vectors[k]) <= m.similarity
  }

  /** The result of the scan for every threshold: the search starts from an
      empty key at similarity -1, which is what remains when nothing beats it. */
  ghost predicate Scanned(vectors: map<Key, Vector>, probe: Vector, threshold: real, r: Option<Match>) {
    if exists k :: k in vectors && Dot(probe, vectors[k]) > -1.0 then BestMatch(vectors, probe, threshold, r)
    else r == if vectors != map[] && threshold <= -1.0 then Some(Match("", -1.0)) else None
  }

  lemma ScanFindsBest(vectors: map<Key, Vector>, probe: Vector, threshold: real, r: Option<Match>)
    requires Scanned(vectors, probe, threshold, r) && threshold > -1.0
    ensures BestMatch(vectors, probe, threshold, r)
  {
  }

  // ---------- Normalization ----------

  function Zeros(v: Vector): Vector {
    if v == [] then [] else [0.0] + Zeros(v[1..])
  }

  function Scale(v: Vector, m: real): Vector
    requires m != 0.0
  {
    if v == [] then [] else [v[0] / m] + Scale(v[1..], m)
  }

  function Normalized(root: real -> real, v: Vector): Vector {
    var m := root(Dot(v, v));
    if m == 0.0 then Zeros(v) else Scale(v, m)
  }

  function Resolve(e: Embedder, prompt: string): Option<Vector> {
    if e.raw(prompt) == None then None else Some(Normalized(e.root, e.raw(prompt).value))
  }

  /** `root` is the square root at `x`. */
  ghost predicate IsRoot(root: real -> real, x: real) {
    root(x) >= 0.0 && root(x) * root(x) == x
  }

  predicate NonZero(v: Vector) {
    v != [] && (v[0] != 0.0 || NonZero(v[1..]))
  }

  lemma Positive(x: real, y: real, product: real)
    requires x > 0.0 && y > 0.0 && product == x * y
    ensures product > 0.0
  {
  }

  lemma Square(x: real, square: real)
    requires square == x * x
    ensures square >= 0.0 && (square > 0.0 <==> x != 0.0)
  {
    if x > 0.0 {
      Positive(x, x, square);
    } else if x < 0.0 {
      Positive(-x, -x, square);
    }
  }

  lemma {:induction false} SquaredLength(v: Vector)
    ensures Dot(v, v) >= 0.0
    ensures Dot(v, v) > 0.0 <==> NonZero(v)
  {
    if v != [] {
      var square := v[0] * v[0];
      SquaredLength(v[1..]);
      Square(v[0], square);
      assert Dot(v, v) == square + Dot(v[1..], v[1..]);
    }
  }

  lemma ScaledProduct(x: real, m: real, square: real)
    requires m != 0.0 && m * m == square
    ensures (x / m) * (x / m) * square == x * x
  {
    var q := x / m;
    assert q * m == x;
    assert q * q * square == q * q * (m * m) == (q * m) * (q * m);
  }

  /** Scaling by `m` divides the squared length by the square of `m`. */
  lemma {:induction false} ScaledLength(v: Vector, m: real, square: real)
    requires m != 0.0 && m * m == square
    ensures Dot(Scale(v, m), Scale(v, m)) * square == Dot(v, v)
  {
    if v != [] {
      var rest := Scale(v[1..], m);
      ScaledLength(v[1..], m, square);
      ScaledProduct(v[0], m, square);
      assert Scale(v, m)[1..] == rest;
      Distribute(v[0] / m * (v[0] / m), Dot(rest, rest), square);
    }
  }

  lemma Distribute(x: real, y: real, z: real)
    ensures (x + y) * z == x * z + y * z
  {
  }

  lemma {:induction false} ZeroLength(v: Vector)
    ensures Dot(Zeros(v), Zeros(v)) == 0.0
  {
    if v != [] {
      ZeroLength(v[1..]);
      assert Zeros(v)[1..] == Zeros(v[1..]);
    }
  }

  lemma Cancel(x: real, y: real)
    requires x * y == y && y != 0.0
    ensures x == 1.0
  {
    assert (x - 1.0) * y == 0.0;
  }

  lemma UnitLength(v: Vector, m: real, square: real)
    requires m != 0.0 && m * m == square == Dot(v, v) && square != 0.0
    ensures Dot(Scale(v, m), Scale(v, m)) == 1.0
  {
    ScaledLength(v, m, square);
    Cancel(Dot(Scale(v, m), Scale(v, m)), square);
  }

  /** A normalized vector has length one, or is zero if the given one was. */
  lemma NormalizedLength(root: real -> real, v: Vector)
    requires IsRoot(root, Dot(v, v))
    ensures Dot(Normalized(root, v), Normalized(root, v)) == if NonZero(v) then 1.0 else 0.0
  {
    var m := root(Dot(v, v));
    SquaredLength(v);
    Square(m, Dot(v, v));
    if m == 0.0 {
      ZeroLength(v);
    } else {
      UnitLength(v, m, Dot(v, v));
    }
  }

  // ---------- Similarity is the cosine ----------

  /** The length of `v`. */
  function Magnitude(root: real -> real, v: Vector): real {
    root(Dot(v, v))
  }

  /** The cosine of the angle between two vectors, or 0 if one of them is zero. */
  function Cosine(root: real -> real, u: Vector, v: Vector): real {
    var product := Magnitude(root, u) * Magnitude(root, v);
    if product == 0.0 then 0.0 else Dot(u, v) / product
  }

  /** `a` is `u` divided by `m`, told without dividing. */
  ghost predicate Scaled(a: Vector, u: Vector, m: real) {
    |a| == |u| && forall i :: 0 <= i < |u| ==> a[i] * m == u[i]
  }

  lemma {:induction false} ScaleScales(v: Vector, m: real)
    requires m != 0.0
    ensures Scaled(Scale(v, m), v, m)
  {
    if v != [] {
      ScaleScales(v[1..], m);
      var first := v[0] / m;
      assert first * m == v[0];
      assert Scale(v, m) == [first] + Scale(v[1..], m);
      assert forall i :: 0 < i < |v| ==> v[i] == v[1..][i - 1] && Scale(v, m)[i] == Scale(v[1..], m)[i - 1];
    }
  }

  lemma {:induction false} ZerosScale(v: Vector)
    requires !NonZero(v)
    ensures Scaled(Zeros(v), v, 0.0)
  {
    if v != [] {
      ZerosScale(v[1..]);
      assert forall i :: 0 < i < |v| ==> v[i] == v[1..][i - 1] && Zeros(v)[i] == Zeros(v[1..])[i - 1];
    }
  }

  lemma MagnitudeFacts(root: real -> real, v: Vector)
    requires IsRoot(root, Dot(v, v))
    ensures Magnitude(root, v) >= 0.0 && (Magnitude(root, v) > 0.0 <==> NonZero(v))
  {
    SquaredLength(v);
    Square(Magnitude(root, v), Dot(v, v));
  }

  /** Normalization keeps the direction: each component of the result, times the
      length of the vector, is its component. */
  lemma NormalizedDirection(root: real -> real, v: Vector)
    requires IsRoot(root, Dot(v, v))
    ensures Scaled(Normalized(root, v), v, Magnitude(root, v))
  {
    var m := Magnitude(root, v);
    MagnitudeFacts(root, v);
    if m == 0.0 {
      ZerosScale(v);
    } else {
      ScaleScales(v, m);
    }
  }

  lemma ProductOfScaled(a: real, b: real, m: real, n: real, product: real)
    requires product == m * n
    ensures a * b * product == (a * m) * (b * n)
  {
    assert a * b * (m * n) == (a * m) * (b * n);
  }

  lemma {:induction false} DotOfScaled(a: Vector, u: Vector, m: real, b: Vector, v: Vector, n: real, product: real)
    requires Scaled(a, u, m) && Scaled(b, v, n) && product == m * n
    ensures Dot(a, b) * product == Dot(u, v)
  {
    if a != [] && b != [] {
      DotOfScaled(a[1..], u[1..], m, b[1..], v[1..], n, product);
      ProductOfScaled(a[0], b[0], m, n, product);
      Distribute(a[0] * b[0], Dot(a[1..], b[1..]), product);
    }
  }

  lemma {:induction false} DotOfZero(a: Vector, b: Vector)
    requires !NonZero(a) || !NonZero(b)
    ensures Dot(a, b) == 0.0
  {
    if a != [] && b != [] {
      DotOfZero(a[1..], b[1..]);
    }
  }

  lemma Term(x: real, y: real, z: real)
    ensures x * z == x * y + x * (z - y)
  {
  }

  /** Each component counts once, with its own partner; with `DotOfZero` this
      determines the sum of products. */
  lemma {:induction false} DotUpdate(a: Vector, b: Vector, i: nat, x: real)
    requires i < |a| && i < |b|
    ensures Dot(a, b[i := x]) == Dot(a, b) + a[i] * (x - b[i])
  {
    if i == 0 {
      Term(a[0], b[0], x);
      assert b[0 := x][1..] == b[1..];
    } else {
      DotUpdate(a[1..], b[1..], i - 1, x);
      assert b[i := x][1..] == b[1..][i - 1 := x];
    }
  }

  lemma Quotient(x: real, product: real, dot: real)
    requires x * product == dot && product != 0.0
    ensures x == dot / product
  {
  }

  lemma NoZeroFactor(x: real, y: real, product: real)
    requires x >= 0.0 && y >= 0.0 && product == x * y
    ensures product == 0.0 <==> x == 0.0 || y == 0.0
  {
    if x > 0.0 && y > 0.0 {
      Positive(x, y, product);
    }
  }

  lemma SimilarityOfZero(root: real -> real, u: Vector, v: Vector)
    requires IsRoot(root, Dot(u, u)) && IsRoot(root, Dot(v, v)) && (!NonZero(u) || !NonZero(v))
    ensures Dot(Normalized(root, u), Normalized(root, v)) == 0.0
  {
    NormalizedLength(root, u);
    NormalizedLength(root, v);
    SquaredLength(Normalized(root, u));
    SquaredLength(Normalized(root, v));
    DotOfZero(Normalized(root, u), Normalized(root, v));
  }

  lemma SimilarityTimesLengths(root: real -> real, u: Vector, v: Vector, product: real)
    requires IsRoot(root, Dot(u, u)) && IsRoot(root, Dot(v, v))
    requires product == Magnitude(root, u) * Magnitude(root, v)
    ensures Dot(Normalized(root, u), Normalized(root, v)) * product == Dot(u, v)
  {
    NormalizedDirection(root, u);
    NormalizedDirection(root, v);
    DotOfScaled(Normalized(root, u), u, Magnitude(root, u), Normalized(root, v), v, Magnitude(root, v), product);
  }

  /** The similarity of two normalized vectors is the cosine of the raw ones. */
  lemma SimilarityIsCosine(root: real -> real, u: Vector, v: Vector)
    requires IsRoot(root, Dot(u, u)) && IsRoot(root, Dot(v, v))
    ensures Dot(Normalized(root, u), Normalized(root, v)) == Cosine(root, u, v)
  {
    var similarity, product :=
      Dot(Normalized(root, u), Normalized(root, v)), Magnitude(root, u) * Magnitude(root, v);
    MagnitudeFacts(root, u);
    MagnitudeFacts(root, v);
    NoZeroFactor(Magnitude(root, u), Magnitude(root, v), product);
    if product == 0.0 {
      SimilarityOfZero(root, u, v);
    } else {
      SimilarityTimesLengths(root, u, v, product);
      Quotient(similarity, product, Dot(u, v));
    }
  }

  /** Similarities lie between -1 and 1 for vectors of at most unit length. */
  lemma {:induction false} DotBound(a: Vector, b: Vector)
    ensures 2.0 * Dot(a, b) <= Dot(a, a) + Dot(b, b)
    ensures -2.0 * Dot(a, b) <= Dot(a, a) + Dot(b, b)
  {
    SquaredLength(a);
    SquaredLength(b);
    if a != [] && b != [] {
      DotBound(a[1..], b[1..]);
      Square(a[0] - b[0], (a[0] - b[0]) * (a[0] - b[0]));
      Square(a[0] + b[0], (a[0] + b[0]) * (a[0] + b[0]));
    }
  }

  /** A recorded prompt finds a match again, unless its embedding is zero. */
  lemma RecordedPromptMatches(
      e: Embedder, vectors: map<Key, Vector>, prompt: string, threshold: real, r: Option<Match>, k: Key)
    requires e.raw(prompt).Some? && NonZero(e.raw(prompt).value)
    requires IsRoot(e.root, Dot(e.raw(prompt).value, e.raw(prompt).value))
    requires k in vectors && Some(vectors[k]) == Resolve(e, prompt)
    requires Scanned(vectors, Resolve(e, prompt).value, threshold, r) && threshold <= 1.0
    ensures r.Some? && r.value.key in vectors && r.value.similarity >= 1.0
  {
    NormalizedLength(e.root, e.raw(prompt).value);
    assert Dot(Resolve(e, prompt).value, vectors[k]) == 1.0;
    assert Reaches(vectors, Resolve(e, prompt).value, threshold, k);
  }

  class SemanticCacheLayer {
    const embed: Embedder
    const similarityThreshold: real
    var vectors: map<Key, Vector>
    var indexKeys: seq<Key>
    var indexMatrix: seq<Vector>
    var dirty: bool

    /** Unless it is dirty, the index lists exactly the recorded vectors. */
    ghost predicate Valid()
      reads this
    {
      !dirty ==>
        && NoDup(indexKeys) && Keys(indexKeys) == vectors.Keys
        && |indexMatrix| == |indexKeys|
        && forall i :: 0 <= i < |indexKeys| ==>
          indexKeys[i] in vectors && indexMatrix[i] == vectors[indexKeys[i]]
    }

    constructor (embed: Embedder, similarityThreshold: real)
      ensures Valid() && vectors == map[]
      ensures this.embed == embed && this.similarityThreshold == similarityThreshold
    {
      this.embed, this.similarityThreshold := embed, similarityThreshold;
      vectors, indexKeys, indexMatrix, dirty := map[], [], [], true;
    }

    /** Returns false when the embedding function raises. */
    method Record(key: Key, prompt: string) returns (ok: bool)
      requires Valid()
      modifies this
      ensures Valid() && ok == Resolve(embed, prompt).Some?
      ensures vectors == if ok then old(vectors)[key := Resolve(embed, prompt).value] else old(vectors)
    {
      var vector := Resolve(embed, prompt);
      if vector == None {
        return false;
      }
      vectors := vectors[key := vector.value];
      dirty := true;
      return true;
    }

    method FindSimilar(prompt: string) returns (r: Option<Match>)
      requires Valid()
      modifies this`indexKeys, this`indexMatrix, this`dirty
      ensures Valid()
      ensures Resolve(embed, prompt) == None ==> r == None
      ensures Resolve(embed, prompt).Some? && vectors != map[] ==> !dirty
      ensures Resolve(embed, prompt).Some? ==>
        Scanned(vectors, Resolve(embed, prompt).value, similarityThreshold, r)
    {
      var vector := Resolve(embed, prompt);
      if vector == None || vectors == map[] {
        return None;
      }
      EnsureIndex();
      var best := Match("", -1.0);
      var rest := vectors.Keys;
      while rest != {}
        invariant rest <= vectors.Keys
        invariant forall k :: k in vectors && k !in rest ==> Dot(vector.value, vectors[k]) <= best.similarity
        invariant best == Match("", -1.0) ||
          (best.key in vectors && -1.0 < best.similarity == Dot(vector.value, vectors[best.key]))
        decreases |rest|
      {
        var key :| key in rest;
        rest := rest - {key};
        var similarity := Dot(vector.value, vectors[key]);
        if similarity > best.similarity {
          best := Match(key, similarity);
        }
      }
      if best.similarity >= similarityThreshold {
        return Some(best);
      }
      return None;
    }

    method Delete(key: Key)
      modifies this
      ensures Valid() && vectors == old(vectors) - {key}
    {
      vectors := vectors - {key};
      dirty := true;
    }

    method Clear()
      modifies this
      ensures Valid() && !dirty && vectors == map[]
    {
      vectors, indexKeys, indexMatrix := map[], [], [];
      dirty := false;
    }

    method EnsureIndex()
      requires Valid()
      modifies this`indexKeys, this`indexMatrix, this`dirty
      ensures Valid() && !dirty
    {
      if !dirty {
        return;
      }
      var recorded := vectors;
      var ks := Listing(recorded.Keys);
      KeysIn(ks);
      indexKeys := ks;
      indexMatrix := seq(|ks|, i requires 0 <= i < |ks| && ks[i] in recorded => recorded[ks[i]]);
      dirty := false;
    }
  }
}
