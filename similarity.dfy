/**
 Cosine similarity of two embedding vectors over the reals, with the square
 root supplied by the caller. The only thing assumed of it is that the root of
 a positive number is positive, so that the division is defined.
 */
module Similarity {
  import opened Fingerprint

  /** `Math.sqrt` as far as the model needs it: positive on positive numbers. */
  type RootFn = f: real -> real | forall x: real :: x > 0.0 ==> f(x) > 0.0 witness (x: real) => x

  /** Sum of the products of the first n pairs of entries, accumulated left
      to right. */
  function DotUpTo(a: seq<real>, b: seq<real>, n: nat): real
    requires n <= |a| && n <= |b|
  {
    if n == 0 then 0.0 else DotUpTo(a, b, n - 1) + a[n - 1] * b[n - 1]
  }

  /** Sum of the squares of the first n entries; never negative. */
  function SumSqUpTo(a: seq<real>, n: nat): (r: real)
    requires n <= |a|
    ensures r >= 0.0
  {
    if n == 0 then 0.0 else SumSqUpTo(a, n - 1) + a[n - 1] * a[n - 1]
  }

  function Dot(a: seq<real>, b: seq<real>): real
    requires |a| == |b|
  {
    DotUpTo(a, b, |a|)
  }

  function SumSq(a: seq<real>): real {
    SumSqUpTo(a, |a|)
  }

  /** `cosineSimilarity`: 0 for vectors of different lengths or when either
      sum of squares is 0, else the dot product over the product of roots. */
  function Cosine(a: seq<real>, b: seq<real>, sqrt: RootFn): real
  {
    if |a| != |b| then 0.0
    else if SumSq(a) == 0.0 || SumSq(b) == 0.0 then 0.0
    else Quotient(Dot(a, b), SumSq(a), SumSq(b), sqrt)
  }

  lemma RootProductNonZero(sqrt: RootFn, x: real, y: real)
    requires x > 0.0 && y > 0.0
    ensures sqrt(x) * sqrt(y) != 0.0
  {
    var p, q := sqrt(x), sqrt(y);
    assert p > 0.0 && q > 0.0;
    PositiveProduct(p, q);
  }

  lemma PositiveProduct(p: real, q: real)
    requires p > 0.0 && q > 0.0
    ensures p * q > 0.0
  {
  }

  /** The for-loop of `cosineSimilarity`: the dot product and both sums of
      squares, accumulated in one pass. */
  method Accumulate(vec1: seq<real>, vec2: seq<real>) returns (dotProduct: real, norm1: real, norm2: real)
    requires |vec1| == |vec2|
    ensures dotProduct == Dot(vec1, vec2)
    ensures norm1 == SumSq(vec1) && norm2 == SumSq(vec2)
  {
    dotProduct, norm1, norm2 := 0.0, 0.0, 0.0;
    var i := 0;
    while i < |vec1|
      invariant 0 <= i <= |vec1|
      invariant dotProduct == DotUpTo(vec1, vec2, i)
      invariant norm1 == SumSqUpTo(vec1, i)
      invariant norm2 == SumSqUpTo(vec2, i)
    {
      dotProduct := dotProduct + vec1[i] * vec2[i];
      norm1 := norm1 + vec1[i] * vec1[i];
      norm2 := norm2 + vec2[i] * vec2[i];
      i := i + 1;
    }
  }

  /** `cosineSimilarity`: the length test, the accumulation loop, the zero
      test on both sums of squares, and the division. */
  method CosineSimilarity(vec1: seq<real>, vec2: seq<real>, sqrt: RootFn) returns (s: real)
    ensures |vec1| != |vec2| ==> s == 0.0
    ensures s == Cosine(vec1, vec2, sqrt)
  {
    if |vec1| != |vec2| {
      return 0.0;
    }
    var dotProduct, norm1, norm2 := Accumulate(vec1, vec2);
    if norm1 == 0.0 || norm2 == 0.0 {
      return 0.0;
    }
    s := Quotient(dotProduct, norm1, norm2, sqrt);
  }

  /** The division that ends `cosineSimilarity`, once both sums of squares
      are known to be non-zero (and so positive). */
  function Quotient(dot: real, n1: real, n2: real, sqrt: RootFn): (q: real)
    requires n1 > 0.0 && n2 > 0.0
    ensures q * (sqrt(n1) * sqrt(n2)) == dot
  {
    RootProductNonZero(sqrt, n1, n2);
    dot / (sqrt(n1) * sqrt(n2))
  }

  lemma {:induction false} DotUpToSymmetric(a: seq<real>, b: seq<real>, n: nat)
    requires n <= |a| && n <= |b|
    ensures DotUpTo(a, b, n) == DotUpTo(b, a, n)
  {
    if n > 0 {
      DotUpToSymmetric(a, b, n - 1);
    }
  }

  /** A vector of zeros has sum of squares 0. */
  lemma {:induction false} ZeroVectorNorm(a: seq<real>, n: nat)
    requires n <= |a|
    requires forall i :: 0 <= i < |a| ==> a[i] == 0.0
    ensures SumSqUpTo(a, n) == 0.0
  {
    if n > 0 {
      ZeroVectorNorm(a, n - 1);
    }
  }

  /** Cosine similarity is symmetric. */
  lemma CosineSymmetric(a: seq<real>, b: seq<real>, sqrt: RootFn)
    ensures Cosine(a, b, sqrt) == Cosine(b, a, sqrt)
  {
    if |a| == |b| {
      DotUpToSymmetric(a, b, |a|);
      assert sqrt(SumSq(a)) * sqrt(SumSq(b)) == sqrt(SumSq(b)) * sqrt(SumSq(a));
    }
  }

  /** A vector of zeros is similar to nothing, itself included. */
  lemma ZeroVectorScoresZero(a: seq<real>, b: seq<real>, sqrt: RootFn)
    requires forall i :: 0 <= i < |a| ==> a[i] == 0.0
    ensures Cosine(a, b, sqrt) == 0.0 && Cosine(b, a, sqrt) == 0.0
  {
    ZeroVectorNorm(a, |a|);
  }

  /** The fallback vector has 384 entries, so it scores 0 against every
      768-entry embedding the service returns. */
  lemma FallbackNeverScoresAgainstServiceVector(d: Digest, v: seq<real>, sqrt: RootFn)
    requires |v| == 768
    ensures Cosine(FallbackVector(d), v, sqrt) == 0.0
  {
  }
}
