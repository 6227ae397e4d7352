/**
 * similarity (app.js:101-127): cosine similarity restricted to the positions
 * where both vectors are strictly positive, damped by the fraction of the
 * first vector's positions that are shared.
 */
module Similarity {
  import opened Host

  /** The value the program returns: `{ score, overlap }`. */
  datatype Sim = Sim(score: real, overlap: nat)

  /** The loop's accumulators. */
  datatype Accum = Accum(dot: real, normA: real, normB: real, overlap: nat)

  /**
   * Both vectors are strictly positive at `i`. A position past the end of `b`
   * reads as `undefined` in the program, and `undefined > 0` is false.
   */
  predicate CoPresent(a: seq<real>, b: seq<real>, i: int)
  {
    0 <= i < |a| && i < |b| && a[i] > 0.0 && b[i] > 0.0
  }

  /** The accumulators after the first `n` positions. */
  function Accumulate(a: seq<real>, b: seq<real>, n: nat): (s: Accum)
    ensures s.overlap <= n && s.overlap <= |b|
    ensures s.dot >= 0.0 && s.normA >= 0.0 && s.normB >= 0.0
    ensures s.dot > 0.0 <==> s.overlap > 0
    ensures s.dot > 0.0 ==> s.normA > 0.0 && s.normB > 0.0
  {
    if n == 0 then Accum(0.0, 0.0, 0.0, 0)
    else
      var s := Accumulate(a, b, n - 1);
      if CoPresent(a, b, n - 1) then
        var x, y := a[n - 1], b[n - 1];
        PositiveProduct(x, y);
        PositiveProduct(x, x);
        PositiveProduct(y, y);
        Accum(s.dot + x * y, s.normA + x * x, s.normB + y * y, s.overlap + 1)
      else s
  }

  lemma AccumulateStep(a: seq<real>, b: seq<real>, n: nat)
    ensures CoPresent(a, b, n) ==> var s := Accumulate(a, b, n);
      Accumulate(a, b, n + 1) == Accum(s.dot + a[n] * b[n], s.normA + a[n] * a[n], s.normB + b[n] * b[n], s.overlap + 1)
    ensures !CoPresent(a, b, n) ==> Accumulate(a, b, n + 1) == Accumulate(a, b, n)
  {
  }

  lemma PositiveProduct(x: real, y: real)
    requires x > 0.0 && y > 0.0
    ensures x * y > 0.0
  {
  }

  /** cosine * coverage^CoverageExponent, for positive norms and a non-empty first vector. */
  function DampedCosine(dot: real, normA: real, normB: real, overlap: nat, length: nat, rt: Runtime): (score: real)
    requires dot > 0.0 && normA > 0.0 && normB > 0.0 && length > 0
    ensures score >= 0.0
  {
    PositiveProduct(rt.sqrt(normA), rt.sqrt(normB));
    var cosine := dot / (rt.sqrt(normA) * rt.sqrt(normB));
    var coverage := overlap as real / length as real;
    NonNegativeScore(cosine, rt.pow(coverage, CoverageExponent));
    cosine * rt.pow(coverage, CoverageExponent)
  }

  lemma NonNegativeScore(cosine: real, damping: real)
    requires cosine > 0.0 && damping >= 0.0
    ensures cosine * damping >= 0.0
  {
  }

  /**
   * The score and overlap the program returns: 0 when fewer than MinOverlap
   * positions are shared or the dot product is 0, and otherwise
   * cosine * coverage^CoverageExponent.
   */
  function SimilarityOf(a: seq<real>, b: seq<real>, rt: Runtime): (r: Sim)
    ensures r.overlap <= |a| && r.overlap <= |b|
    ensures r.score >= 0.0
    ensures r.overlap < MinOverlap ==> r.score == 0.0
    ensures r.score > 0.0 ==> MinOverlap <= r.overlap
  {
    var s := Accumulate(a, b, |a|);
    if s.overlap < MinOverlap || s.dot == 0.0 then Sim(0.0, s.overlap)
    else Sim(DampedCosine(s.dot, s.normA, s.normB, s.overlap, |a|, rt), s.overlap)
  }

  method Similarity(a: seq<real>, b: seq<real>, rt: Runtime) returns (r: Sim)
    ensures r == SimilarityOf(a, b, rt)
  {
    var dot, normA, normB := 0.0, 0.0, 0.0;
    var overlap: nat := 0;
    var i := 0;
    while i < |a|
      invariant 0 <= i <= |a|
      invariant Accumulate(a, b, i) == Accum(dot, normA, normB, overlap)
    {
      AccumulateStep(a, b, i);
      var x := a[i];
      if x > 0.0 && i < |b| && b[i] > 0.0 {
        var y := b[i];
        assert CoPresent(a, b, i);
        assert Accumulate(a, b, i + 1) == Accum(dot + x * y, normA + x * x, normB + y * y, overlap + 1);
        dot := dot + x * y;
        normA := normA + x * x;
        normB := normB + y * y;
        overlap := overlap + 1;
      } else {
        assert !CoPresent(a, b, i);
      }
      i := i + 1;
    }
    if overlap < MinOverlap || dot == 0.0 {
      return Sim(0.0, overlap);
    }
    return Sim(DampedCosine(dot, normA, normB, overlap, |a|, rt), overlap);
  }

  // ---------------------------------------------------------------------------
  // Lemmas

  /** The positions that count towards the overlap. */
  ghost function CoPresentUpTo(a: seq<real>, b: seq<real>, n: nat): set<int>
  {
    set i | 0 <= i < n && CoPresent(a, b, i)
  }

  lemma {:induction false} OverlapCountsUpTo(a: seq<real>, b: seq<real>, n: nat)
    ensures Accumulate(a, b, n).overlap == |CoPresentUpTo(a, b, n)|
  {
    if n > 0 {
      OverlapCountsUpTo(a, b, n - 1);
      var before := CoPresentUpTo(a, b, n - 1);
      if CoPresent(a, b, n - 1) {
        assert CoPresentUpTo(a, b, n) == before + {n - 1};
      } else {
        assert CoPresentUpTo(a, b, n) == before;
      }
    }
  }

  /** The overlap is the number of positions where both vectors are strictly positive. */
  lemma OverlapIsCoPresentCount(a: seq<real>, b: seq<real>, rt: Runtime)
    ensures SimilarityOf(a, b, rt).overlap == |set i | 0 <= i < |a| && CoPresent(a, b, i)|
  {
    OverlapCountsUpTo(a, b, |a|);
  }

  /** Past the end of the shorter vector nothing more is accumulated. */
  lemma {:induction false} AccumulateSaturates(a: seq<real>, b: seq<real>, n: nat)
    requires |a| <= n || |b| <= n
    ensures Accumulate(a, b, n) == Accumulate(a, b, if |a| < |b| then |a| else |b|)
  {
    var m := if |a| < |b| then |a| else |b|;
    if n > m {
      AccumulateSaturates(a, b, n - 1);
    }
  }

  /** Swapping the vectors keeps the dot product and the overlap and swaps the norms. */
  lemma {:induction false} AccumulateSwap(a: seq<real>, b: seq<real>, n: nat)
    ensures var s, t := Accumulate(a, b, n), Accumulate(b, a, n);
      s.dot == t.dot && s.normA == t.normB && s.normB == t.normA && s.overlap == t.overlap
  {
    if n > 0 {
      AccumulateSwap(a, b, n - 1);
    }
  }

  /** The overlap does not depend on the order of the arguments, whatever their lengths. */
  lemma OverlapSymmetric(a: seq<real>, b: seq<real>, rt: Runtime)
    ensures SimilarityOf(a, b, rt).overlap == SimilarityOf(b, a, rt).overlap
  {
    AccumulateSaturates(a, b, |a|);
    AccumulateSaturates(b, a, |b|);
    AccumulateSwap(a, b, if |a| < |b| then |a| else |b|);
  }

  /** For vectors of equal length the whole result does not depend on the order of the arguments. */
  lemma SimilaritySymmetric(a: seq<real>, b: seq<real>, rt: Runtime)
    requires |a| == |b|
    ensures SimilarityOf(a, b, rt) == SimilarityOf(b, a, rt)
  {
    AccumulateSwap(a, b, |a|);
    var s := Accumulate(a, b, |a|);
    if MinOverlap <= s.overlap && s.dot != 0.0 {
      DampedCosineSymmetric(s.dot, s.normA, s.normB, s.overlap, |a|, rt);
    }
  }

  lemma DampedCosineSymmetric(dot: real, normA: real, normB: real, overlap: nat, length: nat, rt: Runtime)
    requires dot > 0.0 && normA > 0.0 && normB > 0.0 && length > 0
    ensures DampedCosine(dot, normA, normB, overlap, length, rt) == DampedCosine(dot, normB, normA, overlap, length, rt)
  {
    assert rt.sqrt(normA) * rt.sqrt(normB) == rt.sqrt(normB) * rt.sqrt(normA);
  }
}
