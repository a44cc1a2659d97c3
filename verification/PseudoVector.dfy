// src/analytics/vectorMath.ts: the pseudo-embedding of a text, from its seed to the normalised vector.
module PseudoVector {
  import opened Hashes
  import opened VectorMath

  function RawVector(seed: Word, dim: nat): (v: seq<real>)
    ensures |v| == dim && IsRawVector(v, seed)
  {
    seq(dim, i requires 0 <= i < dim => Coordinate(Lcg(seed, i + 1)))
  }

  /** The divisor 2^32 - 1 is odd, so no coordinate is zero. */
  lemma CoordinateNotZero(rng: Word)
    ensures Coordinate(rng) != 0.0
  {
    assert 2 * rng != 4294967295;
    assert (2 * rng) as real == 2.0 * rng as real;
  }

  lemma RawHasLength(seed: Word, dim: nat)
    requires dim >= 1
    ensures Dot(RawVector(seed, dim), RawVector(seed, dim)) > 0.0
  {
    var v := RawVector(seed, dim);
    CoordinateNotZero(Lcg(seed, dim));
    SquaresNonNegative(v, dim - 1);
    var p := SquareOfNonZero(v[dim - 1]);
    DotStep(v, v, dim);
  }

  lemma SquareOfNonZero(x: real) returns (p: real)
    requires x != 0.0
    ensures p == x * x && p > 0.0
  {
    var a := if x > 0.0 then x else -x;
    p := Product(a, a);
  }

  /** clean stands for lower-casing and trimming, norm for the length of the raw vector. */
  method TextToPseudoVector(text: Text, clean: Text -> Text, dim: nat, norm: real) returns (v: seq<real>)
    requires IsNorm(RawVector(Djb2(clean(text)), dim), norm)
    ensures |v| == dim && v == L2Normalize(RawVector(Djb2(clean(text)), dim), norm)
    ensures dim >= 1 ==> Dot(v, v) == 1.0
  {
    var raw := RawPseudoVector(clean(text), dim);
    assert raw == RawVector(Djb2(clean(text)), dim);
    if dim >= 1 {
      PseudoVectorIsUnit(Djb2(clean(text)), dim, norm);
    }
    v := if norm == 0.0 then raw else seq(|raw|, i requires 0 <= i < |raw| => raw[i] / norm);
  }

  /** For every text and every positive dimension the pseudo-embedding has length exactly 1: the case of a
      zero vector, which normalising leaves alone, never arises. */
  lemma PseudoVectorIsUnit(seed: Word, dim: nat, norm: real)
    requires dim >= 1 && IsNorm(RawVector(seed, dim), norm)
    ensures Dot(L2Normalize(RawVector(seed, dim), norm), L2Normalize(RawVector(seed, dim), norm)) == 1.0
  {
    RawHasLength(seed, dim);
    hide Dot, RawVector, L2Normalize;
    NormalizedLength(RawVector(seed, dim), norm);
  }
}
