// routes/getProjector.ts: the cross-covariance of anchor sets and the projection of a vector.
module Projector {
  import opened VectorMath

  type Matrix = seq<seq<real>>

  ghost predicate HasWidth(m: Matrix, d: nat) {
    forall i :: 0 <= i < |m| ==> |m[i]| == d
  }

  /** The entry (r, c) of the product of the transpose of a with b. */
  ghost function CovarianceAt(a: Matrix, b: Matrix, d: nat, r: nat, c: nat): real
    requires |a| == |b| && HasWidth(a, d) && HasWidth(b, d) && r < d && c < d
  {
    if a == [] then 0.0
    else
      var n := |a| - 1;
      CovarianceAt(a[..n], b[..n], d, r, c) + a[n][r] * b[n][c]
  }

  lemma CovarianceStep(a: Matrix, b: Matrix, d: nat, n: nat, r: nat, c: nat)
    requires |a| == |b| && HasWidth(a, d) && HasWidth(b, d) && r < d && c < d && n < |a|
    ensures CovarianceAt(a[..n + 1], b[..n + 1], d, r, c) == CovarianceAt(a[..n], b[..n], d, r, c) + a[n][r] * b[n][c]
  {
    assert a[..n + 1][..n] == a[..n] && b[..n + 1][..n] == b[..n];
  }

  method CrossCovariance(a: Matrix, b: Matrix) returns (h: array2<real>)
    requires a != [] && |a| == |b| && HasWidth(a, |a[0]|) && HasWidth(b, |a[0]|)
    ensures fresh(h) && h.Length0 == h.Length1 == |a[0]|
    ensures forall r, c :: 0 <= r < |a[0]| && 0 <= c < |a[0]| ==> h[r, c] == CovarianceAt(a, b, |a[0]|, r, c)
  {
    var n, d := |a|, |a[0]|;
    h := new real[d, d]((i, j) => 0.0);
    for i := 0 to n
      invariant forall r, c :: 0 <= r < d && 0 <= c < d ==> h[r, c] == CovarianceAt(a[..i], b[..i], d, r, c)
    {
      for r := 0 to d
        invariant forall p, c :: 0 <= p < r && 0 <= c < d ==> h[p, c] == CovarianceAt(a[..i + 1], b[..i + 1], d, p, c)
        invariant forall p, c :: r <= p < d && 0 <= c < d ==> h[p, c] == CovarianceAt(a[..i], b[..i], d, p, c)
      {
        for c := 0 to d
          invariant forall p, q :: 0 <= p < r && 0 <= q < d ==> h[p, q] == CovarianceAt(a[..i + 1], b[..i + 1], d, p, q)
          invariant forall p, q :: r < p < d && 0 <= q < d ==> h[p, q] == CovarianceAt(a[..i], b[..i], d, p, q)
          invariant forall q :: 0 <= q < c ==> h[r, q] == CovarianceAt(a[..i + 1], b[..i + 1], d, r, q)
          invariant forall q :: c <= q < d ==> h[r, q] == CovarianceAt(a[..i], b[..i], d, r, q)
        {
          CovarianceStep(a, b, d, i, r, c);
          h[r, c] := h[r, c] + a[i][r] * b[i][c];
        }
      }
    }
    assert a[..n] == a && b[..n] == b;
  }

  lemma {:induction false} CovarianceSymmetric(a: Matrix, d: nat, r: nat, c: nat)
    requires HasWidth(a, d) && r < d && c < d
    ensures CovarianceAt(a, a, d, r, c) == CovarianceAt(a, a, d, c, r)
  {
    if a != [] {
      CovarianceSymmetric(a[..|a| - 1], d, r, c);
    }
  }

  // ---------------------------------------------------------------------
  // Positive semidefinite
  // ---------------------------------------------------------------------

  /** The first m terms of row r times x. */
  ghost function RowTimes(a: Matrix, d: nat, x: seq<real>, r: nat, m: nat): real
    requires HasWidth(a, d) && |x| == d && r < d && m <= d
  {
    if m == 0 then 0.0 else RowTimes(a, d, x, r, m - 1) + CovarianceAt(a, a, d, r, m - 1) * x[m - 1]
  }

  /** The first m rows of the quadratic form of x. */
  ghost function Form(a: Matrix, d: nat, x: seq<real>, m: nat): real
    requires HasWidth(a, d) && |x| == d && m <= d
  {
    if m == 0 then 0.0 else Form(a, d, x, m - 1) + x[m - 1] * RowTimes(a, d, x, m - 1, d)
  }

  /** The sum over the anchors of the squared dot product with x. */
  ghost function SquaredDots(a: Matrix, d: nat, x: seq<real>): real
    requires HasWidth(a, d) && |x| == d
  {
    if a == [] then 0.0 else SquaredDots(a[..|a| - 1], d, x) + Square(DotTo(a[|a| - 1], x, d))
  }

  lemma Distribute(h: real, p: real, q: real, x: real, rest: real, rest': real, dot: real, dot': real)
    requires rest' == rest + p * dot && dot' == dot + q * x
    ensures rest' + (h + p * q) * x == (rest + h * x) + p * dot'
  {}

  lemma {:induction false} RowTimesStep(a: Matrix, d: nat, x: seq<real>, r: nat, m: nat)
    requires a != [] && HasWidth(a, d) && |x| == d && r < d && m <= d
    ensures RowTimes(a, d, x, r, m) == RowTimes(a[..|a| - 1], d, x, r, m) + a[|a| - 1][r] * DotTo(a[|a| - 1], x, m)
  {
    var init, v := a[..|a| - 1], a[|a| - 1];
    if m > 0 {
      RowTimesStep(a, d, x, r, m - 1);
      Distribute(CovarianceAt(init, init, d, r, m - 1), v[r], v[m - 1], x[m - 1],
                 RowTimes(init, d, x, r, m - 1), RowTimes(a, d, x, r, m - 1), DotTo(v, x, m - 1), DotTo(v, x, m));
    }
  }

  lemma Collect(form: real, x: real, row: real, v: real, dot: real, part: real, part': real)
    requires part' == part + v * x
    ensures form + part * dot + x * (row + v * dot) == (form + x * row) + part' * dot
  {}

  lemma {:induction false} FormStep(a: Matrix, d: nat, x: seq<real>, m: nat)
    requires a != [] && HasWidth(a, d) && |x| == d && m <= d
    ensures Form(a, d, x, m) == Form(a[..|a| - 1], d, x, m) + DotTo(a[|a| - 1], x, m) * DotTo(a[|a| - 1], x, d)
  {
    var init, v := a[..|a| - 1], a[|a| - 1];
    if m > 0 {
      FormStep(a, d, x, m - 1);
      RowTimesStep(a, d, x, m - 1, d);
      DotStep(v, x, m);
      hide RowTimes, DotTo;
      Collect(Form(init, d, x, m - 1), x[m - 1], RowTimes(init, d, x, m - 1, d), v[m - 1], DotTo(v, x, d),
              DotTo(v, x, m - 1), DotTo(v, x, m));
    }
  }

  lemma {:induction false} FormIsSquares(a: Matrix, d: nat, x: seq<real>)
    requires HasWidth(a, d) && |x| == d
    ensures Form(a, d, x, d) == SquaredDots(a, d, x) >= 0.0
  {
    if a == [] {
      NoAnchors(d, x, d);
    } else {
      FormIsSquares(a[..|a| - 1], d, x);
      FormStep(a, d, x, d);
      hide Form, DotTo;
      var p := DotTo(a[|a| - 1], x, d);
      assert p * p >= 0.0;
    }
  }

  lemma {:induction false} NoAnchors(d: nat, x: seq<real>, m: nat)
    requires |x| == d && m <= d
    ensures Form([], d, x, m) == 0.0
  {
    if m > 0 {
      NoAnchors(d, x, m - 1);
      NoAnchorsRow(d, x, m - 1, d);
    }
  }

  lemma {:induction false} NoAnchorsRow(d: nat, x: seq<real>, r: nat, m: nat)
    requires |x| == d && r < d && m <= d
    ensures RowTimes([], d, x, r, m) == 0.0
  {
    if m > 0 {
      NoAnchorsRow(d, x, r, m - 1);
    }
  }

  /** The covariance of an anchor set with itself is symmetric and positive semidefinite. */
  lemma CovarianceIsPSD(a: Matrix, d: nat, x: seq<real>, r: nat, c: nat)
    requires HasWidth(a, d) && |x| == d && r < d && c < d
    ensures CovarianceAt(a, a, d, r, c) == CovarianceAt(a, a, d, c, r)
    ensures Form(a, d, x, d) >= 0.0
  {
    CovarianceSymmetric(a, d, r, c);
    FormIsSquares(a, d, x);
  }

  // ---------------------------------------------------------------------
  // Projection
  // ---------------------------------------------------------------------

  function BuildRotationMatrix(dim: nat): (m: Matrix)
    ensures |m| == dim && forall i :: 0 <= i < dim ==> |m[i]| == dim && forall j :: 0 <= j < dim ==> m[i][j] == if i == j then 1.0 else 0.0
  {
    seq(dim, i => seq(dim, j => if i == j then 1.0 else 0.0))
  }

  function Apply(matrix: Matrix, v: seq<real>): (r: seq<real>)
    requires |matrix| == |v|
    ensures |r| == |v|
  {
    seq(|v|, i requires 0 <= i < |v| => Dot(matrix[i], v))
  }

  lemma {:induction false} UnitRow(row: seq<real>, v: seq<real>, i: nat, m: nat)
    requires |row| == |v| && i < |v| && m <= |v|
    requires forall j :: 0 <= j < |row| ==> row[j] == if i == j then 1.0 else 0.0
    ensures DotTo(row, v, m) == if i < m then v[i] else 0.0
  {
    if m > 0 {
      UnitRow(row, v, i, m - 1);
    }
  }

  method ApplyProjector(matrix: Matrix, v: seq<real>, norm: real) returns (out: seq<real>)
    requires |matrix| == |v| && HasWidth(matrix, |v|)
    requires IsNorm(Apply(matrix, v), norm)
    ensures out == L2Normalize(Apply(matrix, v), norm)
  {
    var raw: seq<real> := [];
    for r := 0 to |v|
      invariant |raw| == r && forall i :: 0 <= i < r ==> raw[i] == Dot(matrix[i], v)
    {
      var sum := 0.0;
      for c := 0 to |v|
        invariant sum == DotTo(matrix[r], v, c)
      {
        sum := sum + matrix[r][c] * v[c];
      }
      raw := raw + [sum];
    }
    assert raw == Apply(matrix, v);
    out := if norm == 0.0 then raw else seq(|raw|, i requires 0 <= i < |raw| => raw[i] / norm);
  }

  /** The published rotation only normalises: projecting is L2-normalisation, and leaves a vector of
      length 1 exactly as it was. */
  lemma IdentityProjects(v: seq<real>, norm: real)
    requires IsNorm(v, norm)
    ensures Apply(BuildRotationMatrix(|v|), v) == v
    ensures norm == 1.0 ==> L2Normalize(Apply(BuildRotationMatrix(|v|), v), norm) == v
  {
    var m := BuildRotationMatrix(|v|);
    forall i | 0 <= i < |v| ensures Dot(m[i], v) == v[i] {
      UnitRow(m[i], v, i, |v|);
    }
    assert Apply(m, v) == v;
  }
}
