/** The 3×3 matrices and 3-vectors of exact fractions used by day 21 (`matrix.rs`,
    `vector.rs`): determinant, transpose, adjugate, inverse, scaling and the
    matrix-vector product. A matrix is three rows of three fractions; a vector is three
    fractions. Each operation is stated against the real-valued matrix its entries
    denote. */
module Matrices {
  import opened Wrappers
  import opened Fractions

  type Matrix = seq<seq<Fraction>>
  type Vector = seq<Fraction>

  /** Three rows of three entries. */
  predicate Shape(m: Matrix)
  {
    |m| == 3 && forall i :: 0 <= i < 3 ==> |m[i]| == 3
  }

  /** A 3×3 matrix of normal fractions. */
  ghost predicate Valid(m: Matrix)
  {
    Shape(m) && forall i, j :: 0 <= i < 3 && 0 <= j < 3 ==> Normal(m[i][j])
  }

  ghost predicate ValidVector(v: Vector)
  {
    |v| == 3 && forall i :: 0 <= i < 3 ==> Normal(v[i])
  }

  // The real matrices the fraction matrices denote.

  type Real3 = seq<seq<real>>

  predicate RShape(x: Real3)
  {
    |x| == 3 && forall i :: 0 <= i < 3 ==> |x[i]| == 3
  }

  /** The real matrix a fraction matrix denotes. */
  function Values(m: Matrix): (x: Real3)
    requires Shape(m)
    ensures RShape(x) && forall i, j :: 0 <= i < 3 && 0 <= j < 3 ==> x[i][j] == Val(m[i][j])
  {
    seq(3, i requires 0 <= i < 3 => seq(3, j requires 0 <= j < 3 => Val(m[i][j])))
  }

  /** The determinant by the Leibniz formula: a signed sum over the six permutations. */
  function DetR(x: Real3): real
    requires RShape(x)
  {
    Leibniz(x[0][0], x[0][1], x[0][2], x[1][0], x[1][1], x[1][2], x[2][0], x[2][1], x[2][2])
  }

  /** The Leibniz formula for the matrix with rows `(a, b, c)`, `(d, e, f)`, `(g, h, i)`. */
  function Leibniz(a: real, b: real, c: real, d: real, e: real, f: real, g: real, h: real, i: real): real
  {
    a * e * i + b * f * g + c * d * h - c * e * g - b * d * i - a * f * h
  }

  /** The signed cofactor of entry `(i, j)`. For a 3×3 matrix the sign is absorbed by
      taking the remaining rows and columns in cyclic order. */
  function CofR(x: Real3, i: int, j: int): real
    requires RShape(x) && 0 <= i < 3 && 0 <= j < 3
  {
    var (i1, j1) := (Next(i), Next(j));
    var (i2, j2) := (Next(i1), Next(j1));
    x[i1][j1] * x[i2][j2] - x[i1][j2] * x[i2][j1]
  }

  /** The index after `i`, cyclically. */
  function Next(i: int): (n: int)
    requires 0 <= i < 3
    ensures 0 <= n < 3 && n != i
  {
    if i == 2 then 0 else i + 1
  }

  /** Entry `(i, j)` of the product of two real matrices. */
  function ProdR(x: Real3, y: Real3, i: int, j: int): real
    requires RShape(x) && RShape(y) && 0 <= i < 3 && 0 <= j < 3
  {
    x[i][0] * y[0][j] + x[i][1] * y[1][j] + x[i][2] * y[2][j]
  }

  /** The real dot product of two equally long fraction sequences. */
  function Dot(u: seq<Fraction>, v: seq<Fraction>): real
    requires |u| == |v|
  {
    if u == [] then 0.0 else Dot(u[..|u| - 1], v[..|v| - 1]) + Val(u[|u| - 1]) * Val(v[|v| - 1])
  }

  /** The dot product of two 3-vectors, written out. */
  lemma Dot3(u: seq<Fraction>, v: seq<Fraction>)
    requires |u| == 3 && |v| == 3
    ensures Dot(u, v) == Val(u[0]) * Val(v[0]) + Val(u[1]) * Val(v[1]) + Val(u[2]) * Val(v[2])
  {
    var (u2, v2) := (u[..2], v[..2]);
    var (u1, v1) := (u2[..1], v2[..1]);
    assert Dot(u1, v1) == Dot(u1[..0], v1[..0]) + Val(u[0]) * Val(v[0]);
    assert Dot(u2, v2) == Dot(u1, v1) + Val(u[1]) * Val(v[1]);
    assert u[..|u| - 1] == u2 && v[..|v| - 1] == v2;
  }

  /** The first-row expansion `det` computes is the Leibniz determinant. */
  lemma FirstRowExpansion(a: real, b: real, c: real, d: real, e: real, f: real, g: real, h: real, i: real,
                          c0: real, c1: real, c2: real, r: real)
    requires c0 == e * i - h * f && c1 == d * i - g * f && c2 == d * h - g * e
    requires r == a * c0 - b * c1 + c * c2
    ensures r == Leibniz(a, b, c, d, e, f, g, h, i)
  {
  }

  /** The nine entries `adjoint` writes out before transposing are the cofactors. */
  lemma CofactorForms(x: Real3)
    requires RShape(x)
    ensures CofR(x, 0, 0) == x[1][1] * x[2][2] - x[2][1] * x[1][2]
    ensures CofR(x, 0, 1) == -(x[1][0] * x[2][2] - x[2][0] * x[1][2])
    ensures CofR(x, 0, 2) == x[1][0] * x[2][1] - x[2][0] * x[1][1]
    ensures CofR(x, 1, 0) == -(x[0][1] * x[2][2] - x[2][1] * x[0][2])
    ensures CofR(x, 1, 1) == x[0][0] * x[2][2] - x[2][0] * x[0][2]
    ensures CofR(x, 1, 2) == -(x[0][0] * x[2][1] - x[2][0] * x[0][1])
    ensures CofR(x, 2, 0) == x[0][1] * x[1][2] - x[1][1] * x[0][2]
    ensures CofR(x, 2, 1) == -(x[0][0] * x[1][2] - x[1][0] * x[0][2])
    ensures CofR(x, 2, 2) == x[0][0] * x[1][1] - x[1][0] * x[0][1]
  {
  }

  /** Expanding row `i` against the cofactors of row `j` gives the determinant when
      `i == j` and zero otherwise: the matrix times its adjugate is `det · I`. */
  lemma AdjugateIdentity(x: Real3, i: int, j: int)
    requires RShape(x) && 0 <= i < 3 && 0 <= j < 3
    ensures x[i][0] * CofR(x, j, 0) + x[i][1] * CofR(x, j, 1) + x[i][2] * CofR(x, j, 2)
            == if i == j then DetR(x) else 0.0
  {
  }

  /** The determinant of the transpose is the determinant. */
  lemma DetRTranspose(x: Real3, y: Real3)
    requires RShape(x) && RShape(y)
    requires forall i, j :: 0 <= i < 3 && 0 <= j < 3 ==> y[i][j] == x[j][i]
    ensures DetR(y) == DetR(x)
  {
    assert y[0][1] == x[1][0] && y[0][2] == x[2][0] && y[1][2] == x[2][1];
    assert y[1][0] == x[0][1] && y[2][0] == x[0][2] && y[2][1] == x[1][2];
    assert y[0][0] == x[0][0] && y[1][1] == x[1][1] && y[2][2] == x[2][2];
  }

  /** `a * b - c * d`, the 2×2 minor every cofactor is made of. */
  method Minor(a: Fraction, b: Fraction, c: Fraction, d: Fraction) returns (r: Fraction)
    requires Normal(a) && Normal(b) && Normal(c) && Normal(d)
    ensures Normal(r) && Val(r) == Val(a) * Val(b) - Val(c) * Val(d)
  {
    var x := Mul(a, b);
    var y := Mul(c, d);
    r := Sub(x, y);
  }

  /** `a0 * c0 - a1 * c1 + a2 * c2`, the outer sum of the first-row expansion. */
  method Expand(a0: Fraction, a1: Fraction, a2: Fraction, c0: Fraction, c1: Fraction, c2: Fraction)
    returns (r: Fraction)
    requires Normal(a0) && Normal(a1) && Normal(a2) && Normal(c0) && Normal(c1) && Normal(c2)
    ensures Normal(r) && Val(r) == Val(a0) * Val(c0) - Val(a1) * Val(c1) + Val(a2) * Val(c2)
  {
    var t0 := Mul(a0, c0);
    var t1 := Mul(a1, c1);
    var t2 := Mul(a2, c2);
    var s := Sub(t0, t1);
    r := Add(s, t2);
  }

  /** `det`: expansion along the first row, in the order the source writes it. */
  method Det(m: Matrix) returns (r: Fraction)
    requires Valid(m)
    ensures Normal(r) && Val(r) == DetR(Values(m))
  {
    hide Val;
    var a, b, c := m[0][0], m[0][1], m[0][2];
    var d, e, f := m[1][0], m[1][1], m[1][2];
    var g, h, i := m[2][0], m[2][1], m[2][2];
    var c0 := Minor(e, i, h, f);
    var c1 := Minor(d, i, g, f);
    var c2 := Minor(d, h, g, e);
    r := Expand(a, b, c, c0, c1, c2);
    FirstRowExpansion(Val(a), Val(b), Val(c), Val(d), Val(e), Val(f), Val(g), Val(h), Val(i),
                      Val(c0), Val(c1), Val(c2), Val(r));
  }

  /** `transpose`. */
  function Transpose(m: Matrix): (r: Matrix)
    requires Shape(m)
    ensures Shape(r) && forall i, j :: 0 <= i < 3 && 0 <= j < 3 ==> r[i][j] == m[j][i]
  {
    [[m[0][0], m[1][0], m[2][0]],
     [m[0][1], m[1][1], m[2][1]],
     [m[0][2], m[1][2], m[2][2]]]
  }

  /** Transposing twice gives back the matrix. */
  lemma TransposeInvolution(m: Matrix)
    requires Shape(m)
    ensures Transpose(Transpose(m)) == m
  {
    var t := Transpose(Transpose(m));
    forall i | 0 <= i < 3
      ensures t[i] == m[i]
    {
      assert t[i][0] == m[i][0] && t[i][1] == m[i][1] && t[i][2] == m[i][2];
    }
  }

  /** Transposing keeps normality and the determinant. */
  lemma DetTranspose(m: Matrix)
    requires Valid(m)
    ensures Valid(Transpose(m)) && DetR(Values(Transpose(m))) == DetR(Values(m))
  {
    DetRTranspose(Values(m), Values(Transpose(m)));
  }

  /** `adjoint`: the matrix of signed cofactors, transposed. */
  method Adjoint(m: Matrix) returns (r: Matrix)
    requires Valid(m)
    ensures Valid(r)
    ensures forall i, j :: 0 <= i < 3 && 0 <= j < 3 ==> Val(r[i][j]) == CofR(Values(m), j, i)
  {
    hide Val, CofR, Values, Transpose;
    var a00 := Minor(m[1][1], m[2][2], m[2][1], m[1][2]);
    var a01 := Minor(m[1][0], m[2][2], m[2][0], m[1][2]);
    var a02 := Minor(m[1][0], m[2][1], m[2][0], m[1][1]);
    var a10 := Minor(m[0][1], m[2][2], m[2][1], m[0][2]);
    var a11 := Minor(m[0][0], m[2][2], m[2][0], m[0][2]);
    var a12 := Minor(m[0][0], m[2][1], m[2][0], m[0][1]);
    var a20 := Minor(m[0][1], m[1][2], m[1][1], m[0][2]);
    var a21 := Minor(m[0][0], m[1][2], m[1][0], m[0][2]);
    var a22 := Minor(m[0][0], m[1][1], m[1][0], m[0][1]);
    var c := [[a00, Neg(a01), a02], [Neg(a10), a11, Neg(a12)], [a20, Neg(a21), a22]];
    CofactorForms(Values(m));
    CofactorEntries(Values(m), c);
    r := Transpose(c);
  }

  /** Nine entries, each equal to its cofactor, make the cofactor matrix. */
  lemma CofactorEntries(x: Real3, c: Matrix)
    requires RShape(x) && Shape(c)
    requires Normal(c[0][0]) && Val(c[0][0]) == CofR(x, 0, 0)
    requires Normal(c[0][1]) && Val(c[0][1]) == CofR(x, 0, 1)
    requires Normal(c[0][2]) && Val(c[0][2]) == CofR(x, 0, 2)
    requires Normal(c[1][0]) && Val(c[1][0]) == CofR(x, 1, 0)
    requires Normal(c[1][1]) && Val(c[1][1]) == CofR(x, 1, 1)
    requires Normal(c[1][2]) && Val(c[1][2]) == CofR(x, 1, 2)
    requires Normal(c[2][0]) && Val(c[2][0]) == CofR(x, 2, 0)
    requires Normal(c[2][1]) && Val(c[2][1]) == CofR(x, 2, 1)
    requires Normal(c[2][2]) && Val(c[2][2]) == CofR(x, 2, 2)
    ensures Valid(c) && forall i, j :: 0 <= i < 3 && 0 <= j < 3 ==> Val(c[i][j]) == CofR(x, i, j)
  {
    hide Val;
  }

  /** Scalar × matrix: every entry multiplied by the scalar. */
  method Scale(f: Fraction, m: Matrix) returns (r: Matrix)
    requires Normal(f) && Valid(m)
    ensures Valid(r)
    ensures forall i, j :: 0 <= i < 3 && 0 <= j < 3 ==> Val(r[i][j]) == Val(f) * Val(m[i][j])
  {
    r := [];
    for i := 0 to 3
      invariant |r| == i
      invariant forall k :: 0 <= k < i ==> |r[k]| == 3
      invariant forall k, j :: 0 <= k < i && 0 <= j < 3 ==> Normal(r[k][j]) && Val(r[k][j]) == Val(f) * Val(m[k][j])
    {
      var row := ScaleRow(f, m[i]);
      r := r + [row];
    }
  }

  method ScaleRow(f: Fraction, row: seq<Fraction>) returns (r: seq<Fraction>)
    requires Normal(f) && forall j :: 0 <= j < |row| ==> Normal(row[j])
    ensures |r| == |row| && forall j :: 0 <= j < |row| ==> Normal(r[j]) && Val(r[j]) == Val(f) * Val(row[j])
  {
    r := [];
    for j := 0 to |row|
      invariant |r| == j
      invariant forall k :: 0 <= k < j ==> Normal(r[k]) && Val(r[k]) == Val(f) * Val(row[k])
    {
      var x := Mul(f, row[j]);
      r := r + [x];
    }
  }

  /** `inv`: no inverse when the determinant is zero; otherwise the adjugate scaled by the
      reciprocal of the determinant, which multiplied by the matrix gives the identity. */
  method Inverse(m: Matrix) returns (r: Option<Matrix>)
    requires Valid(m)
    ensures r.None? <==> DetR(Values(m)) == 0.0
    ensures r.Some? ==> Valid(r.value)
    ensures r.Some? ==> forall i, j :: 0 <= i < 3 && 0 <= j < 3 ==>
              Val(r.value[i][j]) * DetR(Values(m)) == CofR(Values(m), j, i)
    ensures r.Some? ==> forall i, j :: 0 <= i < 3 && 0 <= j < 3 ==>
              ProdR(Values(m), Values(r.value), i, j) == if i == j then 1.0 else 0.0
  {
    hide Val, CofR, DetR;
    var d := Det(m);
    Canonical(d, FromInt(0));
    ZeroIsZeroOverOne(d);
    if d == FromInt(0) {
      r := None;
    } else {
      var di := Inv(d).value;
      var adj := Adjoint(m);
      var s := Scale(di, adj);
      InverseEntries(Values(m), Values(s), Val(di));
      r := Some(s);
    }
  }

  /** The adjugate scaled by `1 / det` is a right inverse. */
  lemma InverseEntries(x: Real3, y: Real3, k: real)
    requires RShape(x) && RShape(y) && k * DetR(x) == 1.0
    requires forall i, j :: 0 <= i < 3 && 0 <= j < 3 ==> y[i][j] == k * CofR(x, j, i)
    ensures forall i, j :: 0 <= i < 3 && 0 <= j < 3 ==> y[i][j] * DetR(x) == CofR(x, j, i)
    ensures forall i, j :: 0 <= i < 3 && 0 <= j < 3 ==> ProdR(x, y, i, j) == if i == j then 1.0 else 0.0
  {
    hide CofR, DetR;
    forall i, j | 0 <= i < 3 && 0 <= j < 3
      ensures y[i][j] * DetR(x) == CofR(x, j, i)
      ensures ProdR(x, y, i, j) == if i == j then 1.0 else 0.0
    {
      Unscale(y[i][j], k, CofR(x, j, i), DetR(x));
      InverseEntry(x, y, k, i, j);
    }
  }

  /** One entry of the product of the matrix with its scaled adjugate. */
  lemma InverseEntry(x: Real3, y: Real3, k: real, i: int, j: int)
    requires RShape(x) && RShape(y) && k * DetR(x) == 1.0 && 0 <= i < 3 && 0 <= j < 3
    requires y[0][j] == k * CofR(x, j, 0) && y[1][j] == k * CofR(x, j, 1) && y[2][j] == k * CofR(x, j, 2)
    ensures ProdR(x, y, i, j) == if i == j then 1.0 else 0.0
  {
    hide CofR, DetR;
    AdjugateIdentity(x, i, j);
    ScaledSum(x[i][0], x[i][1], x[i][2], CofR(x, j, 0), CofR(x, j, 1), CofR(x, j, 2), k);
  }

  lemma Unscale(y: real, k: real, c: real, d: real)
    requires y == k * c && k * d == 1.0
    ensures y * d == c
  {
    calc {
      y * d;
      (k * c) * d;
      c * (k * d);
    }
  }

  lemma ScaledSum(a: real, b: real, c: real, u: real, v: real, w: real, k: real)
    ensures a * (k * u) + b * (k * v) + c * (k * w) == k * (a * u + b * v + c * w)
  {
  }

  /** The dot product of a row with the vector, folded with `Sum` from `0/1`. */
  method RowDot(row: seq<Fraction>, v: Vector) returns (r: Fraction)
    requires |row| == |v|
    requires forall j :: 0 <= j < |row| ==> Normal(row[j]) && Normal(v[j])
    ensures Normal(r) && Val(r) == Dot(row, v)
  {
    r := Make(0, 1);
    for j := 0 to |row|
      invariant Normal(r) && Val(r) == Dot(row[..j], v[..j])
    {
      var x := Mul(row[j], v[j]);
      assert row[..j + 1][..j] == row[..j] && v[..j + 1][..j] == v[..j];
      r := Add(r, x);
    }
    assert row[..|row|] == row && v[..|v|] == v;
  }

  /** Matrix × vector: component `i` is the dot product of row `i` with the vector. */
  method Apply(m: Matrix, v: Vector) returns (r: Vector)
    requires Valid(m) && ValidVector(v)
    ensures ValidVector(r) && forall i :: 0 <= i < 3 ==> Val(r[i]) == Dot(m[i], v)
  {
    r := [];
    for i := 0 to 3
      invariant |r| == i
      invariant forall k :: 0 <= k < i ==> Normal(r[k]) && Val(r[k]) == Dot(m[k], v)
    {
      var x := RowDot(m[i], v);
      r := r + [x];
    }
  }

  // The unit tests of `matrix.rs`.

  function Ints(rows: seq<seq<int>>): (m: Matrix)
    ensures |m| == |rows| && forall i :: 0 <= i < |rows| ==> |m[i]| == |rows[i]|
    ensures forall i, j :: 0 <= i < |rows| && 0 <= j < |rows[i]| ==> m[i][j] == FromInt(rows[i][j])
  {
    seq(|rows|, i requires 0 <= i < |rows| => seq(|rows[i]|, j requires 0 <= j < |rows[i]| => FromInt(rows[i][j])))
  }

  /** A 3×3 table of integers becomes a valid matrix denoting the same numbers. */
  lemma IntsValues(rows: seq<seq<int>>)
    requires |rows| == 3 && forall i :: 0 <= i < 3 ==> |rows[i]| == 3
    ensures Valid(Ints(rows))
    ensures forall i, j :: 0 <= i < 3 && 0 <= j < 3 ==> Values(Ints(rows))[i][j] == rows[i][j] as real
  {
  }

  const Sample := Ints([[4, 2, 1], [9, 3, 1], [16, 4, 1]])

  method DetExample() returns (d: Fraction)
    ensures d == FromInt(-2)
  {
    hide Val, Values, DetR, FromInt, Ints;
    SampleFacts();
    d := Det(Sample);
    Canonical(d, FromInt(-2));
  }

  /** The real matrix of the sample, its determinant and its cofactors. */
  lemma SampleFacts()
    ensures Values(Sample) == [[4.0, 2.0, 1.0], [9.0, 3.0, 1.0], [16.0, 4.0, 1.0]]
    ensures DetR(Values(Sample)) == -2.0
    ensures CofR(Values(Sample), 0, 0) == -1.0 && CofR(Values(Sample), 0, 1) == 7.0
    ensures CofR(Values(Sample), 0, 2) == -12.0 && CofR(Values(Sample), 1, 0) == 2.0
    ensures CofR(Values(Sample), 1, 1) == -12.0 && CofR(Values(Sample), 1, 2) == 16.0
    ensures CofR(Values(Sample), 2, 0) == -1.0 && CofR(Values(Sample), 2, 1) == 5.0
    ensures CofR(Values(Sample), 2, 2) == -6.0
  {
    hide Val, FromInt, Ints;
    var x := Values(Sample);
    assert x[0] == [4.0, 2.0, 1.0] && x[1] == [9.0, 3.0, 1.0] && x[2] == [16.0, 4.0, 1.0];
  }

  method InvExample() returns (r: Option<Matrix>)
    ensures r == Some([[Fraction(1, 2), Fraction(-1, 1), Fraction(1, 2)],
                       [Fraction(-7, 2), Fraction(6, 1), Fraction(-5, 2)],
                       [Fraction(6, 1), Fraction(-8, 1), Fraction(3, 1)]])
  {
    hide Val, Values, DetR, CofR, FromInt, Ints;
    SampleFacts();
    r := Inverse(Sample);
    var y := r.value;
    Recognize(y[0][0], 1, 2);
    Recognize(y[0][1], -1, 1);
    Recognize(y[0][2], 1, 2);
    Recognize(y[1][0], -7, 2);
    Recognize(y[1][1], 6, 1);
    Recognize(y[1][2], -5, 2);
    Recognize(y[2][0], 6, 1);
    Recognize(y[2][1], -8, 1);
    Recognize(y[2][2], 3, 1);
    assert y[0] == [Fraction(1, 2), Fraction(-1, 1), Fraction(1, 2)];
    assert y[1] == [Fraction(-7, 2), Fraction(6, 1), Fraction(-5, 2)];
    assert y[2] == [Fraction(6, 1), Fraction(-8, 1), Fraction(3, 1)];
    assert y == [y[0], y[1], y[2]];
  }

  method ApplyExample() returns (r: Vector)
    ensures r == [FromInt(68), FromInt(167), FromInt(266)]
  {
    hide Val, FromInt, Ints;
    var m := Ints([[1, 2, 3], [4, 5, 6], [7, 8, 9]]);
    var v := [FromInt(10), FromInt(11), FromInt(12)];
    r := Apply(m, v);
    Dot3(m[0], v);
    Dot3(m[1], v);
    Dot3(m[2], v);
    Recognize(r[0], 68, 1);
    Recognize(r[1], 167, 1);
    Recognize(r[2], 266, 1);
  }
}
