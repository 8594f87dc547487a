/** Determinants of 3x3 and 4x4 matrices over the reals. */
module Determinants {
  import opened Segments

  function Dot(a: Vec, b: Vec): real {
    a.x * b.x + a.y * b.y + a.z * b.z + a.w * b.w
  }

  function Negated(v: Vec): Vec {
    Vec(-v.x, -v.y, -v.z, -v.w)
  }

  function Det2(a: real, b: real, c: real, d: real): real {
    a * d - b * c
  }

  function Det3(u1: real, u2: real, u3: real, x1: real, x2: real, x3: real, y1: real, y2: real, y3: real): real {
    u1 * Det2(x2, x3, y2, y3) - u2 * Det2(x1, x3, y1, y3) + u3 * Det2(x1, x2, y1, y2)
  }

  /** The cofactors along a column when the other three are u, x, y. */
  function Cofactors(u: Vec, x: Vec, y: Vec): Vec {
    Vec(Det3(u.y, u.z, u.w, x.y, x.z, x.w, y.y, y.z, y.w),
        -Det3(u.x, u.z, u.w, x.x, x.z, x.w, y.x, y.z, y.w),
        Det3(u.x, u.y, u.w, x.x, x.y, x.w, y.x, y.y, y.w),
        -Det3(u.x, u.y, u.z, x.x, x.y, x.z, y.x, y.y, y.z))
  }

  /** The determinant with the columns v, u, x, y, along its first column. */
  function Det4(v: Vec, u: Vec, x: Vec, y: Vec): real {
    Dot(Cofactors(u, x, y), v)
  }

  lemma DotNegated(a: Vec, b: Vec)
    ensures Dot(Negated(a), b) == -Dot(a, b)
  {
  }

  // Exchanging columns.

  lemma Det3Swaps(a: real, b: real, c: real, d: real, e: real, f: real, g: real, h: real, i: real)
    ensures Det3(a, b, c, d, e, f, g, h, i) == -Det3(d, e, f, a, b, c, g, h, i)
    ensures Det3(a, b, c, d, e, f, g, h, i) == -Det3(a, b, c, g, h, i, d, e, f)
  {
  }

  lemma CofactorsSwaps(u: Vec, x: Vec, y: Vec)
    ensures Cofactors(u, x, y) == Negated(Cofactors(x, u, y)) == Negated(Cofactors(u, y, x))
  {
    Det3Swaps(u.y, u.z, u.w, x.y, x.z, x.w, y.y, y.z, y.w);
    Det3Swaps(u.x, u.z, u.w, x.x, x.z, x.w, y.x, y.z, y.w);
    Det3Swaps(u.x, u.y, u.w, x.x, x.y, x.w, y.x, y.y, y.w);
    Det3Swaps(u.x, u.y, u.z, x.x, x.y, x.z, y.x, y.y, y.z);
  }

  /** The determinant by the 2x2 minors of its last two columns. */
  function Laplace(v: Vec, u: Vec, xy: real, xz: real, xw: real, yz: real, yw: real, zw: real): real {
    (v.x * u.y - v.y * u.x) * zw - (v.x * u.z - v.z * u.x) * yw + (v.x * u.w - v.w * u.x) * yz
    + (v.y * u.z - v.z * u.y) * xw - (v.y * u.w - v.w * u.y) * xz + (v.z * u.w - v.w * u.z) * xy
  }

  lemma ByMinors(v1: real, v2: real, v3: real, v4: real, u1: real, u2: real, u3: real, u4: real,
                 x1: real, x2: real, x3: real, x4: real, y1: real, y2: real, y3: real, y4: real)
    ensures Det3(u2, u3, u4, x2, x3, x4, y2, y3, y4) * v1 + -Det3(u1, u3, u4, x1, x3, x4, y1, y3, y4) * v2
            + Det3(u1, u2, u4, x1, x2, x4, y1, y2, y4) * v3 + -Det3(u1, u2, u3, x1, x2, x3, y1, y2, y3) * v4
         == Laplace(Vec(v1, v2, v3, v4), Vec(u1, u2, u3, u4), Det2(x1, x2, y1, y2), Det2(x1, x3, y1, y3),
                    Det2(x1, x4, y1, y4),
                    Det2(x2, x3, y2, y3), Det2(x2, x4, y2, y4), Det2(x3, x4, y3, y4))
  {
  }

  lemma LaplaceSwap(v: Vec, u: Vec, xy: real, xz: real, xw: real, yz: real, yw: real, zw: real)
    ensures Laplace(v, u, xy, xz, xw, yz, yw, zw) == -Laplace(u, v, xy, xz, xw, yz, yw, zw)
    ensures Laplace(u, u, xy, xz, xw, yz, yw, zw) == 0.0
  {
  }

  lemma SwapFirst(v: Vec, u: Vec, x: Vec, y: Vec)
    ensures Det4(v, u, x, y) == -Det4(u, v, x, y)
    ensures Det4(u, u, x, y) == 0.0
  {
    ByMinors(v.x, v.y, v.z, v.w, u.x, u.y, u.z, u.w, x.x, x.y, x.z, x.w, y.x, y.y, y.z, y.w);
    ByMinors(u.x, u.y, u.z, u.w, v.x, v.y, v.z, v.w, x.x, x.y, x.z, x.w, y.x, y.y, y.z, y.w);
    ByMinors(u.x, u.y, u.z, u.w, u.x, u.y, u.z, u.w, x.x, x.y, x.z, x.w, y.x, y.y, y.z, y.w);
    LaplaceSwap(v, u, Det2(x.x, x.y, y.x, y.y), Det2(x.x, x.z, y.x, y.z), Det2(x.x, x.w, y.x, y.w),
                Det2(x.y, x.z, y.y, y.z), Det2(x.y, x.w, y.y, y.w), Det2(x.z, x.w, y.z, y.w));
  }

  lemma SwapOthers(v: Vec, u: Vec, x: Vec, y: Vec)
    ensures Det4(v, u, x, y) == -Det4(v, x, u, y)
    ensures Det4(v, u, x, y) == -Det4(v, u, y, x)
  {
    CofactorsSwaps(u, x, y);
    DotNegated(Cofactors(x, u, y), v);
    DotNegated(Cofactors(u, y, x), v);
  }

  /** A determinant with a repeated column is zero. */
  lemma Repeats(u: Vec, x: Vec, y: Vec)
    ensures Det4(u, u, x, y) == 0.0 && Det4(x, u, x, y) == 0.0 && Det4(y, u, x, y) == 0.0
  {
    SwapFirst(u, u, x, y);
    SwapOthers(x, u, x, y);
    SwapFirst(x, x, u, y);
    SwapOthers(y, u, x, y);
    SwapOthers(y, u, y, x);
    SwapFirst(y, y, u, x);
  }

  /** The columns in other orders. */
  lemma Reordered(v: Vec, u: Vec, x: Vec, y: Vec)
    ensures Det4(u, v, x, y) == -Det4(v, u, x, y)
    ensures Det4(x, y, v, u) == Det4(v, u, x, y)
    ensures Det4(y, x, v, u) == -Det4(v, u, x, y)
  {
    SwapFirst(v, u, x, y);
    SwapOthers(v, u, x, y);
    SwapFirst(v, x, u, y);
    SwapOthers(x, v, u, y);
    SwapOthers(x, v, y, u);
    SwapOthers(x, y, u, v);
    SwapFirst(x, y, v, u);
  }

  // Transposing.

  lemma Det3ByColumn(a: real, b: real, c: real, d: real, e: real, f: real, g: real, h: real, i: real)
    ensures Det3(a, b, c, d, e, f, g, h, i) == a * Det2(e, f, h, i) - d * Det2(b, c, h, i) + g * Det2(b, c, e, f)
    ensures Det3(a, b, c, d, e, f, g, h, i) == a * Det2(e, h, f, i) - d * Det2(b, h, c, i) + g * Det2(b, e, c, f)
    ensures Det3(a, b, c, d, e, f, g, h, i) == Det3(a, d, g, b, e, h, c, f, i)
  {
  }

  /** The sums over the first column v and over the first row p, with the 2x2
      minors of the rest, are the same. */
  lemma Bordered(v: Vec, p: Vec, yz: Vec, zz: Vec, wz: Vec, a: real, b: real, c: real, e: real, f: real, g: real)
    requires a == p.y * yz.x - p.z * yz.y + p.w * yz.z
    requires b == p.y * zz.x - p.z * zz.y + p.w * zz.z
    requires c == p.y * wz.x - p.z * wz.y + p.w * wz.z
    requires e == v.y * yz.x - v.z * zz.x + v.w * wz.x
    requires f == v.y * yz.y - v.z * zz.y + v.w * wz.y
    requires g == v.y * yz.z - v.z * zz.z + v.w * wz.z
    ensures -a * v.y + b * v.z + -c * v.w == -e * p.y + f * p.z + -g * p.w
  {
    assert a * v.y == (p.y * yz.x - p.z * yz.y + p.w * yz.z) * v.y;
    assert b * v.z == (p.y * zz.x - p.z * zz.y + p.w * zz.z) * v.z;
    assert c * v.w == (p.y * wz.x - p.z * wz.y + p.w * wz.z) * v.w;
    assert e * p.y == (v.y * yz.x - v.z * zz.x + v.w * wz.x) * p.y;
    assert f * p.z == (v.y * yz.y - v.z * zz.y + v.w * wz.y) * p.z;
    assert g * p.w == (v.y * yz.z - v.z * zz.z + v.w * wz.z) * p.w;
  }

  lemma DetTransposed(v: Vec, u: Vec, x: Vec, y: Vec, p: Vec, q: Vec, r: Vec, s: Vec)
    requires p == Vec(v.x, u.x, x.x, y.x) && q == Vec(v.y, u.y, x.y, y.y) && r == Vec(v.z, u.z, x.z, y.z)
             && s == Vec(v.w, u.w, x.w, y.w)
    ensures Det4(v, u, x, y) == Det4(p, q, r, s)
  {
    Det3ByColumn(u.y, u.z, u.w, x.y, x.z, x.w, y.y, y.z, y.w);
    Det3ByColumn(u.x, u.z, u.w, x.x, x.z, x.w, y.x, y.z, y.w);
    Det3ByColumn(u.x, u.y, u.w, x.x, x.y, x.w, y.x, y.y, y.w);
    Det3ByColumn(u.x, u.y, u.z, x.x, x.y, x.z, y.x, y.y, y.z);
    Det3ByColumn(v.y, x.y, y.y, v.z, x.z, y.z, v.w, x.w, y.w);
    Det3ByColumn(v.y, u.y, y.y, v.z, u.z, y.z, v.w, u.w, y.w);
    Det3ByColumn(v.y, u.y, x.y, v.z, u.z, x.z, v.w, u.w, x.w);
    var yz := Vec(Det2(x.z, x.w, y.z, y.w), Det2(u.z, u.w, y.z, y.w), Det2(u.z, u.w, x.z, x.w), 0.0);
    var zz := Vec(Det2(x.y, x.w, y.y, y.w), Det2(u.y, u.w, y.y, y.w), Det2(u.y, u.w, x.y, x.w), 0.0);
    var wz := Vec(Det2(x.y, x.z, y.y, y.z), Det2(u.y, u.z, y.y, y.z), Det2(u.y, u.z, x.y, x.z), 0.0);
    Bordered(v, p, yz, zz, wz, -Cofactors(u, x, y).y, Cofactors(u, x, y).z, -Cofactors(u, x, y).w,
             -Cofactors(q, r, s).y, Cofactors(q, r, s).z, -Cofactors(q, r, s).w);
    assert Cofactors(u, x, y).x == Cofactors(q, r, s).x;
  }
}

/** Inverting a 4x4 matrix through cofactors. A matrix is its 16 entries, row by row. */
module GizmoMatrix {
  import opened Segments
  import opened Determinants
  import opened GizmoFrustum

  /** Row r of m. */
  function Row(m: seq<real>, r: nat): Vec
    requires |m| == 16 && r < 4
  {
    Vec(m[4 * r], m[4 * r + 1], m[4 * r + 2], m[4 * r + 3])
  }

  /** Entry (r, c) of the product. */
  function Entry(a: seq<real>, b: seq<real>, r: nat, c: nat): real
    requires |a| == 16 && |b| == 16 && r < 4 && c < 4
  {
    Dot(Row(a, r), Column(b, c))
  }

  ghost predicate IsIdentity(a: seq<real>, b: seq<real>)
    requires |a| == 16 && |b| == 16
  {
    forall r, c :: 0 <= r < 4 && 0 <= c < 4 ==> Entry(a, b, r, c) == if r == c then 1.0 else 0.0
  }

  function Determinant(m: seq<real>): real
    requires |m| == 16
  {
    Det4(Column(m, 0), Column(m, 1), Column(m, 2), Column(m, 3))
  }

  /** Row k of the adjugate of the matrix with the columns v, u, x, y. */
  function Adjugate(v: Vec, u: Vec, x: Vec, y: Vec, k: nat): Vec
    requires k < 4
  {
    match k
    case 0 => Cofactors(u, x, y)
    case 1 => Negated(Cofactors(v, x, y))
    case 2 => Cofactors(y, v, u)
    case 3 => Negated(Cofactors(x, v, u))
  }

  function Pick(v: Vec, u: Vec, x: Vec, y: Vec, j: nat): Vec
    requires j < 4
  {
    match j
    case 0 => v
    case 1 => u
    case 2 => x
    case 3 => y
  }

  lemma AdjugateDot(v: Vec, u: Vec, x: Vec, y: Vec, k: nat, j: nat)
    requires k < 4 && j < 4
    ensures Dot(Adjugate(v, u, x, y, k), Pick(v, u, x, y, j)) == if k == j then Det4(v, u, x, y) else 0.0
  {
    var q := Pick(v, u, x, y, j);
    match k
    case 0 =>
      Repeats(u, x, y);
    case 1 =>
      DotNegated(Cofactors(v, x, y), q);
      Repeats(v, x, y);
      Reordered(v, u, x, y);
    case 2 =>
      Repeats(y, v, u);
      Reordered(v, u, x, y);
    case 3 =>
      DotNegated(Cofactors(x, v, u), q);
      Repeats(x, v, u);
      Reordered(v, u, x, y);
  }

  /** The matrix with the columns v, u, x, y has the rows p, q, r, s. */
  predicate Transposes(v: Vec, u: Vec, x: Vec, y: Vec, p: Vec, q: Vec, r: Vec, s: Vec) {
    p == Vec(v.x, u.x, x.x, y.x) && q == Vec(v.y, u.y, x.y, y.y) && r == Vec(v.z, u.z, x.z, y.z)
      && s == Vec(v.w, u.w, x.w, y.w)
  }

  /** The minors of three rows, over the four choices of three columns. */
  lemma MinorsTransposed(v1: real, v2: real, v3: real, u1: real, u2: real, u3: real,
                         x1: real, x2: real, x3: real, y1: real, y2: real, y3: real)
    ensures Det3(u1, u2, u3, x1, x2, x3, y1, y2, y3) == Det3(u1, x1, y1, u2, x2, y2, u3, x3, y3)
    ensures Det3(v1, v2, v3, x1, x2, x3, y1, y2, y3) == Det3(v1, x1, y1, v2, x2, y2, v3, x3, y3)
    ensures Det3(v1, v2, v3, u1, u2, u3, y1, y2, y3) == Det3(v1, u1, y1, v2, u2, y2, v3, u3, y3)
    ensures Det3(v1, v2, v3, u1, u2, u3, x1, x2, x3) == Det3(v1, u1, x1, v2, u2, x2, v3, u3, x3)
  {
    Det3ByColumn(u1, u2, u3, x1, x2, x3, y1, y2, y3);
    Det3ByColumn(v1, v2, v3, x1, x2, x3, y1, y2, y3);
    Det3ByColumn(v1, v2, v3, u1, u2, u3, y1, y2, y3);
    Det3ByColumn(v1, v2, v3, u1, u2, u3, x1, x2, x3);
  }

  lemma Rotated(u: Vec, x: Vec, y: Vec)
    ensures Cofactors(y, u, x) == Cofactors(u, x, y)
  {
    CofactorsSwaps(y, u, x);
    CofactorsSwaps(u, y, x);
  }

  lemma AdjugateTransposed(v: Vec, u: Vec, x: Vec, y: Vec, p: Vec, q: Vec, r: Vec, s: Vec)
    requires Transposes(v, u, x, y, p, q, r, s)
    ensures Transposes(Adjugate(v, u, x, y, 0), Adjugate(v, u, x, y, 1), Adjugate(v, u, x, y, 2),
                       Adjugate(v, u, x, y, 3),
                       Adjugate(p, q, r, s, 0), Adjugate(p, q, r, s, 1), Adjugate(p, q, r, s, 2),
                         Adjugate(p, q, r, s, 3))
  {
    Rotated(v, u, y);
    Rotated(v, u, x);
    Rotated(p, q, s);
    Rotated(p, q, r);
    MinorsTransposed(v.y, v.z, v.w, u.y, u.z, u.w, x.y, x.z, x.w, y.y, y.z, y.w);
    MinorsTransposed(v.x, v.z, v.w, u.x, u.z, u.w, x.x, x.z, x.w, y.x, y.z, y.w);
    MinorsTransposed(v.x, v.y, v.w, u.x, u.y, u.w, x.x, x.y, x.w, y.x, y.y, y.w);
    MinorsTransposed(v.x, v.y, v.z, u.x, u.y, u.z, x.x, x.y, x.z, y.x, y.y, y.z);
  }

  // The inverse.

  /** Row r of the adjugate of m. */
  function AdjugateRow(m: seq<real>, r: nat): Vec
    requires |m| == 16 && r < 4
  {
    Adjugate(Column(m, 0), Column(m, 1), Column(m, 2), Column(m, 3), r)
  }

  lemma DotScaled(a: Vec, b: Vec, k: real)
    ensures Dot(Scaled(a, k), b) == k * Dot(a, b)
    ensures Dot(a, b) == Dot(b, a)
  {
  }

  ghost predicate IsScaledAdjugate(m: seq<real>, inv: seq<real>, k: real)
    requires |m| == 16 && |inv| == 16
  {
    forall r :: 0 <= r < 4 ==> Row(inv, r) == Scaled(AdjugateRow(m, r), k)
  }

  lemma LeftInverse(m: seq<real>, inv: seq<real>, k: real)
    requires |m| == 16 && |inv| == 16 && IsScaledAdjugate(m, inv, k) && k * Determinant(m) == 1.0
    ensures IsIdentity(inv, m)
  {
    forall r, c | 0 <= r < 4 && 0 <= c < 4
      ensures Entry(inv, m, r, c) == if r == c then 1.0 else 0.0
    {
      ScaledEntry(Column(m, 0), Column(m, 1), Column(m, 2), Column(m, 3), k, r, c);
    }
  }

  /** A scaled row of the adjugate times a column, either way round. */
  lemma ScaledEntry(v: Vec, u: Vec, x: Vec, y: Vec, k: real, r: nat, c: nat)
    requires r < 4 && c < 4 && k * Det4(v, u, x, y) == 1.0
    ensures Dot(Scaled(Adjugate(v, u, x, y, r), k), Pick(v, u, x, y, c)) == if r == c then 1.0 else 0.0
    ensures Dot(Pick(v, u, x, y, c), Scaled(Adjugate(v, u, x, y, r), k)) == if r == c then 1.0 else 0.0
  {
    var a, b := Adjugate(v, u, x, y, r), Pick(v, u, x, y, c);
    AdjugateDot(v, u, x, y, r, c);
    DotScaled(a, b, k);
    DotScaled(Scaled(a, k), b, k);
  }

  lemma ScaledTransposed(v: Vec, u: Vec, x: Vec, y: Vec, p: Vec, q: Vec, r: Vec, s: Vec, k: real)
    requires Transposes(v, u, x, y, p, q, r, s)
    ensures Transposes(Scaled(v, k), Scaled(u, k), Scaled(x, k), Scaled(y, k),
                       Scaled(p, k), Scaled(q, k), Scaled(r, k), Scaled(s, k))
  {
  }

  /** The columns of the inverse, from the rows of m. */
  lemma InverseColumn(m: seq<real>, inv: seq<real>, k: real, c: nat)
    requires |m| == 16 && |inv| == 16 && IsScaledAdjugate(m, inv, k) && c < 4
    ensures Column(inv, c) == Scaled(Adjugate(Row(m, 0), Row(m, 1), Row(m, 2), Row(m, 3), c), k)
  {
    var r0, r1, r2, r3 := Row(m, 0), Row(m, 1), Row(m, 2), Row(m, 3);
    AdjugateTransposed(Column(m, 0), Column(m, 1), Column(m, 2), Column(m, 3), r0, r1, r2, r3);
    ScaledTransposed(AdjugateRow(m, 0), AdjugateRow(m, 1), AdjugateRow(m, 2), AdjugateRow(m, 3),
                     Adjugate(r0, r1, r2, r3, 0), Adjugate(r0, r1, r2, r3, 1), Adjugate(r0, r1, r2, r3, 2),
                       Adjugate(r0, r1, r2, r3, 3), k);
    assert Transposes(Row(inv, 0), Row(inv, 1), Row(inv, 2), Row(inv, 3), Column(inv, 0), Column(inv, 1),
                      Column(inv, 2), Column(inv, 3));
  }

  lemma RightInverse(m: seq<real>, inv: seq<real>, k: real)
    requires |m| == 16 && |inv| == 16 && IsScaledAdjugate(m, inv, k) && k * Determinant(m) == 1.0
    ensures IsIdentity(m, inv)
  {
    DetTransposed(Column(m, 0), Column(m, 1), Column(m, 2), Column(m, 3), Row(m, 0), Row(m, 1), Row(m, 2), Row(m, 3));
    forall r, c | 0 <= r < 4 && 0 <= c < 4
      ensures Entry(m, inv, r, c) == if r == c then 1.0 else 0.0
    {
      InverseColumn(m, inv, k, c);
      ScaledEntry(Row(m, 0), Row(m, 1), Row(m, 2), Row(m, 3), k, c, r);
    }
  }

  /** The unit matrix has determinant 1. */
  lemma UnitDeterminant(m: seq<real>)
    requires m == [1.0, 0.0, 0.0, 0.0, 0.0, 1.0, 0.0, 0.0, 0.0, 0.0, 1.0, 0.0, 0.0, 0.0, 0.0, 1.0]
    ensures Determinant(m) == 1.0
  {
    assert Column(m, 1) == Vec(0.0, 1.0, 0.0, 0.0) && Column(m, 2) == Vec(0.0, 0.0, 1.0, 0.0);
    assert Column(m, 0) == Vec(1.0, 0.0, 0.0, 0.0) && Column(m, 3) == Vec(0.0, 0.0, 0.0, 1.0);
  }

  /** The matrix product, one row after the other. */
  method MatrixProduct(a: array<real>, b: array<real>, r: array<real>)
    requires a.Length == 16 && b.Length == 16 && r.Length == 16 && r != a && r != b
    modifies r
    ensures forall i :: 0 <= i < 4 ==> Row(r[..], i) == ProductRow(a[..], b[..], i)
  {
    for i := 0 to 4
      invariant forall k :: 0 <= k < i ==> Row(r[..], k) == ProductRow(a[..], b[..], k)
    {
      WriteRow(a, b, r, i);
    }
  }

  function ProductRow(a: seq<real>, b: seq<real>, i: nat): Vec
    requires |a| == 16 && |b| == 16 && i < 4
  {
    Vec(Entry(a, b, i, 0), Entry(a, b, i, 1), Entry(a, b, i, 2), Entry(a, b, i, 3))
  }

  method WriteRow(a: array<real>, b: array<real>, r: array<real>, i: nat)
    requires a.Length == 16 && b.Length == 16 && r.Length == 16 && r != a && r != b && i < 4
    modifies r
    ensures Row(r[..], i) == ProductRow(a[..], b[..], i)
    ensures forall k :: 0 <= k < 4 && k != i ==> Row(r[..], k) == old(Row(r[..], k))
  {
    var p, q, s, t := a[4 * i], a[4 * i + 1], a[4 * i + 2], a[4 * i + 3];
    r[4 * i] := p * b[0] + q * b[4] + s * b[8] + t * b[12];
    r[4 * i + 1] := p * b[1] + q * b[5] + s * b[9] + t * b[13];
    r[4 * i + 2] := p * b[2] + q * b[6] + s * b[10] + t * b[14];
    r[4 * i + 3] := p * b[3] + q * b[7] + s * b[11] + t * b[15];
  }

  /** Entries at .. at+3 of a matrix. */
  function Four(s: seq<real>, at: nat): Vec
    requires at + 4 <= |s|
  {
    Vec(s[at], s[at + 1], s[at + 2], s[at + 3])
  }

  /** The products of pairs of entries of x and y that their cofactors share. */
  predicate ArePairs(t: seq<real>, x: Vec, y: Vec) {
    && |t| == 12
    && t[0] == x.z * y.w && t[1] == x.w * y.z && t[2] == x.y * y.w && t[3] == x.w * y.y
    && t[4] == x.y * y.z && t[5] == x.z * y.y && t[6] == x.x * y.w && t[7] == x.w * y.x
    && t[8] == x.x * y.z && t[9] == x.z * y.x && t[10] == x.x * y.y && t[11] == x.y * y.x
  }

  method Pairs(src: array<real>, at: nat, tmp: array<real>)
    requires src.Length == 16 && at + 8 <= 16 && tmp.Length == 12 && src != tmp
    modifies tmp
    ensures ArePairs(tmp[..], Four(src[..], at), Four(src[..], at + 4))
  {
    tmp[0] := src[at + 2] * src[at + 7];
    tmp[1] := src[at + 3] * src[at + 6];
    tmp[2] := src[at + 1] * src[at + 7];
    tmp[3] := src[at + 3] * src[at + 5];
    tmp[4] := src[at + 1] * src[at + 6];
    tmp[5] := src[at + 2] * src[at + 5];
    tmp[6] := src[at] * src[at + 7];
    tmp[7] := src[at + 3] * src[at + 4];
    tmp[8] := src[at] * src[at + 6];
    tmp[9] := src[at + 2] * src[at + 4];
    tmp[10] := src[at] * src[at + 5];
    tmp[11] := src[at + 1] * src[at + 4];
  }

  /** What the code adds up for four cofactors, from the pairs of x and y. */
  function Sums(t: seq<real>, u: Vec): Vec
    requires |t| == 12
  {
    Vec((t[0] * u.y + t[3] * u.z + t[4] * u.w) - (t[1] * u.y + t[2] * u.z + t[5] * u.w),
        (t[1] * u.x + t[6] * u.z + t[9] * u.w) - (t[0] * u.x + t[7] * u.z + t[8] * u.w),
        (t[2] * u.x + t[7] * u.y + t[10] * u.w) - (t[3] * u.x + t[6] * u.y + t[11] * u.w),
        (t[5] * u.x + t[8] * u.y + t[11] * u.z) - (t[4] * u.x + t[9] * u.y + t[10] * u.z))
  }

  lemma SumsAreCofactors(t: seq<real>, x: Vec, y: Vec, u: Vec)
    requires ArePairs(t, x, y)
    ensures Sums(t, u) == Cofactors(u, x, y)
  {
  }

  method PlusRow(m16: array<real>, out: nat, tmp: array<real>, src: array<real>, at: nat)
    requires m16.Length == 16 && src.Length == 16 && tmp.Length == 12 && m16 != src && m16 != tmp
    requires out + 4 <= 16 && at + 4 <= 16
    modifies m16
    ensures Four(m16[..], out) == Sums(tmp[..], Four(src[..], at))
    ensures forall i :: 0 <= i < 16 && !(out <= i < out + 4) ==> m16[i] == old(m16[i])
  {
    var sx, sy, sz, sw := src[at], src[at + 1], src[at + 2], src[at + 3];
    m16[out] := (tmp[0] * sy + tmp[3] * sz + tmp[4] * sw) - (tmp[1] * sy + tmp[2] * sz + tmp[5] * sw);
    m16[out + 1] := (tmp[1] * sx + tmp[6] * sz + tmp[9] * sw) - (tmp[0] * sx + tmp[7] * sz + tmp[8] * sw);
    m16[out + 2] := (tmp[2] * sx + tmp[7] * sy + tmp[10] * sw) - (tmp[3] * sx + tmp[6] * sy + tmp[11] * sw);
    m16[out + 3] := (tmp[5] * sx + tmp[8] * sy + tmp[11] * sz) - (tmp[4] * sx + tmp[9] * sy + tmp[10] * sz);
  }

  method MinusRow(m16: array<real>, out: nat, tmp: array<real>, src: array<real>, at: nat)
    requires m16.Length == 16 && src.Length == 16 && tmp.Length == 12 && m16 != src && m16 != tmp
    requires out + 4 <= 16 && at + 4 <= 16
    modifies m16
    ensures Four(m16[..], out) == Negated(Sums(tmp[..], Four(src[..], at)))
    ensures forall i :: 0 <= i < 16 && !(out <= i < out + 4) ==> m16[i] == old(m16[i])
  {
    var sx, sy, sz, sw := src[at], src[at + 1], src[at + 2], src[at + 3];
    m16[out] := (tmp[1] * sy + tmp[2] * sz + tmp[5] * sw) - (tmp[0] * sy + tmp[3] * sz + tmp[4] * sw);
    m16[out + 1] := (tmp[0] * sx + tmp[7] * sz + tmp[8] * sw) - (tmp[1] * sx + tmp[6] * sz + tmp[9] * sw);
    m16[out + 2] := (tmp[3] * sx + tmp[6] * sy + tmp[11] * sw) - (tmp[2] * sx + tmp[7] * sy + tmp[10] * sw);
    m16[out + 3] := (tmp[4] * sx + tmp[9] * sy + tmp[10] * sz) - (tmp[5] * sx + tmp[8] * sy + tmp[11] * sz);
  }

  method Transposed4(m: array<real>) returns (src: array<real>)
    requires m.Length == 16
    ensures fresh(src) && src.Length == 16
    ensures Four(src[..], 0) == Column(m[..], 0) && Four(src[..], 4) == Column(m[..], 1)
    ensures Four(src[..], 8) == Column(m[..], 2) && Four(src[..], 12) == Column(m[..], 3)
  {
    src := new real[16];
    for i := 0 to 4
      invariant forall k :: 0 <= k < i ==> src[k] == m[4 * k]
      invariant forall k :: 4 <= k < i + 4 ==> src[k] == m[4 * (k - 4) + 1]
      invariant forall k :: 8 <= k < i + 8 ==> src[k] == m[4 * (k - 8) + 2]
      invariant forall k :: 12 <= k < i + 12 ==> src[k] == m[4 * (k - 12) + 3]
    {
      src[i] := m[i * 4];
      src[i + 4] := m[i * 4 + 1];
      src[i + 8] := m[i * 4 + 2];
      src[i + 12] := m[i * 4 + 3];
    }
  }

  /** Two rows of the adjugate: those for the columns from `at` on, whose
      cofactors share the pairs of the two columns from `pairs` on. */
  method TwoRows(m16: array<real>, row: nat, tmp: array<real>, src: array<real>, pairs: nat, plus: nat, minus: nat)
    requires m16.Length == 16 && src.Length == 16 && tmp.Length == 12 && m16 != src && m16 != tmp && src != tmp
    requires row <= 2 && pairs <= 8 && plus <= 12 && minus <= 12
    modifies m16, tmp
    ensures Row(m16[..], row) == Cofactors(Four(src[..], plus), Four(src[..], pairs), Four(src[..], pairs + 4))
    ensures Row(m16[..], row + 1)
            == Negated(Cofactors(Four(src[..], minus), Four(src[..], pairs), Four(src[..], pairs + 4)))
    ensures forall r :: 0 <= r < 4 && r != row && r != row + 1 ==> Row(m16[..], r) == old(Row(m16[..], r))
  {
    Pairs(src, pairs, tmp);
    ghost var t, s := tmp[..], src[..];
    PlusRow(m16, 4 * row, tmp, src, plus);
    SumsAreCofactors(t, Four(s, pairs), Four(s, pairs + 4), Four(s, plus));
    MinusRow(m16, 4 * row + 4, tmp, src, minus);
    SumsAreCofactors(t, Four(s, pairs), Four(s, pairs + 4), Four(s, minus));
  }

  /** Write the adjugate of srcMatrix to m16. */
  method WriteAdjugate(srcMatrix: array<real>, m16: array<real>) returns (det: real)
    requires srcMatrix.Length == 16 && m16.Length == 16
    modifies m16
    ensures IsScaledAdjugate(old(srcMatrix[..]), m16[..], 1.0) && det == Determinant(old(srcMatrix[..]))
  {
    ghost var m := srcMatrix[..];
    var src := Transposed4(srcMatrix);
    ghost var s := src[..];
    var tmp := new real[12];
    TwoRows(m16, 0, tmp, src, 8, 4, 0);
    TwoRows(m16, 2, tmp, src, 0, 12, 8);
    ghost var adjugate := m16[..];
    assert Row(adjugate, 0) == AdjugateRow(m, 0) && Row(adjugate, 1) == AdjugateRow(m, 1);
    assert Row(adjugate, 2) == AdjugateRow(m, 2) && Row(adjugate, 3) == AdjugateRow(m, 3);
    det := src[0] * m16[0] + src[1] * m16[1] + src[2] * m16[2] + src[3] * m16[3];
    assert det == Dot(AdjugateRow(m, 0), Column(m, 0));
    ScaledByOne(m, adjugate);
  }

  lemma ScaledByOne(m: seq<real>, adjugate: seq<real>)
    requires |m| == 16 && |adjugate| == 16
    requires Row(adjugate, 0) == AdjugateRow(m, 0) && Row(adjugate, 1) == AdjugateRow(m, 1)
    requires Row(adjugate, 2) == AdjugateRow(m, 2) && Row(adjugate, 3) == AdjugateRow(m, 3)
    ensures IsScaledAdjugate(m, adjugate, 1.0)
  {
    forall r | 0 <= r < 4
      ensures Row(adjugate, r) == Scaled(AdjugateRow(m, r), 1.0)
    {
      assert Row(adjugate, r) == AdjugateRow(m, r);
    }
  }

  method ScaleAll(m16: array<real>, k: real)
    requires m16.Length == 16
    modifies m16
    ensures forall r :: 0 <= r < 4 ==> Row(m16[..], r) == Scaled(old(Row(m16[..], r)), k)
  {
    for j := 0 to 16
      invariant forall i :: 0 <= i < j ==> m16[i] == old(m16[i]) * k
      invariant forall i :: j <= i < 16 ==> m16[i] == old(m16[i])
    {
      m16[j] := m16[j] * k;
    }
  }

  /** The inverse of a matrix whose determinant is not zero, and the determinant;
      m16 may be the source itself. */
  method Inverse(srcMatrix: array<real>, m16: array<real>) returns (det: real)
    requires srcMatrix.Length == 16 && m16.Length == 16 && Determinant(srcMatrix[..]) != 0.0
    modifies m16
    ensures det == Determinant(old(srcMatrix[..]))
    ensures IsIdentity(m16[..], old(srcMatrix[..])) && IsIdentity(old(srcMatrix[..]), m16[..])
  {
    ghost var m := srcMatrix[..];
    det := WriteAdjugate(srcMatrix, m16);
    ghost var adjugate := m16[..];
    var invdet := 1.0 / det;
    ScaleAll(m16, invdet);
    Rescaled(m, adjugate, m16[..], invdet);
    LeftInverse(m, m16[..], invdet);
    RightInverse(m, m16[..], invdet);
  }

  lemma Rescaled(m: seq<real>, adjugate: seq<real>, inv: seq<real>, k: real)
    requires |m| == 16 && |adjugate| == 16 && |inv| == 16 && IsScaledAdjugate(m, adjugate, 1.0)
    requires forall r :: 0 <= r < 4 ==> Row(inv, r) == Scaled(Row(adjugate, r), k)
    ensures IsScaledAdjugate(m, inv, k)
  {
    forall r | 0 <= r < 4
      ensures Row(inv, r) == Scaled(AdjugateRow(m, r), k)
    {
      assert Row(adjugate, r) == Scaled(AdjugateRow(m, r), 1.0);
      ScaledOnce(AdjugateRow(m, r));
    }
  }

  lemma ScaledOnce(v: Vec)
    ensures Scaled(v, 1.0) == v
  {
  }
}
