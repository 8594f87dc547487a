/** The lines of the grid: cut in the grid's own space by the planes of the view and
    projection, and drawn with the grid's matrix multiplied in. */
module GizmoGrid {
  import opened Segments
  import opened GizmoClip
  import opened GizmoFrustum
  import opened GizmoMatrix
  import opened Determinants

  ghost predicate IsProduct(r: seq<real>, a: seq<real>, b: seq<real>)
    requires |r| == |a| == |b| == 16
  {
    forall i :: 0 <= i < 4 ==> Row(r, i) == ProductRow(a, b, i)
  }

  /** The end of a line of the grid: lines across are at z == f, the others at x == f. */
  function End(across: bool, at: real, f: real): Vec {
    if across then Vec(at, 0.0, f, 0.0) else Vec(f, 0.0, at, 0.0)
  }

  /** A line as it is drawn: whether it is visible, the ends kept of it, and these as
      transformed for drawing. */
  datatype Line = Line(visible: bool, kept: (Vec, Vec), from: Vec, to: Vec)

  /** Of the line at f of a grid that reaches g to all sides, what is kept is what the
      matrix shows. */
  ghost predicate Fits(g: real, f: real, across: bool, m: seq<real>, line: Line)
    requires |m| == 16
  {
    Shown(End(across, -g, f), End(across, g, f), m, line.visible, line.kept.0, line.kept.1)
  }

  ghost predicate Drawn(line: Line, res: seq<real>)
    requires |res| == 16
  {
    line.from == Transformed(line.kept.0, res) && line.to == Transformed(line.kept.1, res)
  }

  /** One line of the grid. */
  method GridLine(gridSize: real, f: real, across: bool, frustum: array<VecT>, res: array<real>, ghost m: seq<real>)
      returns (line: Line)
    requires |m| == 16 && res.Length == 16 && AreViewPlanes(Planes(frustum), m)
    ensures Fits(gridSize, f, across, m, line) && Drawn(line, res[..])
  {
    ghost var r := res[..];
    var visible, ptA, ptB := CutLine(End(across, -gridSize, f), End(across, gridSize, f), frustum, m);
    var kept := (ptA.Value(), ptB.Value());
    TransformPoint(ptA, res);
    TransformPoint(ptB, res);
    assert res[..] == r;
    line := Line(visible, kept, ptA.Value(), ptB.Value());
  }

  /** Line number k in one direction. */
  function At(gridSize: real, k: nat): real {
    -gridSize + k as real
  }

  /** The two lines at each of the first n steps, kept for m and drawn with res. */
  ghost predicate FirstLines(gridSize: real, m: seq<real>, res: seq<real>, lines: seq<Line>, n: nat)
    requires |m| == |res| == 16
  {
    && |lines| == 2 * n
    && (forall k: nat :: k < n ==> Fits(gridSize, At(gridSize, k), false, m, lines[2 * k]))
    && (forall k: nat :: k < n ==> Fits(gridSize, At(gridSize, k), true, m, lines[2 * k + 1]))
    && forall i :: 0 <= i < |lines| ==> Drawn(lines[i], res)
  }

  lemma TwoMore(gridSize: real, m: seq<real>, res: seq<real>, lines: seq<Line>, n: nat, first: Line, second: Line)
    requires |m| == |res| == 16 && FirstLines(gridSize, m, res, lines, n)
    requires Fits(gridSize, At(gridSize, n), false, m, first) && Drawn(first, res)
    requires Fits(gridSize, At(gridSize, n), true, m, second) && Drawn(second, res)
    ensures FirstLines(gridSize, m, res, lines + [first, second], n + 1)
  {
    var more := lines + [first, second];
    assert forall k: nat :: k < n ==> more[2 * k] == lines[2 * k] && more[2 * k + 1] == lines[2 * k + 1];
    assert more[2 * n] == first && more[2 * n + 1] == second;
  }

  /** At f there are two lines, number n of either direction: one to the points
      (f, 0, z), the other to the points (x, 0, f). */
  ghost predicate TwoLinesAt(g: real, f: real, n: nat, m: seq<real>, lines: seq<Line>)
    requires |m| == 16
  {
    && 2 * n + 1 < |lines|
    && Shown(Vec(f, 0.0, -g, 0.0), Vec(f, 0.0, g, 0.0), m, lines[2 * n].visible, lines[2 * n].kept.0,
             lines[2 * n].kept.1)
    && Shown(Vec(-g, 0.0, f, 0.0), Vec(g, 0.0, f, 0.0), m, lines[2 * n + 1].visible, lines[2 * n + 1].kept.0,
             lines[2 * n + 1].kept.1)
  }

  /** The lines of a grid that reaches g to all sides: two at every whole step. */
  ghost predicate GridLines(g: real, m: seq<real>, lines: seq<Line>)
    requires |m| == 16
  {
    && |lines| == (if g < 0.0 then 0 else 2 * ((2.0 * g).Floor + 1))
    && forall f: real, n: nat :: f == n as real - g && f <= g ==> TwoLinesAt(g, f, n, m, lines)
  }

  lemma Steps(g: real, n: nat)
    requires forall k: nat :: At(g, k) <= g <==> k < n
    ensures n == if g < 0.0 then 0 else (2.0 * g).Floor + 1
  {
    if g >= 0.0 {
      var k := (2.0 * g).Floor;
      assert At(g, k) <= g && !(At(g, k + 1) <= g);
      assert k < n && !(k + 1 < n);
    } else {
      assert !(At(g, 0) <= g);
    }
  }

  lemma FirstAreAll(g: real, m: seq<real>, res: seq<real>, lines: seq<Line>, n: nat)
    requires |m| == |res| == 16 && FirstLines(g, m, res, lines, n)
    requires forall k: nat :: At(g, k) <= g <==> k < n
    ensures GridLines(g, m, lines)
  {
    Steps(g, n);
    forall f: real, k: nat | f == k as real - g && f <= g
      ensures TwoLinesAt(g, f, k, m, lines)
    {
      assert At(g, k) == f;
      assert Fits(g, At(g, k), false, m, lines[2 * k]) && Fits(g, At(g, k), true, m, lines[2 * k + 1]);
    }
  }

  /** The grid: two lines at every whole step from one side to the other. */
  method DrawGrid(gridSize: real, matrix: array<real>, viewProjection: array<real>, lengths: seq<real>)
      returns (lines: seq<Line>, res: seq<real>)
    requires matrix.Length == 16 && viewProjection.Length == 16 && |lengths| == 6
    ensures |res| == 16 && IsProduct(res, matrix[..], viewProjection[..])
    ensures GridLines(gridSize, viewProjection[..], lines)
    ensures forall i :: 0 <= i < |lines| ==> Drawn(lines[i], res)
  {
    var frustum := NewFrustum();
    ComputeFrustumPlanes(frustum, viewProjection, lengths);
    var product := new real[16];
    MatrixProduct(matrix, viewProjection, product);
    res := product[..];
    ghost var n;
    lines, n := DrawLines(gridSize, frustum, product, viewProjection[..]);
    FirstAreAll(gridSize, viewProjection[..], res, lines, n);
  }

  method DrawLines(gridSize: real, frustum: array<VecT>, res: array<real>, ghost m: seq<real>)
      returns (lines: seq<Line>, ghost n: nat)
    requires |m| == 16 && res.Length == 16 && AreViewPlanes(Planes(frustum), m)
    ensures FirstLines(gridSize, m, res[..], lines, n)
    ensures forall k: nat :: At(gridSize, k) <= gridSize <==> k < n
  {
    lines, n := [], 0;
    var f := -gridSize;
    while f <= gridSize
      invariant f == At(gridSize, n) && (n > 0 ==> At(gridSize, n - 1) <= gridSize)
      invariant FirstLines(gridSize, m, res[..], lines, n)
      decreases gridSize - f
    {
      var first := GridLine(gridSize, f, false, frustum, res, m);
      var second := GridLine(gridSize, f, true, frustum, res, m);
      TwoMore(gridSize, m, res[..], lines, n, first, second);
      lines := lines + [first, second];
      f, n := f + 1.0, n + 1;
    }
  }

  /** The two matrices take the same points of the grid's plane to clip space. */
  ghost predicate SamePlaneView(m: seq<real>, m': seq<real>)
    requires |m| == |m'| == 16
  {
    forall x, z :: InClipSpace(Transformed(Vec(x, 0.0, z, 0.0), m))
        <==> InClipSpace(Transformed(Vec(x, 0.0, z, 0.0), m'))
  }

  /** Whatever is kept of the grids' lines for m is right for m'. */
  ghost predicate AllFit(m: seq<real>, m': seq<real>)
    requires |m| == |m'| == 16
  {
    forall g, k: nat, across, line {:trigger Fits(g, At(g, k), across, m, line)} ::
      At(g, k) <= g && Fits(g, At(g, k), across, m, line) ==> Fits(g, At(g, k), across, m', line)
  }

  /** The points of the grid's lines lie in its plane. */
  lemma InPlane(across: bool, g: real, f: real, t: real)
    ensures Along(End(across, -g, f), End(across, g, f), t)
         == if across then Vec(Mix(-g, g, t), 0.0, f, 0.0) else Vec(f, 0.0, Mix(-g, g, t), 0.0)
  {
  }

  lemma SamePoint(m: seq<real>, m': seq<real>, across: bool, g: real, f: real, t: real)
    requires |m| == |m'| == 16 && SamePlaneView(m, m')
    ensures var p := Along(End(across, -g, f), End(across, g, f), t);
            InClipSpace(Transformed(p, m)) <==> InClipSpace(Transformed(p, m'))
  {
    InPlane(across, g, f, t);
  }

  lemma PlaneViewFits(m: seq<real>, m': seq<real>, g: real, f: real, across: bool, line: Line)
    requires |m| == |m'| == 16 && SamePlaneView(m, m') && Fits(g, f, across, m, line)
    ensures Fits(g, f, across, m', line)
  {
    var a, b := End(across, -g, f), End(across, g, f);
    forall t
      ensures InClipSpace(Transformed(Along(a, b, t), m)) <==> InClipSpace(Transformed(Along(a, b, t), m'))
    {
      SamePoint(m, m', across, g, f, t);
    }
    if line.visible {
      var s :| 0.0 <= s <= 1.0 && line.kept.0 == Along(a, b, s);
      var u :| 0.0 <= u <= 1.0 && line.kept.1 == Along(a, b, u);
    }
  }

  /** A whole number above any real. */
  lemma Above(x: real) returns (k: nat)
    ensures x < k as real
  {
    k := if x < 0.0 then 0 else x.Floor + 1;
  }

  /** Through every point of the plane goes a line of some grid. */
  lemma LineThrough(x: real, z: real) returns (g: real, k: nat, t: real)
    ensures At(g, k) <= g && 0.0 <= t <= 1.0
    ensures Along(End(true, -g, At(g, k)), End(true, g, At(g, k)), t) == Vec(x, 0.0, z, 0.0)
  {
    var size := (if x < 0.0 then -x else x) + 2.0 * (if z < 0.0 then -z else z);
    k := Above(size);
    g := k as real - z;
    t := (x + g) / (2.0 * g);
    assert 0.0 < g && -g <= x <= g;
    Portion(x + g, 2.0 * g, t);
    InPlane(true, g, z, t);
  }

  lemma Portion(p: real, q: real, t: real)
    requires 0.0 <= p <= q && 0.0 < q && t == p / q
    ensures 0.0 <= t <= 1.0 && q * t == p
  {
  }

  lemma FitsAtPoint(m: seq<real>, m': seq<real>, x: real, z: real)
    requires |m| == |m'| == 16 && AllFit(m, m')
    ensures InClipSpace(Transformed(Vec(x, 0.0, z, 0.0), m)) <==> InClipSpace(Transformed(Vec(x, 0.0, z, 0.0), m'))
  {
    var g, k, t := LineThrough(x, z);
    var a, b := End(true, -g, At(g, k)), End(true, g, At(g, k));
    var visible, a', b' := PartShown(a, b, m);
    var line := Line(visible, (a', b'), a', b');
    assert Fits(g, At(g, k), true, m, line) && Fits(g, At(g, k), true, m', line);
    assert Along(a, b, t) == Vec(x, 0.0, z, 0.0);
  }

  /** The lines of all grids that are kept for m are right for m' if and only if the
      two take the same points of the grid's plane to clip space. */
  lemma GridFitsIff(m: seq<real>, m': seq<real>)
    requires |m| == |m'| == 16
    ensures AllFit(m, m') <==> SamePlaneView(m, m')
  {
    if SamePlaneView(m, m') {
      forall g, k: nat, across, line | At(g, k) <= g && Fits(g, At(g, k), across, m, line)
        ensures Fits(g, At(g, k), across, m', line)
      {
        PlaneViewFits(m, m', g, At(g, k), across, line);
      }
    }
    if AllFit(m, m') {
      forall x, z
        ensures InClipSpace(Transformed(Vec(x, 0.0, z, 0.0), m)) <==> InClipSpace(Transformed(Vec(x, 0.0, z, 0.0), m'))
      {
        FitsAtPoint(m, m', x, z);
      }
    }
  }

  function Plus(u: Vec, v: Vec): Vec {
    Vec(u.x + v.x, u.y + v.y, u.z + v.z, u.w + v.w)
  }

  lemma DotPlus(u: Vec, v: Vec, q: Vec)
    ensures Dot(Plus(u, v), q) == Dot(u, q) + Dot(v, q)
  {
  }

  /** The rows, weighted by the point's coordinates and added up. */
  function Weighted(p: Vec, a: Vec, b: Vec, c: Vec, d: Vec): Vec {
    Plus(Plus(Plus(Scaled(a, p.x), Scaled(b, p.y)), Scaled(c, p.z)), d)
  }

  /** The dot product with a sum of weighted rows is the sum of weighted dot products. */
  lemma DotWeighted(p: Vec, a: Vec, b: Vec, c: Vec, d: Vec, q: Vec)
    ensures Dot(Weighted(p, a, b, c, d), q) == p.x * Dot(a, q) + p.y * Dot(b, q) + p.z * Dot(c, q) + Dot(d, q)
  {
    DotScaled(a, q, p.x);
    DotScaled(b, q, p.y);
    DotScaled(c, q, p.z);
    DotPlus(Scaled(a, p.x), Scaled(b, p.y), q);
    DotPlus(Plus(Scaled(a, p.x), Scaled(b, p.y)), Scaled(c, p.z), q);
    DotPlus(Plus(Plus(Scaled(a, p.x), Scaled(b, p.y)), Scaled(c, p.z)), d, q);
  }

  lemma TimesDot(p: Vec, q: Vec)
    requires p.w == 1.0
    ensures Times(p, q) == Dot(p, q)
  {
  }

  /** An entry of a row; e0 to e3 are the entries of the product's row. */
  lemma EntryOfRow(r: seq<real>, i: nat, c: nat, e0: real, e1: real, e2: real, e3: real)
    requires |r| == 16 && i < 4 && c < 4 && Row(r, i) == Vec(e0, e1, e2, e3)
    ensures r[4 * i + c] == if c == 0 then e0 else if c == 1 then e1 else if c == 2 then e2 else e3
  {
  }

  lemma EntryOfProduct(a: seq<real>, b: seq<real>, r: seq<real>, i: nat, c: nat)
    requires |a| == |b| == |r| == 16 && IsProduct(r, a, b) && i < 4 && c < 4
    ensures r[4 * i + c] == Entry(a, b, i, c)
  {
    assert Row(r, i) == ProductRow(a, b, i);
    EntryOfRow(r, i, c, Entry(a, b, i, 0), Entry(a, b, i, 1), Entry(a, b, i, 2), Entry(a, b, i, 3));
  }

  lemma ColumnIs(r: seq<real>, c: nat, v: Vec)
    requires |r| == 16 && c < 4 && r[c] == v.x && r[4 + c] == v.y && r[8 + c] == v.z && r[12 + c] == v.w
    ensures Column(r, c) == v
  {
  }

  lemma ColumnOfProduct(a: seq<real>, b: seq<real>, r: seq<real>, c: nat)
    requires |a| == |b| == |r| == 16 && IsProduct(r, a, b) && c < 4
    ensures Column(r, c) == Vec(Entry(a, b, 0, c), Entry(a, b, 1, c), Entry(a, b, 2, c), Entry(a, b, 3, c))
  {
    EntryOfProduct(a, b, r, 0, c);
    EntryOfProduct(a, b, r, 1, c);
    EntryOfProduct(a, b, r, 2, c);
    EntryOfProduct(a, b, r, 3, c);
    ColumnIs(r, c, Vec(Entry(a, b, 0, c), Entry(a, b, 1, c), Entry(a, b, 2, c), Entry(a, b, 3, c)));
  }

  lemma ByRows(a: seq<real>, p: Vec)
    requires |a| == 16
    ensures Transformed(p, a) == Weighted(p, Row(a, 0), Row(a, 1), Row(a, 2), Row(a, 3))
  {
  }

  lemma TimesIs(p: Vec, q: Vec, e0: real, e1: real, e2: real, e3: real)
    requires q == Vec(e0, e1, e2, e3)
    ensures Times(p, q) == p.x * e0 + p.y * e1 + p.z * e2 + e3
  {
  }

  lemma ProductColumn(a: seq<real>, b: seq<real>, r: seq<real>, p: Vec, c: nat)
    requires |a| == |b| == |r| == 16 && IsProduct(r, a, b) && c < 4 && Transformed(p, a).w == 1.0
    ensures Times(p, Column(r, c)) == Times(Transformed(p, a), Column(b, c))
  {
    ColumnOfProduct(a, b, r, c);
    TimesIs(p, Column(r, c), Entry(a, b, 0, c), Entry(a, b, 1, c), Entry(a, b, 2, c), Entry(a, b, 3, c));
    ByRows(a, p);
    DotWeighted(p, Row(a, 0), Row(a, 1), Row(a, 2), Row(a, 3), Column(b, c));
    TimesDot(Transformed(p, a), Column(b, c));
  }

  /** Drawing a point with the product is drawing the point that the first matrix
      moves it to with the second. */
  lemma ProductMovesFirst(a: seq<real>, b: seq<real>, r: seq<real>, p: Vec)
    requires |a| == |b| == |r| == 16 && IsProduct(r, a, b) && Transformed(p, a).w == 1.0
    ensures Transformed(p, r) == Transformed(Transformed(p, a), b)
  {
    ProductColumn(a, b, r, p, 0);
    ProductColumn(a, b, r, p, 1);
    ProductColumn(a, b, r, p, 2);
    ProductColumn(a, b, r, p, 3);
  }

  const IDENTITY: seq<real> := [1.0, 0.0, 0.0, 0.0, 0.0, 1.0, 0.0, 0.0, 0.0, 0.0, 1.0, 0.0, 0.0, 0.0, 0.0, 1.0]
  const SHIFTED: seq<real> := [1.0, 0.0, 0.0, 0.0, 0.0, 1.0, 0.0, 0.0, 0.0, 0.0, 1.0, 0.0, 3.0, 0.0, 0.0, 1.0]

  /** A grid that is not moved is drawn as it was cut. */
  lemma UnmovedGrid(m: seq<real>, res: seq<real>)
    requires |m| == |res| == 16 && IsProduct(res, IDENTITY, m)
    ensures res == m && SamePlaneView(m, res)
  {
    forall i | 0 <= i < 4
      ensures Row(res, i) == Row(m, i)
    {
      assert Row(res, i) == ProductRow(IDENTITY, m, i);
    }
    assert forall i :: 0 <= i < 4 ==> Row(res, i) == Row(m, i);
    SameRows(res, m);
  }

  lemma SameRows(a: seq<real>, b: seq<real>)
    requires |a| == |b| == 16 && forall i :: 0 <= i < 4 ==> Row(a, i) == Row(b, i)
    ensures a == b
  {
    forall k | 0 <= k < 16
      ensures a[k] == b[k]
    {
      assert Row(a, k / 4) == Row(b, k / 4) && k == 4 * (k / 4) + k % 4;
    }
  }

  lemma Unmoved(p: Vec)
    ensures Transformed(p, IDENTITY) == Vec(p.x, p.y, p.z, 1.0)
  {
  }

  lemma Moved(p: Vec)
    ensures Transformed(p, SHIFTED) == Vec(p.x + 3.0, p.y, p.z, 1.0)
  {
  }

  lemma TimesIdentity(m: seq<real>, res: seq<real>)
    requires |m| == |res| == 16 && IsProduct(res, m, IDENTITY)
    ensures res == m
  {
    forall i | 0 <= i < 4
      ensures Row(res, i) == Row(m, i)
    {
      assert Row(res, i) == ProductRow(m, IDENTITY, i);
    }
    SameRows(res, m);
  }

  lemma FromInView(from: Vec, to: Vec, m: seq<real>, visible: bool, a: Vec, b: Vec)
    requires |m| == 16 && Shown(from, to, m, visible, a, b) && InClipSpace(Transformed(from, m))
    ensures visible && InClipSpace(Transformed(a, m)) && InClipSpace(Transformed(b, m))
  {
    assert Along(from, to, 0.0) == from;
  }

  lemma MovedOut(p: Vec)
    requires InClipSpace(Transformed(p, IDENTITY))
    ensures !InClipSpace(Transformed(p, SHIFTED))
  {
    Unmoved(p);
    Moved(p);
  }

  /** A line of a grid that is moved to the right, in plain view before it is moved:
      a part of it is kept, and both ends of that are drawn out of view. */
  lemma MovedGrid(visible: bool, a: Vec, b: Vec, res: seq<real>)
    requires |res| == 16 && IsProduct(res, SHIFTED, IDENTITY)
    requires Shown(End(true, -0.5, -0.5), End(true, 0.5, -0.5), IDENTITY, visible, a, b)
    ensures visible && !InClipSpace(Transformed(a, res)) && !InClipSpace(Transformed(b, res))
  {
    TimesIdentity(SHIFTED, res);
    Unmoved(End(true, -0.5, -0.5));
    FromInView(End(true, -0.5, -0.5), End(true, 0.5, -0.5), IDENTITY, visible, a, b);
    MovedOut(a);
    MovedOut(b);
  }
}
