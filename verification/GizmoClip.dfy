/** Points, planes and segments. */
module Segments {
  datatype Vec = Vec(x: real, y: real, z: real, w: real)

  function Mix(p: real, q: real, t: real): real {
    p + (q - p) * t
  }

  /** The point of the line through a and b at parameter t. */
  function Along(a: Vec, b: Vec, t: real): Vec {
    Vec(Mix(a.x, b.x, t), Mix(a.y, b.y, t), Mix(a.z, b.z, t), Mix(a.w, b.w, t))
  }

  function Distance(p: Vec, plane: Vec): real {
    plane.x * p.x + plane.y * p.y + plane.z * p.z + plane.w
  }

  /** p lies in the first n half-spaces. */
  ghost predicate InFirst(p: Vec, planes: seq<Vec>, n: nat)
    requires n <= |planes|
  {
    forall i :: 0 <= i < n ==> Distance(p, planes[i]) >= 0.0
  }

  /** a' and b' are the points of the segment from a to b at s and u. */
  ghost predicate Between(a: Vec, b: Vec, s: real, u: real, a': Vec, b': Vec) {
    0.0 <= s <= u <= 1.0 && a' == Along(a, b, s) && b' == Along(a, b, u)
  }

  /** The points of the segment in the first n half-spaces all lie between s and u. */
  ghost predicate Confined(a: Vec, b: Vec, planes: seq<Vec>, n: nat, s: real, u: real)
    requires n <= |planes|
  {
    forall t :: 0.0 <= t <= 1.0 && InFirst(Along(a, b, t), planes, n) ==> s <= t <= u
  }

  /** Distances change linearly along a line. */
  lemma DistanceMixes(a: Vec, b: Vec, plane: Vec, t: real)
    ensures Distance(Along(a, b, t), plane) == Mix(Distance(a, plane), Distance(b, plane), t)
  {
  }

  lemma MixMix(p: real, q: real, s: real, u: real, t: real)
    ensures Mix(Mix(p, q, s), Mix(p, q, u), t) == Mix(p, q, Mix(s, u, t))
  {
  }

  /** A line within a line. */
  lemma AlongAlong(a: Vec, b: Vec, s: real, u: real, t: real)
    ensures Along(Along(a, b, s), Along(a, b, u), t) == Along(a, b, Mix(s, u, t))
  {
    MixMix(a.x, b.x, s, u, t);
    MixMix(a.y, b.y, s, u, t);
    MixMix(a.z, b.z, s, u, t);
    MixMix(a.w, b.w, s, u, t);
  }

  lemma Signs(x: real, y: real)
    ensures x >= 0.0 && y >= 0.0 ==> x * y >= 0.0
    ensures x > 0.0 && y > 0.0 ==> x * y > 0.0
    ensures x > 0.0 && y < 0.0 ==> x * y < 0.0
  {
  }

  /** Between two points where a line is not below zero it is nowhere below zero,
      and between two where it is below zero it is nowhere above. */
  lemma NoCrossing(p: real, q: real, s: real, u: real, t: real)
    requires s <= t <= u
    ensures Mix(p, q, s) >= 0.0 && Mix(p, q, u) >= 0.0 ==> Mix(p, q, t) >= 0.0
    ensures Mix(p, q, s) < 0.0 && Mix(p, q, u) < 0.0 ==> Mix(p, q, t) < 0.0
  {
    Slope(p, q, s, t);
    Slope(p, q, t, u);
    Signs(q - p, t - s);
    Signs(q - p, u - t);
    Signs(p - q, t - s);
    Signs(p - q, u - t);
  }

  lemma Slope(p: real, q: real, s: real, t: real)
    ensures Mix(p, q, t) - Mix(p, q, s) == (q - p) * (t - s)
    ensures Mix(p, q, s) - Mix(p, q, t) == (p - q) * (t - s)
  {
  }

  function Abs(x: real): real {
    if x < 0.0 then -x else x
  }

  /** How far from s to u, where a line is below zero, it crosses zero. */
  function Fraction(ds: real, du: real): real
    requires ds < 0.0 <= du
  {
    Abs(ds) / Abs(ds - du)
  }

  lemma FractionMixes(ds: real, du: real)
    requires ds < 0.0 <= du
    ensures 0.0 < Fraction(ds, du) <= 1.0 && Mix(ds, du, Fraction(ds, du)) == 0.0
  {
    var k := Fraction(ds, du);
    assert k * (du - ds) == -ds;
  }

  lemma MixBetween(s: real, u: real, k: real)
    requires 0.0 < k <= 1.0
    ensures s < u ==> s < Mix(s, u, k) <= u
    ensures u < s ==> u <= Mix(s, u, k) < s
  {
    var d, l := u - s, 1.0 - k;
    Rest(s, u, d, k, l, Mix(s, u, k));
    Signs(d, k);
    Signs(d, l);
    Signs(-d, k);
    Signs(-d, l);
  }

  lemma Rest(s: real, u: real, d: real, k: real, l: real, v: real)
    requires d == u - s && l == 1.0 - k && v == s + d * k
    ensures u - v == d * l == -(-d * l) && v - s == d * k == -(-d * k)
  {
  }

  /** If m * x is positive, then m * y is where y is on the side of x. */
  lemma Rising(m: real, x: real, y: real)
    requires m * x > 0.0
    ensures x > 0.0 && y > 0.0 ==> m * y > 0.0
    ensures x < 0.0 && y < 0.0 ==> m * y > 0.0
  {
    if x > 0.0 {
      Signs(m, x);
      Signs(-m, x);
    } else {
      Signs(m, -x);
      Signs(-m, -x);
    }
    Signs(m, y);
    Signs(-m, -y);
  }

  lemma MixInside(s: real, u: real, k: real)
    requires s <= u && 0.0 <= k <= 1.0
    ensures s <= Mix(s, u, k) <= u
  {
    var d, l := u - s, 1.0 - k;
    Rest(s, u, d, k, l, Mix(s, u, k));
    Signs(d, k);
    Signs(d, l);
  }

  /** A line below zero at s and zero at v is below zero on all of that side of v. */
  lemma BelowBefore(p: real, q: real, s: real, v: real, t: real)
    requires Mix(p, q, s) < 0.0 && Mix(p, q, v) == 0.0
    ensures s < v && t < v ==> Mix(p, q, t) < 0.0
    ensures v < s && v < t ==> Mix(p, q, t) < 0.0
  {
    Slope(p, q, s, v);
    Slope(p, q, t, v);
    Rising(q - p, v - s, v - t);
  }

  /** Where a line below zero at s and not at u crosses zero. */
  lemma Crossing(p: real, q: real, s: real, u: real, k: real)
    requires Mix(p, q, s) < 0.0 <= Mix(p, q, u) && k == Fraction(Mix(p, q, s), Mix(p, q, u))
    ensures s != u && Mix(p, q, Mix(s, u, k)) == 0.0
    ensures s < u ==> s < Mix(s, u, k) <= u
    ensures u < s ==> u <= Mix(s, u, k) < s
  {
    FractionMixes(Mix(p, q, s), Mix(p, q, u));
    MixMix(p, q, s, u, k);
    MixBetween(s, u, k);
  }
}

/** Cutting a line of the grid down to the frustum. */
module GizmoClip {
  import opened Segments

  /** A point or plane, changed in place. */
  class VecT {
    var x: real
    var y: real
    var z: real
    var w: real

    constructor (v: Vec)
      ensures Value() == v
    {
      x, y, z, w := v.x, v.y, v.z, v.w;
    }

    function Value(): Vec
      reads this
    {
      Vec(x, y, z, w)
    }

    /** Move towards v. */
    method Lerp(v: VecT, t: real)
      requires v != this
      modifies this
      ensures Value() == Along(old(Value()), v.Value(), t)
    {
      x := x + (v.x - x) * t;
      y := y + (v.y - y) * t;
      z := z + (v.z - z) * t;
      w := w + (v.w - w) * t;
    }
  }

  /** The part of the segment found so far for the first n planes. */
  ghost predicate Cut(a: Vec, b: Vec, planes: seq<Vec>, n: nat, s: real, u: real, a': Vec, b': Vec)
    requires n <= |planes|
  {
    Between(a, b, s, u, a', b') && InFirst(a', planes, n) && InFirst(b', planes, n) && Confined(a, b, planes, n, s, u)
  }

  /** Both ends outside a plane: no point of the segment is inside. */
  lemma BothOutside(a: Vec, b: Vec, planes: seq<Vec>, i: nat, s: real, u: real, a': Vec, b': Vec)
    requires i < |planes| && Cut(a, b, planes, i, s, u, a', b')
    requires Distance(a', planes[i]) < 0.0 && Distance(b', planes[i]) < 0.0
    ensures forall t :: 0.0 <= t <= 1.0 ==> !InFirst(Along(a, b, t), planes, |planes|)
  {
    forall t | 0.0 <= t <= 1.0
      ensures !InFirst(Along(a, b, t), planes, |planes|)
    {
      if InFirst(Along(a, b, t), planes, |planes|) {
        assert InFirst(Along(a, b, t), planes, i);
        DistanceMixes(a, b, planes[i], s);
        DistanceMixes(a, b, planes[i], u);
        DistanceMixes(a, b, planes[i], t);
        NoCrossing(Distance(a, planes[i]), Distance(b, planes[i]), s, u, t);
      }
    }
  }

  /** Neither end outside a plane: nothing is to be cut. */
  lemma NoneOutside(a: Vec, b: Vec, planes: seq<Vec>, i: nat, s: real, u: real, a': Vec, b': Vec)
    requires i < |planes| && Cut(a, b, planes, i, s, u, a', b')
    requires Distance(a', planes[i]) >= 0.0 && Distance(b', planes[i]) >= 0.0
    ensures Cut(a, b, planes, i + 1, s, u, a', b')
  {
    forall t | 0.0 <= t <= 1.0 && InFirst(Along(a, b, t), planes, i + 1)
      ensures s <= t <= u
    {
      assert InFirst(Along(a, b, t), planes, i);
    }
  }

  /** The points between the ends are inside the planes the ends are inside. */
  lemma StaysInside(a: Vec, b: Vec, planes: seq<Vec>, i: nat, s: real, u: real, a': Vec, b': Vec, v: real)
    requires i <= |planes| && Cut(a, b, planes, i, s, u, a', b') && s <= v <= u
    ensures InFirst(Along(a, b, v), planes, i)
  {
    forall j | 0 <= j < i
      ensures Distance(Along(a, b, v), planes[j]) >= 0.0
    {
      DistanceMixes(a, b, planes[j], s);
      DistanceMixes(a, b, planes[j], u);
      DistanceMixes(a, b, planes[j], v);
      NoCrossing(Distance(a, planes[j]), Distance(b, planes[j]), s, u, v);
    }
  }

  /** One end outside a plane: what lies beyond the crossing v is outside too. */
  lemma FirstOutside(a: Vec, b: Vec, planes: seq<Vec>, i: nat, s: real, u: real, a': Vec, b': Vec, k: real, v: real)
    requires i < |planes| && Cut(a, b, planes, i, s, u, a', b')
    requires Distance(a', planes[i]) < 0.0 <= Distance(b', planes[i])
    requires k == Fraction(Distance(a', planes[i]), Distance(b', planes[i])) && v == Mix(s, u, k)
    ensures Along(a', b', k) == Along(a, b, v) && Cut(a, b, planes, i + 1, v, u, Along(a, b, v), b')
  {
    var p, q := Distance(a, planes[i]), Distance(b, planes[i]);
    DistanceMixes(a, b, planes[i], s);
    DistanceMixes(a, b, planes[i], u);
    DistanceMixes(a, b, planes[i], v);
    Crossing(p, q, s, u, k);
    AlongAlong(a, b, s, u, k);
    StaysInside(a, b, planes, i, s, u, a', b', v);
    forall t | 0.0 <= t <= 1.0 && InFirst(Along(a, b, t), planes, i + 1)
      ensures v <= t <= u
    {
      assert InFirst(Along(a, b, t), planes, i);
      DistanceMixes(a, b, planes[i], t);
      BelowBefore(p, q, s, v, t);
    }
  }

  lemma SecondOutside(a: Vec, b: Vec, planes: seq<Vec>, i: nat, s: real, u: real, a': Vec, b': Vec, k: real, v: real)
    requires i < |planes| && Cut(a, b, planes, i, s, u, a', b')
    requires Distance(b', planes[i]) < 0.0 <= Distance(a', planes[i])
    requires k == Fraction(Distance(b', planes[i]), Distance(a', planes[i])) && v == Mix(u, s, k)
    ensures Along(b', a', k) == Along(a, b, v) && Cut(a, b, planes, i + 1, s, v, a', Along(a, b, v))
  {
    var p, q := Distance(a, planes[i]), Distance(b, planes[i]);
    DistanceMixes(a, b, planes[i], s);
    DistanceMixes(a, b, planes[i], u);
    DistanceMixes(a, b, planes[i], v);
    Crossing(p, q, u, s, k);
    AlongAlong(a, b, u, s, k);
    StaysInside(a, b, planes, i, s, u, a', b', v);
    forall t | 0.0 <= t <= 1.0 && InFirst(Along(a, b, t), planes, i + 1)
      ensures s <= t <= v
    {
      assert InFirst(Along(a, b, t), planes, i);
      DistanceMixes(a, b, planes[i], t);
      BelowBefore(p, q, u, v, t);
    }
  }

  method DistanceToPlane(point: VecT, plan: VecT) returns (d: real)
    ensures d == Distance(point.Value(), plan.Value())
  {
    d := plan.x * point.x + plan.y * point.y + plan.z * point.z + plan.w;
  }

  ghost function Planes(frustum: array<VecT>): seq<Vec>
    reads frustum, frustum[..]
  {
    seq(frustum.Length, i requires 0 <= i < frustum.Length reads frustum, frustum[..] => frustum[i].Value())
  }

  ghost predicate OnSegment(p: Vec, a: Vec, b: Vec) {
    exists k :: 0.0 <= k <= 1.0 && p == Along(a, b, k)
  }

  /** The points of the segment in all half-spaces are exactly those of the part found. */
  lemma CutIsIntersection(a: Vec, b: Vec, planes: seq<Vec>, s: real, u: real, a': Vec, b': Vec, t: real)
    requires Cut(a, b, planes, |planes|, s, u, a', b') && 0.0 <= t <= 1.0
    ensures InFirst(Along(a, b, t), planes, |planes|) <==> OnSegment(Along(a, b, t), a', b')
  {
    if InFirst(Along(a, b, t), planes, |planes|) {
      PartOfSegment(a, b, s, u, t);
    }
    if OnSegment(Along(a, b, t), a', b') {
      var k :| 0.0 <= k <= 1.0 && Along(a, b, t) == Along(a', b', k);
      InsideOfPart(a, b, planes, s, u, a', b', k);
    }
  }

  lemma InsideOfPart(a: Vec, b: Vec, planes: seq<Vec>, s: real, u: real, a': Vec, b': Vec, k: real)
    requires Cut(a, b, planes, |planes|, s, u, a', b') && 0.0 <= k <= 1.0
    ensures InFirst(Along(a', b', k), planes, |planes|)
  {
    AlongAlong(a, b, s, u, k);
    MixInside(s, u, k);
    StaysInside(a, b, planes, |planes|, s, u, a', b', Mix(s, u, k));
  }

  lemma Ratio(x: real, y: real)
    requires 0.0 <= x <= y && 0.0 < y
    ensures 0.0 <= x / y <= 1.0 && y * (x / y) == x
  {
  }

  lemma PartOfSegment(a: Vec, b: Vec, s: real, u: real, t: real)
    requires s <= t <= u
    ensures OnSegment(Along(a, b, t), Along(a, b, s), Along(a, b, u))
  {
    var k := 0.0;
    if s < u {
      Ratio(t - s, u - s);
      k := (t - s) / (u - s);
    }
    assert Mix(s, u, k) == t;
    AlongAlong(a, b, s, u, k);
    assert Along(a, b, t) == Along(Along(a, b, s), Along(a, b, u), k);
  }

  /** One turn of the loop: cut by plane i, unless nothing is left. */
  method CutByPlane(ptA: VecT, ptB: VecT, plane: VecT, ghost planes: seq<Vec>, ghost i: nat, ghost a: Vec, ghost b: Vec,
                    ghost s0: real, ghost u0: real)
    returns (visible: bool, ghost s: real, ghost u: real)
    requires ptA != ptB && plane != ptA && plane != ptB
    requires i < |planes| && plane.Value() == planes[i] && Cut(a, b, planes, i, s0, u0, ptA.Value(), ptB.Value())
    modifies ptA, ptB
    ensures visible ==> Cut(a, b, planes, i + 1, s, u, ptA.Value(), ptB.Value())
    ensures !visible ==> forall t :: 0.0 <= t <= 1.0 ==> !InFirst(Along(a, b, t), planes, |planes|)
  {
    ghost var a', b' := ptA.Value(), ptB.Value();
    s, u := s0, u0;
    var dA := DistanceToPlane(ptA, plane);
    var dB := DistanceToPlane(ptB, plane);
    if dA < 0.0 && dB < 0.0 {
      BothOutside(a, b, planes, i, s, u, a', b');
      return false, s, u;
    }
    if dA > 0.0 && dB > 0.0 {
      NoneOutside(a, b, planes, i, s, u, a', b');
      return true, s, u;
    }
    if dA < 0.0 {
      var len := Abs(dA - dB);
      var t := Abs(dA) / len;
      ptA.Lerp(ptB, t);
      s := Mix(s0, u0, t);
      FirstOutside(a, b, planes, i, s0, u0, a', b', t, s);
    }
    if dB < 0.0 {
      var len := Abs(dB - dA);
      var t := Abs(dB) / len;
      ptB.Lerp(ptA, t);
      u := Mix(u0, s0, t);
      SecondOutside(a, b, planes, i, s0, u0, a', b', t, u);
    }
    if dA >= 0.0 && dB >= 0.0 {
      NoneOutside(a, b, planes, i, s0, u0, a', b');
    }
    visible := true;
  }

  /** Cut a segment down to the frustum, or find that nothing of it is visible. */
  method Clip(ptA: VecT, ptB: VecT, frustum: array<VecT>) returns (visible: bool)
    requires ptA != ptB && frustum.Length == 6 && forall i :: 0 <= i < 6 ==> frustum[i] != ptA && frustum[i] != ptB
    modifies ptA, ptB
    ensures visible ==> InFirst(ptA.Value(), Planes(frustum), 6) && InFirst(ptB.Value(), Planes(frustum), 6)
    ensures visible ==> forall t :: 0.0 <= t <= 1.0 ==>
              (InFirst(Along(old(ptA.Value()), old(ptB.Value()), t), Planes(frustum), 6) <==>
               OnSegment(Along(old(ptA.Value()), old(ptB.Value()), t), ptA.Value(), ptB.Value()))
    ensures visible ==> OnSegment(ptA.Value(), old(ptA.Value()), old(ptB.Value()))
                        && OnSegment(ptB.Value(), old(ptA.Value()), old(ptB.Value()))
    ensures !visible ==> forall t :: 0.0 <= t <= 1.0 ==>
              !InFirst(Along(old(ptA.Value()), old(ptB.Value()), t), Planes(frustum), 6)
  {
    ghost var planes, a, b := Planes(frustum), ptA.Value(), ptB.Value();
    ghost var s, u := 0.0, 1.0;
    visible := true;
    for i := 0 to 6
      invariant visible && Planes(frustum) == planes
      invariant Cut(a, b, planes, i, s, u, ptA.Value(), ptB.Value())
    {
      visible, s, u := CutByPlane(ptA, ptB, frustum[i], planes, i, a, b, s, u);
      if !visible {
        break;
      }
    }
    if visible {
      forall t | 0.0 <= t <= 1.0
        ensures InFirst(Along(a, b, t), planes, 6) <==> OnSegment(Along(a, b, t), ptA.Value(), ptB.Value())
      {
        CutIsIntersection(a, b, planes, s, u, ptA.Value(), ptB.Value(), t);
      }
    }
  }
}

/** The frustum of a view and projection. */
module GizmoFrustum {
  import opened Segments
  import opened GizmoClip

  const EPSILON: real := 1.0 / 8388608.0

  /** Column c of the 4x4 matrix m. */
  function Column(m: seq<real>, c: nat): Vec
    requires |m| == 16 && c < 4
  {
    Vec(m[c], m[4 + c], m[8 + c], m[12 + c])
  }

  /** A point, as a row with 1 at its end, times a column. */
  function Times(p: Vec, column: Vec): real {
    p.x * column.x + p.y * column.y + p.z * column.z + column.w
  }

  /** A point, as a row with 1 at its end, times the 4x4 matrix m. */
  function Transformed(p: Vec, m: seq<real>): Vec
    requires |m| == 16
  {
    Vec(Times(p, Column(m, 0)), Times(p, Column(m, 1)), Times(p, Column(m, 2)), Times(p, Column(m, 3)))
  }

  /** Clip space: no coordinate is greater in magnitude than w. */
  predicate InClipSpace(v: Vec) {
    -v.w <= v.x <= v.w && -v.w <= v.y <= v.w && -v.w <= v.z <= v.w
  }

  function By(a: real, k: real): real {
    a * k
  }

  function Scaled(v: Vec, k: real): Vec {
    Vec(By(v.x, k), By(v.y, k), By(v.z, k), By(v.w, k))
  }

  /** The plane with normal (x, y, z) times a positive factor: only the scale changes. */
  lemma ScaledSide(p: Vec, plane: Vec, k: real)
    requires 0.0 < k
    ensures Distance(p, Scaled(plane, k)) >= 0.0 <==> Distance(p, plane) >= 0.0
  {
    assert Distance(p, Scaled(plane, k)) == Distance(p, plane) * k;
  }

  /** Normalising, given what the square root in Length returns. */
  method Normalize(v: VecT, length: real)
    modifies v
    ensures exists k :: 0.0 < k && v.Value() == Scaled(old(v.Value()), k)
  {
    var k := 1.0 / (if length > EPSILON then length else EPSILON);
    assert 0.0 < k;
    v.x := v.x * k;
    v.y := v.y * k;
    v.z := v.z * k;
    v.w := v.w * k;
    assert v.Value() == Scaled(old(v.Value()), k);
  }

  method TransformPoint(p: VecT, m: array<real>)
    requires m.Length == 16
    modifies p
    ensures p.Value() == Transformed(old(p.Value()), m[..])
  {
    var outX := p.x * m[0] + p.y * m[4] + p.z * m[8] + m[12];
    var outY := p.x * m[1] + p.y * m[5] + p.z * m[9] + m[13];
    var outZ := p.x * m[2] + p.y * m[6] + p.z * m[10] + m[14];
    var outW := p.x * m[3] + p.y * m[7] + p.z * m[11] + m[15];
    p.x, p.y, p.z, p.w := outX, outY, outZ, outW;
  }

  method Set(v: VecT, x: real, y: real, z: real, w: real)
    modifies v
    ensures v.Value() == Vec(x, y, z, w)
  {
    v.x, v.y, v.z, v.w := x, y, z, w;
  }

  /** What one plane tests of a point's image: a bound on x, y or z by w or -w. */
  function Test(v: Vec, i: nat): real {
    match i
    case 0 => v.w - v.x
    case 1 => v.w + v.x
    case 2 => v.w + v.y
    case 3 => v.w - v.y
    case 4 => v.w - v.z
    case _ => v.w + v.z
  }

  /** `plane` tests a bound of clip space, before the transformation. */
  ghost predicate Bounds(plane: Vec, m: seq<real>, i: nat)
    requires |m| == 16
  {
    forall p: Vec {:trigger Distance(p, plane)} :: Distance(p, plane) >= 0.0 <==> Test(Transformed(p, m), i) >= 0.0
  }

  lemma ScaledBounds(plane: Vec, m: seq<real>, i: nat, k: real)
    requires |m| == 16 && 0.0 < k && Bounds(plane, m, i)
    ensures Bounds(Scaled(plane, k), m, i)
  {
    forall p: Vec
      ensures Distance(p, Scaled(plane, k)) >= 0.0 <==> Test(Transformed(p, m), i) >= 0.0
    {
      ScaledSide(p, plane, k);
      assert Distance(p, plane) >= 0.0 <==> Test(Transformed(p, m), i) >= 0.0;
    }
  }

  /** The last column plus or minus another. */
  function Combined(a: Vec, sign: real, b: Vec): Vec {
    Vec(a.x + sign * b.x, a.y + sign * b.y, a.z + sign * b.z, a.w + sign * b.w)
  }

  lemma CombinedDistance(p: Vec, a: Vec, sign: real, b: Vec)
    ensures Distance(p, Combined(a, sign, b)) == Times(p, a) + sign * Times(p, b)
  {
    assert Times(p, b) * sign == p.x * (sign * b.x) + p.y * (sign * b.y) + p.z * (sign * b.z) + sign * b.w;
  }

  function Sign(i: nat): real {
    if i == 0 || i == 3 || i == 4 then -1.0 else 1.0
  }

  lemma CombinedTest(p: Vec, m: seq<real>, i: nat)
    requires |m| == 16 && i < 6
    ensures Distance(p, Combined(Column(m, 3), Sign(i), Column(m, i / 2))) == Test(Transformed(p, m), i)
  {
    var w := Times(p, Column(m, 3));
    CombinedDistance(p, Column(m, 3), Sign(i), Column(m, i / 2));
    match i
    case 0 => assert Test(Transformed(p, m), 0) == w - Times(p, Column(m, 0));
    case 1 => assert Test(Transformed(p, m), 1) == w + Times(p, Column(m, 0));
    case 2 => assert Test(Transformed(p, m), 2) == w + Times(p, Column(m, 1));
    case 3 => assert Test(Transformed(p, m), 3) == w - Times(p, Column(m, 1));
    case 4 => assert Test(Transformed(p, m), 4) == w - Times(p, Column(m, 2));
    case 5 => assert Test(Transformed(p, m), 5) == w + Times(p, Column(m, 2));
  }

  lemma CombinedBounds(m: seq<real>, i: nat)
    requires |m| == 16 && i < 6
    ensures Bounds(Combined(Column(m, 3), Sign(i), Column(m, i / 2)), m, i)
  {
    forall p: Vec
      ensures Distance(p, Combined(Column(m, 3), Sign(i), Column(m, i / 2))) == Test(Transformed(p, m), i)
    {
      CombinedTest(p, m, i);
    }
  }

  function Raw(m: seq<real>, i: nat): Vec
    requires |m| == 16 && i < 6
  {
    Combined(Column(m, 3), Sign(i), Column(m, i / 2))
  }

  ghost predicate Distinct(frustum: array<VecT>)
    reads frustum
  {
    frustum.Length == 6 && forall i, j :: 0 <= i < j < 6 ==> frustum[i] != frustum[j]
  }

  method RawPlanes(frustum: array<VecT>, clip: array<real>)
    requires Distinct(frustum) && clip.Length == 16
    modifies frustum[..]
    ensures forall i :: 0 <= i < 6 ==> frustum[i].Value() == Raw(clip[..], i)
  {
    Set(frustum[0], clip[3] - clip[0], clip[7] - clip[4], clip[11] - clip[8], clip[15] - clip[12]);
    Set(frustum[1], clip[3] + clip[0], clip[7] + clip[4], clip[11] + clip[8], clip[15] + clip[12]);
    Set(frustum[2], clip[3] + clip[1], clip[7] + clip[5], clip[11] + clip[9], clip[15] + clip[13]);
    Set(frustum[3], clip[3] - clip[1], clip[7] - clip[5], clip[11] - clip[9], clip[15] - clip[13]);
    Set(frustum[4], clip[3] - clip[2], clip[7] - clip[6], clip[11] - clip[10], clip[15] - clip[14]);
    Set(frustum[5], clip[3] + clip[2], clip[7] + clip[6], clip[11] + clip[10], clip[15] + clip[14]);
  }

  /** The six planes; `lengths` are the square roots that normalising takes. A point
      is on the inner side of all of them just if its image is in clip space. */
  method ComputeFrustumPlanes(frustum: array<VecT>, clip: array<real>, lengths: seq<real>)
    requires Distinct(frustum) && clip.Length == 16 && |lengths| == 6
    modifies frustum[..]
    ensures forall p: Vec {:trigger InFirst(p, Planes(frustum), 6)} ::
              InFirst(p, Planes(frustum), 6) <==> InClipSpace(Transformed(p, clip[..]))
  {
    ghost var m := clip[..];
    RawPlanes(frustum, clip);
    for i := 0 to 6
      invariant forall j :: 0 <= j < i ==> Bounds(frustum[j].Value(), m, j)
      invariant forall j :: i <= j < 6 ==> frustum[j].Value() == Raw(m, j)
    {
      ghost var raw := frustum[i].Value();
      CombinedBounds(m, i);
      Normalize(frustum[i], lengths[i]);
      ghost var k :| 0.0 < k && frustum[i].Value() == Scaled(raw, k);
      ScaledBounds(raw, m, i, k);
    }
    forall p: Vec
      ensures InFirst(p, Planes(frustum), 6) <==> InClipSpace(Transformed(p, m))
    {
      SixTests(p, Planes(frustum), m);
    }
  }

  lemma SixTests(p: Vec, planes: seq<Vec>, m: seq<real>)
    requires |m| == 16 && |planes| == 6 && forall i :: 0 <= i < 6 ==> Bounds(planes[i], m, i)
    ensures InFirst(p, planes, 6) <==> InClipSpace(Transformed(p, m))
  {
    var v := Transformed(p, m);
    assert forall i :: 0 <= i < 6 ==> (Distance(p, planes[i]) >= 0.0 <==> Test(v, i) >= 0.0);
    if InFirst(p, planes, 6) {
      assert forall i :: 0 <= i < 6 ==> Distance(p, planes[i]) >= 0.0;
      assert Test(v, 0) >= 0.0 && Test(v, 1) >= 0.0 && Test(v, 2) >= 0.0 && Test(v, 3) >= 0.0 && Test(v, 4) >= 0.0
             && Test(v, 5) >= 0.0;
    }
  }

  method NewFrustum() returns (frustum: array<VecT>)
    ensures fresh(frustum) && Distinct(frustum) && forall i :: 0 <= i < 6 ==> fresh(frustum[i])
  {
    var zero := Vec(0.0, 0.0, 0.0, 0.0);
    var plane := new VecT(zero);
    frustum := new VecT[6](_ => plane);
    for i := 0 to 6
      invariant forall j :: 0 <= j < 6 ==> fresh(frustum[j])
      invariant forall j, k :: 0 <= j < k < i ==> frustum[j] != frustum[k]
    {
      var next := new VecT(zero);
      frustum[i] := next;
    }
  }

  /** Of the segment from a to b, the part from a' to b', or none if it is not
      visible, is what the matrix takes to clip space. */
  ghost predicate Shown(a: Vec, b: Vec, m: seq<real>, visible: bool, a': Vec, b': Vec)
    requires |m| == 16
  {
    && (visible ==> OnSegment(a', a, b) && OnSegment(b', a, b))
    && (visible ==> InClipSpace(Transformed(a', m)) && InClipSpace(Transformed(b', m)))
    && forall t :: 0.0 <= t <= 1.0 ==>
         (InClipSpace(Transformed(Along(a, b, t), m)) <==> visible && OnSegment(Along(a, b, t), a', b'))
  }

  /** The inner sides of the planes are what the matrix takes to clip space. */
  ghost predicate AreViewPlanes(planes: seq<Vec>, m: seq<real>)
    requires |m| == 16
  {
    |planes| == 6
    && forall p: Vec {:trigger InFirst(p, planes, 6)} :: InFirst(p, planes, 6) <==> InClipSpace(Transformed(p, m))
  }

  /** One line, from a to b: cut to what the planes show. */
  method CutLine(a: Vec, b: Vec, frustum: array<VecT>, ghost m: seq<real>)
      returns (visible: bool, ptA: VecT, ptB: VecT)
    requires |m| == 16 && AreViewPlanes(Planes(frustum), m)
    ensures Shown(a, b, m, visible, ptA.Value(), ptB.Value())
    ensures fresh(ptA) && fresh(ptB) && ptA != ptB
  {
    ghost var planes := Planes(frustum);
    ptA := new VecT(a);
    ptB := new VecT(b);
    assert ptA.Value() == a && ptB.Value() == b && Planes(frustum) == planes;
    visible := Clip(ptA, ptB, frustum);
    assert Planes(frustum) == planes;
    forall t | 0.0 <= t <= 1.0
      ensures InClipSpace(Transformed(Along(a, b, t), m))
              <==> visible && OnSegment(Along(a, b, t), ptA.Value(), ptB.Value())
    {
      assert InFirst(Along(a, b, t), planes, 6) <==> InClipSpace(Transformed(Along(a, b, t), m));
    }
  }

  /** Every segment has a part that the first n planes leave of it, or some plane
      leaves nothing. */
  lemma {:induction false} PartLeft(a: Vec, b: Vec, planes: seq<Vec>, n: nat)
      returns (visible: bool, s: real, u: real, a': Vec, b': Vec)
    requires n <= |planes|
    ensures visible ==> Cut(a, b, planes, n, s, u, a', b')
    ensures !visible ==> forall t :: 0.0 <= t <= 1.0 ==> !InFirst(Along(a, b, t), planes, |planes|)
  {
    visible, s, u, a', b' := true, 0.0, 1.0, a, b;
    if n > 0 {
      visible, s, u, a', b' := PartLeft(a, b, planes, n - 1);
      if visible {
        var d, e := Distance(a', planes[n - 1]), Distance(b', planes[n - 1]);
        if d < 0.0 && e < 0.0 {
          BothOutside(a, b, planes, n - 1, s, u, a', b');
          visible := false;
        } else if d < 0.0 {
          var k := Fraction(d, e);
          FirstOutside(a, b, planes, n - 1, s, u, a', b', k, Mix(s, u, k));
          s, a' := Mix(s, u, k), Along(a, b, Mix(s, u, k));
        } else if e < 0.0 {
          var k := Fraction(e, d);
          SecondOutside(a, b, planes, n - 1, s, u, a', b', k, Mix(u, s, k));
          u, b' := Mix(u, s, k), Along(a, b, Mix(u, s, k));
        } else {
          NoneOutside(a, b, planes, n - 1, s, u, a', b');
        }
      }
    }
  }

  lemma ViewPlanes(m: seq<real>) returns (planes: seq<Vec>)
    requires |m| == 16
    ensures AreViewPlanes(planes, m)
  {
    planes := seq(6, i requires 0 <= i < 6 => Raw(m, i));
    forall i | 0 <= i < 6
      ensures Bounds(planes[i], m, i)
    {
      CombinedBounds(m, i);
    }
    forall p: Vec
      ensures InFirst(p, planes, 6) <==> InClipSpace(Transformed(p, m))
    {
      SixTests(p, planes, m);
    }
  }

  /** Whatever the matrix, of every segment some part or none is shown. */
  lemma PartShown(a: Vec, b: Vec, m: seq<real>) returns (visible: bool, a': Vec, b': Vec)
    requires |m| == 16
    ensures Shown(a, b, m, visible, a', b')
  {
    var planes := ViewPlanes(m);
    var s, u;
    visible, s, u, a', b' := PartLeft(a, b, planes, 6);
    forall t | 0.0 <= t <= 1.0
      ensures InClipSpace(Transformed(Along(a, b, t), m)) <==> visible && OnSegment(Along(a, b, t), a', b')
    {
      assert InFirst(Along(a, b, t), planes, 6) <==> InClipSpace(Transformed(Along(a, b, t), m));
      if visible {
        CutIsIntersection(a, b, planes, s, u, a', b', t);
      }
    }
    if visible {
      assert InFirst(a', planes, 6) && InFirst(b', planes, 6);
    }
  }
}
