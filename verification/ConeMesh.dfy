/** The cone: a base of n slices and n side triangles. */
module ConeMesh {
  import opened Arithmetic
  import opened Triangles

  /** A vertex of the cone. Each ring has n + 1 slots; the last is at the place of
      the first, where the texture begins anew. */
  datatype Vertex = Centre | BaseRing(slot: nat) | SideRing(slot: nat) | Tip

  /** The places of the vertices. */
  datatype Spot = Middle | Rim(slice: nat) | Apex

  function Wrapped(n: nat, slot: nat): nat {
    if slot == n then 0 else slot
  }

  function SpotOf(n: nat, v: Vertex): Spot {
    match v
    case Centre => Middle
    case BaseRing(i) => Rim(Wrapped(n, i))
    case SideRing(i) => Rim(Wrapped(n, i))
    case Tip => Apex
  }

  /** The vertex with number i. */
  function VertexAt(n: nat, i: nat): Vertex {
    if i == 0 then Centre
    else if i <= n + 1 then BaseRing(i - 1)
    else if i <= 2 * n + 2 then SideRing(i - (n + 2))
    else Tip
  }

  /** The number at place k of the index list. */
  function IndexAt(n: nat, k: nat): nat {
    if k < 3 * n then
      if k % 3 == 0 then 0 else k / 3 + k % 3
    else
      var i, r := (k - 3 * n) / 3, (k - 3 * n) % 3;
      if r == 0 then 2 * n + 3 else if r == 1 then n + 2 + i + 1 else n + 2 + i
  }

  /** The vertices: the centre, the base's ring, the sides' ring and the tip. */
  ghost predicate ConeVertices(n: nat, vtx: seq<Vertex>) {
    && |vtx| == 2 * n + 4 && vtx[0] == Centre && vtx[2 * n + 3] == Tip
    && (forall s :: 0 <= s <= n ==> vtx[1 + s] == BaseRing(s))
    && forall s :: 0 <= s <= n ==> vtx[n + 2 + s] == SideRing(s)
  }

  /** The triangle from place k of the index list on has the corners a, b, c. */
  ghost predicate TriangleAt(vtx: seq<Vertex>, idx: seq<nat>, k: nat, a: Vertex, b: Vertex, c: Vertex) {
    && k + 2 < |idx| && idx[k] < |vtx| && idx[k + 1] < |vtx| && idx[k + 2] < |vtx|
    && vtx[idx[k]] == a && vtx[idx[k + 1]] == b && vtx[idx[k + 2]] == c
  }

  /** The triangles: first those of the base, then those of the sides, each between
      two neighbouring slots of its own ring, and in opposite senses. */
  ghost predicate ConeTriangles(n: nat, vtx: seq<Vertex>, idx: seq<nat>) {
    && |idx| == 6 * n
    && (forall i :: 0 <= i < n ==> TriangleAt(vtx, idx, 3 * i, Centre, BaseRing(i), BaseRing(i + 1)))
    && forall i :: 0 <= i < n ==> TriangleAt(vtx, idx, 3 * n + 3 * i, Tip, SideRing(i + 1), SideRing(i))
  }

  lemma PlacesOfSlice(n: nat, i: nat)
    requires i < n
    ensures IndexAt(n, 3 * i) == 0 && IndexAt(n, 3 * i + 1) == 1 + i && IndexAt(n, 3 * i + 2) == 2 + i
    ensures IndexAt(n, 3 * n + 3 * i) == 2 * n + 3 && IndexAt(n, 3 * n + 3 * i + 1) == n + 3 + i
    ensures IndexAt(n, 3 * n + 3 * i + 2) == n + 2 + i
  {
    DivModUnique(3 * i, 3, i, 0);
    DivModUnique(3 * i + 1, 3, i, 1);
    DivModUnique(3 * i + 2, 3, i, 2);
  }

  lemma BaseSlice(n: nat, vtx: seq<Vertex>, idx: seq<nat>, i: nat)
    requires vtx == seq(2 * n + 4, i requires 0 <= i => VertexAt(n, i))
    requires idx == seq(6 * n, k requires 0 <= k => IndexAt(n, k)) && i < n
    ensures TriangleAt(vtx, idx, 3 * i, Centre, BaseRing(i), BaseRing(i + 1))
  {
    PlacesOfSlice(n, i);
  }

  lemma SideSlice(n: nat, vtx: seq<Vertex>, idx: seq<nat>, i: nat)
    requires vtx == seq(2 * n + 4, i requires 0 <= i => VertexAt(n, i))
    requires idx == seq(6 * n, k requires 0 <= k => IndexAt(n, k)) && i < n
    ensures TriangleAt(vtx, idx, 3 * n + 3 * i, Tip, SideRing(i + 1), SideRing(i))
  {
    PlacesOfSlice(n, i);
  }

  lemma ConeShape(n: nat, vtx: seq<Vertex>, idx: seq<nat>)
    requires vtx == seq(2 * n + 4, i requires 0 <= i => VertexAt(n, i))
    requires idx == seq(6 * n, k requires 0 <= k => IndexAt(n, k))
    ensures ConeVertices(n, vtx) && ConeTriangles(n, vtx, idx)
  {
    forall i | 0 <= i < n
      ensures TriangleAt(vtx, idx, 3 * i, Centre, BaseRing(i), BaseRing(i + 1))
    {
      BaseSlice(n, vtx, idx, i);
    }
    forall i | 0 <= i < n
      ensures TriangleAt(vtx, idx, 3 * n + 3 * i, Tip, SideRing(i + 1), SideRing(i))
    {
      SideSlice(n, vtx, idx, i);
    }
  }

  lemma NumberedAs(n: nat, vtx: seq<Vertex>, v: nat)
    requires ConeVertices(n, vtx) && v < |vtx|
    ensures vtx[v] == VertexAt(n, v)
  {
    assert 0 < v <= n + 1 ==> vtx[1 + (v - 1)] == BaseRing(v - 1);
    assert n + 1 < v <= 2 * n + 2 ==> vtx[n + 2 + (v - (n + 2))] == SideRing(v - (n + 2));
  }

  /** Each vertex has one number. */
  lemma SameNumber(n: nat, vtx: seq<Vertex>, u: nat, v: nat)
    requires ConeVertices(n, vtx) && u < |vtx| && v < |vtx| && vtx[u] == vtx[v]
    ensures u == v
  {
    NumberedAs(n, vtx, u);
    NumberedAs(n, vtx, v);
  }

  /** A corner's number is that of its vertex. */
  lemma CornerNumbers(n: nat, vtx: seq<Vertex>, idx: seq<nat>, k: nat, a: nat, b: nat, c: nat)
    requires ConeVertices(n, vtx) && a < |vtx| && b < |vtx| && c < |vtx|
    requires TriangleAt(vtx, idx, k, vtx[a], vtx[b], vtx[c])
    ensures idx[k] == a && idx[k + 1] == b && idx[k + 2] == c
  {
    SameNumber(n, vtx, idx[k], a);
    SameNumber(n, vtx, idx[k + 1], b);
    SameNumber(n, vtx, idx[k + 2], c);
  }

  /** The numbers of the corners of the base's slice i, and of the side i. */
  lemma BaseNumbers(n: nat, vtx: seq<Vertex>, idx: seq<nat>, i: nat)
    requires ConeVertices(n, vtx) && ConeTriangles(n, vtx, idx) && i < n
    ensures 3 * i + 2 < |idx| && idx[3 * i] == 0 && idx[3 * i + 1] == 1 + i && idx[3 * i + 2] == 2 + i
  {
    var s := i + 1;
    assert vtx[1 + i] == BaseRing(i) && vtx[1 + s] == BaseRing(s);
    CornerNumbers(n, vtx, idx, 3 * i, 0, 1 + i, 2 + i);
  }

  lemma SideNumbers(n: nat, vtx: seq<Vertex>, idx: seq<nat>, i: nat)
    requires ConeVertices(n, vtx) && ConeTriangles(n, vtx, idx) && i < n
    ensures 3 * n + 3 * i + 2 < |idx| && idx[3 * n + 3 * i] == 2 * n + 3 && idx[3 * n + 3 * i + 1] == n + 3 + i
            && idx[3 * n + 3 * i + 2] == n + 2 + i
  {
    var s := i + 1;
    assert vtx[n + 2 + i] == SideRing(i) && vtx[n + 2 + s] == SideRing(s);
    CornerNumbers(n, vtx, idx, 3 * n + 3 * i, 2 * n + 3, n + 3 + i, n + 2 + i);
  }

  /** No vertex is left over. */
  lemma EveryVertexUsed(n: nat, vtx: seq<Vertex>, idx: seq<nat>, v: nat)
    requires 0 < n && ConeVertices(n, vtx) && ConeTriangles(n, vtx, idx) && v < |vtx|
    ensures exists k :: 0 <= k < |idx| && idx[k] == v
  {
    var slot := if 0 < v <= n + 1 then v - 1 else if n + 1 < v <= 2 * n + 2 then v - (n + 2) else 0;
    var i := if slot < n then slot else n - 1;
    BaseNumbers(n, vtx, idx, i);
    SideNumbers(n, vtx, idx, i);
  }

  method CreateCone(sliceCount: nat) returns (vtx: seq<Vertex>, idx: seq<nat>)
    ensures vtx == seq(2 * sliceCount + 4, i requires 0 <= i => VertexAt(sliceCount, i))
    ensures idx == seq(6 * sliceCount, k requires 0 <= k => IndexAt(sliceCount, k))
    ensures ConeVertices(sliceCount, vtx) && ConeTriangles(sliceCount, vtx, idx)
  {
    vtx := [Centre];
    for i := 0 to sliceCount + 1
      invariant |vtx| == i + 1 && forall j :: 0 <= j < |vtx| ==> vtx[j] == VertexAt(sliceCount, j)
    {
      vtx := vtx + [BaseRing(i)];
    }
    for i := 0 to sliceCount + 1
      invariant |vtx| == sliceCount + 2 + i && forall j :: 0 <= j < |vtx| ==> vtx[j] == VertexAt(sliceCount, j)
    {
      vtx := vtx + [SideRing(i)];
    }
    vtx := vtx + [Tip];
    idx := [];
    for i := 0 to sliceCount
      invariant |idx| == 3 * i && forall k :: 0 <= k < |idx| ==> idx[k] == IndexAt(sliceCount, k)
    {
      idx := idx + [0];
      idx := idx + [i + 1];
      idx := idx + [i + 2];
    }
    var tipIndex := |vtx| - 1;
    var sideStartIndex := sliceCount + 2;
    for i := 0 to sliceCount
      invariant |idx| == 3 * sliceCount + 3 * i && forall k :: 0 <= k < |idx| ==> idx[k] == IndexAt(sliceCount, k)
    {
      idx := idx + [tipIndex];
      idx := idx + [sideStartIndex + i + 1];
      idx := idx + [sideStartIndex + i];
    }
    ConeShape(sliceCount, vtx, idx);
  }

  lemma IndexInRange(n: nat, k: nat)
    requires k < 6 * n
    ensures IndexAt(n, k) < 2 * n + 4
  {
  }

  /** The corners of the triangles, by their places: slices of the base, then sides. */
  function SpotAt(n: nat, k: nat): Spot {
    SpotOf(n, VertexAt(n, IndexAt(n, k)))
  }

  function Spots(n: nat): seq<Spot> {
    seq(6 * n, k requires 0 <= k => SpotAt(n, k))
  }

  /** Corner r of the base's slice i, and of the side i. */
  lemma SpotsOfSlice(n: nat, i: nat, r: nat)
    requires i < n && r < 3
    ensures SpotAt(n, 3 * i + r) == if r == 0 then Middle else Rim(Wrapped(n, i + r - 1))
    ensures SpotAt(n, 3 * n + 3 * i + r) == if r == 0 then Apex else Rim(Wrapped(n, i + 2 - r))
  {
    DivModUnique(3 * i + r, 3, i, r);
  }

  /** Corner r of triangle t: a slice of the base for t < n, else a side. */
  function Corner(n: nat, t: nat, r: nat): Spot
    requires r < 3
  {
    if t < n then if r == 0 then Middle else Rim(Wrapped(n, t + r - 1))
    else if r == 0 then Apex else Rim(Wrapped(n, t - n + 2 - r))
  }

  lemma SpotIsCorner(n: nat, t: nat, r: nat)
    requires t < 2 * n && r < 3
    ensures 3 * t + r < |Spots(n)| && Spots(n)[3 * t + r] == Corner(n, t, r)
  {
    if t < n {
      SpotsOfSlice(n, t, r);
    } else {
      SpotsOfSlice(n, t - n, r);
    }
  }

  lemma SixTimes(n: nat)
    ensures |Spots(n)| == 6 * n && |Spots(n)| % 3 == 0
  {
    DivModUnique(6 * n, 3, 2 * n, 0);
  }

  lemma NextIs(t: nat, r: nat)
    requires r < 3
    ensures Next(3 * t + r) == 3 * t + (r + 1) % 3
  {
    DivModUnique(3 * t + r, 3, t, r);
  }

  /** The edge from corner r of triangle t. */
  lemma EdgeIs(n: nat, t: nat, r: nat)
    requires t < 2 * n && r < 3
    ensures |Spots(n)| % 3 == 0 && 3 * t + r < |Spots(n)|
    ensures Edge(Spots(n), 3 * t + r) == (Corner(n, t, r), Corner(n, t, (r + 1) % 3))
  {
    NextIs(t, r);
    SixTimes(n);
    SpotIsCorner(n, t, r);
    SpotIsCorner(n, t, (r + 1) % 3);
  }

  lemma EdgeTellsCorner(n: nat, t: nat, r: nat, t': nat, r': nat)
    requires 3 <= n && t < 2 * n && r < 3 && t' < 2 * n && r' < 3
    requires Corner(n, t, r) == Corner(n, t', r') && Corner(n, t, (r + 1) % 3) == Corner(n, t', (r' + 1) % 3)
    ensures t == t' && r == r'
  {
  }

  /** The triangle and the corner from which an edge is traversed the other way. */
  function Across(n: nat, t: nat, r: nat): (nat, nat)
    requires t < 2 * n && r < 3
  {
    if t < n then
      if r == 0 then (if t == 0 then n - 1 else t - 1, 2)
      else if r == 1 then (n + t, 1)
      else (if t == n - 1 then 0 else t + 1, 0)
    else
      if r == 0 then (if t == 2 * n - 1 then n else t + 1, 2)
      else if r == 1 then (t - n, 1)
      else (if t == n then 2 * n - 1 else t - 1, 0)
  }

  lemma AcrossReverses(n: nat, t: nat, r: nat)
    requires t < 2 * n && r < 3
    ensures var (t', r') := Across(n, t, r);
            t' < 2 * n && r' < 3 && Corner(n, t', r') == Corner(n, t, (r + 1) % 3)
              && Corner(n, t', (r' + 1) % 3) == Corner(n, t, r)
  {
  }

  ghost predicate Closed(n: nat) {
    && |Spots(n)| % 3 == 0 && Oriented(Spots(n))
    && forall k :: 0 <= k < |Spots(n)| ==> HasReverse(Spots(n), k)
  }

  lemma Decoded(n: nat, k: nat)
    requires k < 6 * n
    ensures k / 3 < 2 * n && k == 3 * (k / 3) + k % 3 && k % 3 < 3
  {
  }

  /** The edge at place k. */
  function CornersAt(n: nat, k: nat): (Spot, Spot) {
    (Corner(n, k / 3, k % 3), Corner(n, k / 3, (k % 3 + 1) % 3))
  }

  lemma EdgeAt(n: nat, k: nat)
    requires k < 6 * n
    ensures |Spots(n)| % 3 == 0 && |Spots(n)| == 6 * n && Edge(Spots(n), k) == CornersAt(n, k)
  {
    SixTimes(n);
    Decoded(n, k);
    EdgeIs(n, k / 3, k % 3);
  }

  lemma SameCorners(n: nat, j: nat, k: nat)
    requires 3 <= n && j < 6 * n && k < 6 * n && CornersAt(n, j) == CornersAt(n, k)
    ensures j == k
  {
    Decoded(n, j);
    Decoded(n, k);
    SamePlace(n, j / 3, j % 3, k / 3, k % 3);
  }

  lemma SamePlace(n: nat, t: nat, r: nat, t': nat, r': nat)
    requires 3 <= n && t < 2 * n && r < 3 && t' < 2 * n && r' < 3
    requires (Corner(n, t, r), Corner(n, t, (r + 1) % 3)) == (Corner(n, t', r'), Corner(n, t', (r' + 1) % 3))
    ensures 3 * t + r == 3 * t' + r'
  {
    EdgeTellsCorner(n, t, r, t', r');
  }

  lemma SameEdge(n: nat, j: nat, k: nat)
    requires 3 <= n && j < 6 * n && k < 6 * n
    ensures |Spots(n)| % 3 == 0 && (Edge(Spots(n), j) == Edge(Spots(n), k) ==> j == k)
  {
    EdgeAt(n, j);
    EdgeAt(n, k);
    if CornersAt(n, j) == CornersAt(n, k) {
      SameCorners(n, j, k);
    }
  }

  /** The place from which the edge at place k is traversed the other way. */
  lemma ReversePlace(n: nat, k: nat) returns (j: nat)
    requires k < 6 * n
    ensures j < 6 * n && CornersAt(n, j) == (CornersAt(n, k).1, CornersAt(n, k).0)
  {
    Decoded(n, k);
    AcrossReverses(n, k / 3, k % 3);
    var (t', r') := Across(n, k / 3, k % 3);
    j := 3 * t' + r';
    DivModUnique(j, 3, t', r');
  }

  lemma EveryReverse(n: nat, k: nat)
    requires k < 6 * n
    ensures |Spots(n)| % 3 == 0 && HasReverse(Spots(n), k)
  {
    var j := ReversePlace(n, k);
    EdgeAt(n, k);
    EdgeAt(n, j);
    assert Edge(Spots(n), j) == Reversed(Edge(Spots(n), k));
  }

  /** With one slice, or two, an edge of the rim occurs twice. */
  lemma TwiceWhenFew(n: nat)
    requires n == 1 || n == 2
    ensures |Spots(n)| % 3 == 0 && !Oriented(Spots(n))
  {
    EdgeAt(n, 1);
    EdgeAt(n, 6 * n - 2);
    assert Edge(Spots(n), 1) == Edge(Spots(n), 6 * n - 2);
  }

  /** The cone is a closed surface just if it has at least three slices, or none. */
  lemma ConeClosedIff(n: nat)
    ensures Closed(n) <==> n == 0 || 3 <= n
  {
    SixTimes(n);
    if n == 1 || n == 2 {
      TwiceWhenFew(n);
    } else {
      forall j, k | 0 <= j < k < 6 * n
        ensures Edge(Spots(n), j) != Edge(Spots(n), k)
      {
        SameEdge(n, j, k);
      }
      forall k | 0 <= k < 6 * n
        ensures HasReverse(Spots(n), k)
      {
        EveryReverse(n, k);
      }
    }
  }
}
