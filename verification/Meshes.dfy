/** Index lists of triangles, three indices each, and their directed edges. */
module Triangles {

  /** The place of the next corner of the triangle of place k. */
  function Next(k: nat): nat {
    if k % 3 == 2 then k - 2 else k + 1
  }

  /** The directed edge from place k to the next corner. */
  function Edge<T>(idx: seq<T>, k: nat): (T, T)
    requires |idx| % 3 == 0 && k < |idx|
  {
    (idx[k], idx[Next(k)])
  }

  function Reversed<T>(e: (T, T)): (T, T) {
    (e.1, e.0)
  }

  /** No directed edge occurs twice. */
  ghost predicate Oriented<T>(idx: seq<T>)
    requires |idx| % 3 == 0
  {
    forall j, k :: 0 <= j < k < |idx| ==> Edge(idx, j) != Edge(idx, k)
  }

  /** The reverse of the edge at place k occurs. */
  ghost predicate HasReverse<T>(idx: seq<T>, k: nat)
    requires |idx| % 3 == 0 && k < |idx|
  {
    exists j :: 0 <= j < |idx| && Edge(idx, j) == Reversed(Edge(idx, k))
  }
}

/** Lists of triangles that differ only in what they name the corners. */
module Renaming {
  import opened Triangles

  /** a and b have the same corner at places j and k, or neither has. */
  ghost predicate Agree<T(!new), U(!new)>(a: seq<T>, b: seq<U>, j: nat, k: nat)
    requires |a| == |b| && j < |a| && k < |a|
  {
    a[j] == a[k] <==> b[j] == b[k]
  }

  ghost predicate Renamed<T(!new), U(!new)>(a: seq<T>, b: seq<U>) {
    && |a| == |b| && |a| % 3 == 0
    && forall j, k :: 0 <= j < |a| && 0 <= k < |a| ==> Agree(a, b, j, k)
  }

  lemma EdgesRenamed<T(!new), U(!new)>(a: seq<T>, b: seq<U>, j: nat, k: nat)
    requires Renamed(a, b) && j < |a| && k < |a|
    ensures Edge(a, j) == Edge(a, k) <==> Edge(b, j) == Edge(b, k)
    ensures Edge(a, j) == Reversed(Edge(a, k)) <==> Edge(b, j) == Reversed(Edge(b, k))
  {
    assert Agree(a, b, j, k) && Agree(a, b, Next(j), Next(k)) && Agree(a, b, j, Next(k)) && Agree(a, b, Next(j), k);
  }

  lemma OrientedRenamed<T(!new), U(!new)>(a: seq<T>, b: seq<U>)
    requires Renamed(a, b) && Oriented(a)
    ensures Oriented(b)
  {
    forall j, k | 0 <= j < k < |b|
      ensures Edge(b, j) != Edge(b, k)
    {
      EdgesRenamed(a, b, j, k);
    }
  }

  lemma ReverseRenamed<T(!new), U(!new)>(a: seq<T>, b: seq<U>, k: nat)
    requires Renamed(a, b) && k < |a|
    ensures HasReverse(a, k) <==> HasReverse(b, k)
  {
    forall j | 0 <= j < |a|
      ensures Edge(a, j) == Reversed(Edge(a, k)) <==> Edge(b, j) == Reversed(Edge(b, k))
    {
      EdgesRenamed(a, b, j, k);
    }
  }
}

/** The grid: (sizeX + 1) * (sizeZ + 1) vertices, two triangles to a cell. */
module GridMesh {
  import opened Arithmetic

  datatype Point = Point(x: int, z: int)

  /** A vertex, by its position and texture coordinates; y is 0, the normal points up. */
  datatype Vertex = Vertex(position: Point, uv: (int, int))

  /** The number of the vertex at p. */
  function Number(sizeX: int, p: Point): int {
    (sizeX + 1) * p.z + p.x
  }

  /** The vertices are numbered row by row. */
  function Place(sizeX: nat, i: int): Point {
    Point(i % (sizeX + 1), i / (sizeX + 1))
  }

  /** The six corners of the two triangles of cell (x, z). */
  function Corner(x: int, z: int, r: nat): Point {
    match r
    case 0 => Point(x, z + 1)
    case 1 => Point(x + 1, z)
    case 2 => Point(x, z)
    case 3 => Point(x + 1, z)
    case 4 => Point(x, z + 1)
    case _ => Point(x + 1, z + 1)
  }

  function Cells(sizeX: int, sizeZ: int): nat {
    if sizeX > 0 && sizeZ > 0 then sizeX * sizeZ else 0
  }

  /** The point at place k of the index list. */
  function PointAt(sizeX: int, k: nat): Point
    requires sizeX > 0
  {
    Corner(k / 6 % sizeX, k / 6 / sizeX, k % 6)
  }

  function Indices(sizeX: int, sizeZ: int): seq<int> {
    seq(6 * Cells(sizeX, sizeZ), k requires 0 <= k < 6 * Cells(sizeX, sizeZ) => Number(sizeX, PointAt(sizeX, k)))
  }

  lemma CellOf(sizeX: int, x: int, z: int, r: nat)
    requires 0 <= x < sizeX && 0 <= z && r < 6
    ensures 0 <= sizeX * z + x && PointAt(sizeX, 6 * (sizeX * z + x) + r) == Corner(x, z, r)
  {
    var c := sizeX * z + x;
    DivModUnique(6 * c + r, 6, c, r);
    DivModUnique(c, sizeX, z, x);
  }

  lemma InRow(sizeX: int, x: int, z: int, i: nat)
    requires 0 <= x <= sizeX && 0 <= z && i == (sizeX + 1) * z + x
    ensures Place(sizeX, i) == Point(x, z)
  {
    DivModUnique(i, sizeX + 1, z, x);
  }

  function VertexAt(sizeX: nat, sizeZ: int, i: nat): Vertex {
    var p := Place(sizeX, i);
    Vertex(p, (p.x, sizeZ - p.z))
  }

  function Vertices(sizeX: int, sizeZ: int): seq<Vertex> {
    if sizeX < 0 || sizeZ < 0 then [] else seq((sizeX + 1) * (sizeZ + 1),
                                               i requires 0 <= i => VertexAt(sizeX, sizeZ, i))
  }

  /** The vertex for x and z: there it lies, and the texture runs with x and against z. */
  ghost predicate VertexIs(sizeX: int, sizeZ: int, vtx: seq<Vertex>, x: int, z: int) {
    var i := (sizeX + 1) * z + x;
    0 <= i < |vtx| && vtx[i] == Vertex(Point(x, z), (x, sizeZ - z))
  }

  ghost predicate GridVertices(sizeX: int, sizeZ: int, vtx: seq<Vertex>) {
    && |vtx| == (if sizeX < 0 || sizeZ < 0 then 0 else (sizeX + 1) * (sizeZ + 1))
    && forall x, z :: 0 <= x <= sizeX && 0 <= z <= sizeZ ==> VertexIs(sizeX, sizeZ, vtx, x, z)
  }

  /** Place k of the index list names a vertex at p. */
  ghost predicate CornerAt(vtx: seq<Vertex>, idx: seq<int>, k: int, p: Point) {
    0 <= k < |idx| && 0 <= idx[k] < |vtx| && vtx[idx[k]].position == p
  }

  /** The three corners from place k of the index list on lie at a, b and c. */
  ghost predicate TriangleAt(vtx: seq<Vertex>, idx: seq<int>, k: int, a: Point, b: Point, c: Point) {
    CornerAt(vtx, idx, k, a) && CornerAt(vtx, idx, k + 1, b) && CornerAt(vtx, idx, k + 2, c)
  }

  /** Cell number c, from (x, z) to (x + 1, z + 1), in two halves. */
  ghost predicate HalvesAt(vtx: seq<Vertex>, idx: seq<int>, c: int, x: int, z: int) {
    && TriangleAt(vtx, idx, 6 * c, Point(x, z + 1), Point(x + 1, z), Point(x, z))
    && TriangleAt(vtx, idx, 6 * c + 3, Point(x + 1, z), Point(x, z + 1), Point(x + 1, z + 1))
  }

  /** Cells are numbered row by row. */
  ghost predicate CellIs(sizeX: int, vtx: seq<Vertex>, idx: seq<int>, x: int, z: int) {
    HalvesAt(vtx, idx, sizeX * z + x, x, z)
  }

  ghost predicate GridTriangles(sizeX: int, sizeZ: int, vtx: seq<Vertex>, idx: seq<int>) {
    && |idx| == (if sizeX <= 0 || sizeZ <= 0 then 0 else 6 * (sizeX * sizeZ))
    && forall x, z :: 0 <= x < sizeX && 0 <= z < sizeZ ==> CellIs(sizeX, vtx, idx, x, z)
  }

  lemma VertexPlace(sizeX: nat, sizeZ: nat, x: nat, z: nat, i: int)
    requires x <= sizeX && z <= sizeZ && i == (sizeX + 1) * z + x
    ensures 0 <= i < (sizeX + 1) * (sizeZ + 1) && VertexAt(sizeX, sizeZ, i) == Vertex(Point(x, z), (x, sizeZ - z))
  {
    Product(z, sizeZ, sizeX + 1);
    InRow(sizeX, x, z, i);
  }

  lemma VertexThere(sizeX: nat, sizeZ: nat, vtx: seq<Vertex>, x: nat, z: nat)
    requires vtx == Vertices(sizeX, sizeZ) && x <= sizeX && z <= sizeZ
    ensures VertexIs(sizeX, sizeZ, vtx, x, z)
  {
    VertexPlace(sizeX, sizeZ, x, z, (sizeX + 1) * z + x);
  }

  lemma NumberThere(sizeX: nat, sizeZ: nat, vtx: seq<Vertex>, p: Point, i: int)
    requires vtx == Vertices(sizeX, sizeZ) && 0 <= p.x <= sizeX && 0 <= p.z <= sizeZ && i == Number(sizeX, p)
    ensures 0 <= i < |vtx| && vtx[i].position == p
  {
    VertexPlace(sizeX, sizeZ, p.x, p.z, i);
  }

  lemma CellBelow(sizeX: nat, sizeZ: nat, x: nat, z: nat, c: int)
    requires x < sizeX && z < sizeZ && c == sizeX * z + x
    ensures 0 <= c < sizeX * sizeZ
  {
    Product(z + 1, sizeZ, sizeX);
  }

  /** What stands at the place of corner r of cell number c. */
  lemma IndexThere(sizeX: nat, sizeZ: nat, idx: seq<int>, x: nat, z: nat, c: int, r: nat)
    requires idx == Indices(sizeX, sizeZ) && x < sizeX && z < sizeZ && c == sizeX * z + x && r < 6
    ensures 0 <= 6 * c + r < |idx| && idx[6 * c + r] == Number(sizeX, Corner(x, z, r))
  {
    CellBelow(sizeX, sizeZ, x, z, c);
    CellOf(sizeX, x, z, r);
  }

  /** Corner r of a cell, as the position of a vertex. */
  lemma CornerThere(sizeX: nat, sizeZ: nat, vtx: seq<Vertex>, idx: seq<int>, x: nat, z: nat, c: int, r: nat)
    requires vtx == Vertices(sizeX, sizeZ) && idx == Indices(sizeX, sizeZ)
    requires x < sizeX && z < sizeZ && c == sizeX * z + x && r < 6
    ensures CornerAt(vtx, idx, 6 * c + r, Corner(x, z, r))
  {
    IndexThere(sizeX, sizeZ, idx, x, z, c, r);
    NumberThere(sizeX, sizeZ, vtx, Corner(x, z, r), Number(sizeX, Corner(x, z, r)));
  }

  lemma HalvesThere(sizeX: nat, sizeZ: nat, vtx: seq<Vertex>, idx: seq<int>, x: nat, z: nat, c: int)
    requires vtx == Vertices(sizeX, sizeZ) && idx == Indices(sizeX, sizeZ)
    requires x < sizeX && z < sizeZ && c == sizeX * z + x
    ensures HalvesAt(vtx, idx, c, x, z)
  {
    CornerThere(sizeX, sizeZ, vtx, idx, x, z, c, 0);
    CornerThere(sizeX, sizeZ, vtx, idx, x, z, c, 1);
    CornerThere(sizeX, sizeZ, vtx, idx, x, z, c, 2);
    CornerThere(sizeX, sizeZ, vtx, idx, x, z, c, 3);
    CornerThere(sizeX, sizeZ, vtx, idx, x, z, c, 4);
    CornerThere(sizeX, sizeZ, vtx, idx, x, z, c, 5);
  }

  lemma AllVertices(sizeX: int, sizeZ: int, vtx: seq<Vertex>)
    requires vtx == Vertices(sizeX, sizeZ)
    ensures GridVertices(sizeX, sizeZ, vtx)
  {
    forall x, z | 0 <= x <= sizeX && 0 <= z <= sizeZ
      ensures VertexIs(sizeX, sizeZ, vtx, x, z)
    {
      VertexThere(sizeX, sizeZ, vtx, x, z);
    }
  }

  lemma AllTriangles(sizeX: int, sizeZ: int, vtx: seq<Vertex>, idx: seq<int>)
    requires vtx == Vertices(sizeX, sizeZ) && idx == Indices(sizeX, sizeZ)
    ensures GridTriangles(sizeX, sizeZ, vtx, idx)
  {
    forall x, z | 0 <= x < sizeX && 0 <= z < sizeZ
      ensures CellIs(sizeX, vtx, idx, x, z)
    {
      HalvesThere(sizeX, sizeZ, vtx, idx, x, z, sizeX * z + x);
    }
  }

  /** Twice the area of a triangle in the plane, negative if it turns clockwise. */
  function Turn(a: Point, b: Point, c: Point): int {
    (b.x - a.x) * (c.z - a.z) - (b.z - a.z) * (c.x - a.x)
  }

  /** The cell with number c. */
  lemma NumberedCell(sizeX: nat, sizeZ: nat, c: nat) returns (x: nat, z: nat)
    requires 0 < sizeX && c < sizeX * sizeZ
    ensures x < sizeX && z < sizeZ && c == sizeX * z + x
  {
    x, z := c % sizeX, c / sizeX;
    if z >= sizeZ {
      Product(sizeZ, z, sizeX);
    }
  }

  lemma HalvesOf(sizeX: nat, sizeZ: nat, vtx: seq<Vertex>, idx: seq<int>, c: nat) returns (x: nat, z: nat)
    requires 0 < sizeX && 0 < sizeZ && GridTriangles(sizeX, sizeZ, vtx, idx) && c < sizeX * sizeZ
    ensures HalvesAt(vtx, idx, c, x, z)
  {
    x, z := NumberedCell(sizeX, sizeZ, c);
    assert CellIs(sizeX, vtx, idx, x, z);
  }

  /** The triangle from place k on turns clockwise and is half a cell large. */
  ghost predicate TurnsAt(vtx: seq<Vertex>, idx: seq<int>, k: int) {
    && 0 <= k && k + 2 < |idx|
    && 0 <= idx[k] < |vtx| && 0 <= idx[k + 1] < |vtx| && 0 <= idx[k + 2] < |vtx|
    && Turn(vtx[idx[k]].position, vtx[idx[k + 1]].position, vtx[idx[k + 2]].position) == -1
  }

  /** All triangles turn the same way. */
  lemma TurnsAlike(sizeX: nat, sizeZ: nat, vtx: seq<Vertex>, idx: seq<int>, t: nat)
    requires 0 < sizeX && 0 < sizeZ && GridTriangles(sizeX, sizeZ, vtx, idx) && t < 2 * (sizeX * sizeZ)
    ensures TurnsAt(vtx, idx, 3 * t)
  {
    var x, z := HalvesOf(sizeX, sizeZ, vtx, idx, t / 2);
    HalfTurns(x, z);
  }

  lemma HalfTurns(x: int, z: int)
    ensures Turn(Point(x, z + 1), Point(x + 1, z), Point(x, z)) == -1
    ensures Turn(Point(x + 1, z), Point(x, z + 1), Point(x + 1, z + 1)) == -1
  {
  }

  method CreateGrid(sizeX: int, sizeZ: int) returns (vtx: seq<Vertex>, idx: seq<int>)
    ensures vtx == Vertices(sizeX, sizeZ) && idx == Indices(sizeX, sizeZ)
    ensures GridVertices(sizeX, sizeZ, vtx) && GridTriangles(sizeX, sizeZ, vtx, idx)
  {
    vtx := [];
    var z := 0;
    while z < sizeZ + 1
      invariant 0 <= z && (z <= sizeZ + 1 || z == 0)
      invariant |vtx| == if sizeX < 0 then 0 else (sizeX + 1) * z
      invariant forall i :: 0 <= i < |vtx| ==> sizeX >= 0 && vtx[i] == VertexAt(sizeX, sizeZ, i)
    {
      vtx := PushVertices(vtx, sizeX, sizeZ, z);
      z := z + 1;
    }
    idx := [];
    z := 0;
    while z < sizeZ
      invariant 0 <= z && (z <= sizeZ || z == 0)
      invariant |idx| == if sizeX <= 0 then 0 else 6 * (sizeX * z)
      invariant forall k :: 0 <= k < |idx| ==> sizeX > 0 && idx[k] == Number(sizeX, PointAt(sizeX, k))
    {
      idx := PushTriangles(idx, sizeX, z);
      z := z + 1;
    }
    AllVertices(sizeX, sizeZ, vtx);
    AllTriangles(sizeX, sizeZ, vtx, idx);
  }

  /** The vertices of row z. */
  method PushVertices(vtx0: seq<Vertex>, sizeX: int, sizeZ: int, z: nat) returns (vtx: seq<Vertex>)
    requires |vtx0| == if sizeX < 0 then 0 else (sizeX + 1) * z
    requires forall i :: 0 <= i < |vtx0| ==> sizeX >= 0 && vtx0[i] == VertexAt(sizeX, sizeZ, i)
    ensures |vtx| == if sizeX < 0 then 0 else (sizeX + 1) * (z + 1)
    ensures forall i :: 0 <= i < |vtx| ==> sizeX >= 0 && vtx[i] == VertexAt(sizeX, sizeZ, i)
  {
    vtx := vtx0;
    var x := 0;
    while x < sizeX + 1
      invariant 0 <= x && (x <= sizeX + 1 || x == 0)
      invariant |vtx| == |vtx0| + x
      invariant forall i :: 0 <= i < |vtx| ==> sizeX >= 0 && vtx[i] == VertexAt(sizeX, sizeZ, i)
    {
      InRow(sizeX, x, z, |vtx|);
      vtx := vtx + [Vertex(Point(x, z), (x, sizeZ - z))];
      x := x + 1;
    }
  }

  /** The triangles of row z. */
  method PushTriangles(idx0: seq<int>, sizeX: int, z: nat) returns (idx: seq<int>)
    requires |idx0| == if sizeX <= 0 then 0 else 6 * (sizeX * z)
    requires forall k :: 0 <= k < |idx0| ==> sizeX > 0 && idx0[k] == Number(sizeX, PointAt(sizeX, k))
    ensures |idx| == if sizeX <= 0 then 0 else 6 * (sizeX * (z + 1))
    ensures forall k :: 0 <= k < |idx| ==> sizeX > 0 && idx[k] == Number(sizeX, PointAt(sizeX, k))
  {
    idx := idx0;
    var x := 0;
    while x < sizeX
      invariant 0 <= x && (x <= sizeX || x == 0)
      invariant |idx| == |idx0| + 6 * x
      invariant forall k :: 0 <= k < |idx| ==> sizeX > 0 && idx[k] == Number(sizeX, PointAt(sizeX, k))
    {
      idx := PushCell(idx, sizeX, x, z);
      x := x + 1;
    }
  }

  method PushCell(idx0: seq<int>, sizeX: int, x: nat, z: nat) returns (idx: seq<int>)
    requires x < sizeX && |idx0| == 6 * (sizeX * z + x)
    requires forall k :: 0 <= k < |idx0| ==> idx0[k] == Number(sizeX, PointAt(sizeX, k))
    ensures |idx| == |idx0| + 6 && forall k :: 0 <= k < |idx| ==> idx[k] == Number(sizeX, PointAt(sizeX, k))
  {
    idx := idx0;
    forall r: nat | r < 6
      ensures PointAt(sizeX, |idx0| + r) == Corner(x, z, r)
    {
      CellOf(sizeX, x, z, r);
    }
    idx := idx + [(sizeX + 1) * (z + 1) + x];
    idx := idx + [(sizeX + 1) * z + (x + 1)];
    idx := idx + [(sizeX + 1) * z + x];
    idx := idx + [(sizeX + 1) * z + (x + 1)];
    idx := idx + [(sizeX + 1) * (z + 1) + x];
    idx := idx + [(sizeX + 1) * (z + 1) + (x + 1)];
    PushedCell(idx0, idx, sizeX, x, z);
  }

  lemma PushedCell(idx0: seq<int>, idx: seq<int>, sizeX: int, x: nat, z: nat)
    requires x < sizeX && |idx0| == 6 * (sizeX * z + x) && |idx| == |idx0| + 6
    requires forall k :: 0 <= k < |idx0| ==> idx0[k] == idx[k] == Number(sizeX, PointAt(sizeX, k))
    requires forall r: nat :: r < 6 ==> idx[|idx0| + r] == Number(sizeX, Corner(x, z, r))
    ensures forall k :: 0 <= k < |idx| ==> idx[k] == Number(sizeX, PointAt(sizeX, k))
  {
    forall k | |idx0| <= k < |idx|
      ensures idx[k] == Number(sizeX, PointAt(sizeX, k))
    {
      CellOf(sizeX, x, z, k - |idx0|);
      assert idx[|idx0| + (k - |idx0|)] == Number(sizeX, Corner(x, z, k - |idx0|));
    }
  }
}

/** The grid's triangles form a consistently oriented surface with the rectangle's border. */
module GridSurface {
  import opened Arithmetic
  import opened Renaming
  import opened Triangles
  import opened GridMesh

  lemma InRectangle(sizeX: nat, sizeZ: nat, k: nat)
    requires 0 < sizeX && 0 < sizeZ && k < 6 * (sizeX * sizeZ)
    ensures var x, z := k / 6 % sizeX, k / 6 / sizeX;
            0 <= x < sizeX && 0 <= z < sizeZ && k == 6 * (sizeX * z + x) + k % 6
    ensures 0 <= PointAt(sizeX, k).x <= sizeX && 0 <= PointAt(sizeX, k).z <= sizeZ
  {
    var c := k / 6;
    var z := c / sizeX;
    if z >= sizeZ {
      Product(sizeZ, z, sizeX);
    }
  }

  /** The vertex at every place of the index list exists, and lies where it should. */
  lemma IndexInRange(sizeX: nat, sizeZ: nat, k: nat)
    requires 0 < sizeX && 0 < sizeZ && k < 6 * (sizeX * sizeZ)
    ensures 0 <= Number(sizeX, PointAt(sizeX, k)) < (sizeX + 1) * (sizeZ + 1)
    ensures Place(sizeX, Number(sizeX, PointAt(sizeX, k))) == PointAt(sizeX, k)
  {
    var p := PointAt(sizeX, k);
    InRectangle(sizeX, sizeZ, k);
    Product(0, p.z, sizeX + 1);
    Product(p.z, sizeZ, sizeX + 1);
    InRow(sizeX, p.x, p.z, Number(sizeX, p));
  }

  function NextCorner(r: nat): nat
    requires r < 6
  {
    Next(r)
  }

  lemma NextInCell(sizeX: int, k: nat)
    requires sizeX > 0
    ensures PointAt(sizeX, Next(k)) == Corner(k / 6 % sizeX, k / 6 / sizeX, NextCorner(k % 6))
  {
    var c, r := k / 6, k % 6;
    DivModUnique(k, 3, 2 * c + r / 3, r % 3);
    DivModUnique(Next(k), 6, c, NextCorner(r));
  }

  /** The edge from corner r of a cell tells which cell and which corner. */
  lemma EdgeTellsCorner(x: int, z: int, r: nat, x': int, z': int, r': nat)
    requires r < 6 && r' < 6
    requires Corner(x, z, r) == Corner(x', z', r') && Corner(x, z, NextCorner(r)) == Corner(x', z', NextCorner(r'))
    ensures x == x' && z == z' && r == r'
  {
  }

  lemma SamePlace(sizeX: nat, sizeZ: nat, j: nat, k: nat)
    requires 0 < sizeX && 0 < sizeZ && j < 6 * (sizeX * sizeZ) && k < 6 * (sizeX * sizeZ)
    requires PointAt(sizeX, j) == PointAt(sizeX, k) && PointAt(sizeX, Next(j)) == PointAt(sizeX, Next(k))
    ensures j == k
  {
    NextInCell(sizeX, j);
    NextInCell(sizeX, k);
    EdgeTellsCorner(j / 6 % sizeX, j / 6 / sizeX, j % 6, k / 6 % sizeX, k / 6 / sizeX, k % 6);
    InRectangle(sizeX, sizeZ, j);
    InRectangle(sizeX, sizeZ, k);
  }

  /** Both points lie on one side of the rectangle. */
  predicate OnBorder(sizeX: nat, sizeZ: nat, p: Point, q: Point) {
    (p.x == 0 && q.x == 0) || (p.x == sizeX && q.x == sizeX) || (p.z == 0 && q.z == 0) || (p.z == sizeZ && q.z == sizeZ)
  }

  /** The cell, and the corner of it, from which the edge from corner r of cell
      (x, z) is traversed the other way. */
  function Beyond(x: int, z: int, r: nat): (int, int, nat)
    requires r < 6
  {
    match r
    case 0 => (x, z, 3)
    case 1 => (x, z - 1, 4)
    case 2 => (x - 1, z, 5)
    case 3 => (x, z, 0)
    case 4 => (x, z + 1, 1)
    case _ => (x + 1, z, 2)
  }

  lemma BeyondReverses(x: int, z: int, r: nat, x': int, z': int, r': nat)
    requires r < 6 && r' < 6
    ensures (Corner(x, z, r) == Corner(x', z', NextCorner(r')) && Corner(x, z, NextCorner(r)) == Corner(x', z', r'))
       <==> (x', z', r') == Beyond(x, z, r)
  {
  }

  lemma BeyondInside(sizeX: nat, sizeZ: nat, x: nat, z: nat, r: nat)
    requires x < sizeX && z < sizeZ && r < 6
    ensures var (x', z', r') := Beyond(x, z, r);
            (0 <= x' < sizeX && 0 <= z' < sizeZ)
            <==> !OnBorder(sizeX, sizeZ, Corner(x, z, r), Corner(x, z, NextCorner(r)))
  {
  }

  lemma PlaceOf(sizeX: nat, sizeZ: nat, x: nat, z: nat, r: nat) returns (j: nat)
    requires x < sizeX && z < sizeZ && r < 6
    ensures j < 6 * (sizeX * sizeZ) && j / 6 % sizeX == x && j / 6 / sizeX == z && j % 6 == r
  {
    var c := sizeX * z + x;
    Product(z + 1, sizeZ, sizeX);
    j := 6 * c + r;
    DivModUnique(j, 6, c, r);
    DivModUnique(c, sizeX, z, x);
  }

  /** The corners of the triangles, as points. */
  function Points(sizeX: nat, sizeZ: nat): seq<Point>
    requires 0 < sizeX && 0 < sizeZ
  {
    seq(6 * (sizeX * sizeZ), k requires 0 <= k => PointAt(sizeX, k))
  }

  lemma SixTimes(n: nat)
    ensures (6 * n) % 3 == 0
  {
    DivModUnique(6 * n, 3, 2 * n, 0);
  }

  lemma PointsOriented(sizeX: nat, sizeZ: nat)
    requires 0 < sizeX && 0 < sizeZ
    ensures |Points(sizeX, sizeZ)| % 3 == 0 && Oriented(Points(sizeX, sizeZ))
  {
    SixTimes(sizeX * sizeZ);
    var ps := Points(sizeX, sizeZ);
    forall j, k | 0 <= j < k < |ps|
      ensures Edge(ps, j) != Edge(ps, k)
    {
      if Edge(ps, j) == Edge(ps, k) {
        SamePlace(sizeX, sizeZ, j, k);
      }
    }
  }

  /** Place k of the list, and the next corner, as corners of a cell. */
  lemma EdgePoints(sizeX: nat, sizeZ: nat, k: nat)
    requires 0 < sizeX && 0 < sizeZ && k < 6 * (sizeX * sizeZ)
    ensures |Points(sizeX, sizeZ)| % 3 == 0
    ensures var x, z, r := k / 6 % sizeX, k / 6 / sizeX, k % 6;
            Edge(Points(sizeX, sizeZ), k) == (Corner(x, z, r), Corner(x, z, NextCorner(r)))
  {
    SixTimes(sizeX * sizeZ);
    NextInCell(sizeX, k);
  }

  /** The reverse of an edge is in the cell beyond it. */
  lemma ReverseAt(sizeX: nat, sizeZ: nat, j: nat, k: nat)
    requires 0 < sizeX && 0 < sizeZ && j < 6 * (sizeX * sizeZ) && k < 6 * (sizeX * sizeZ)
    ensures |Points(sizeX, sizeZ)| % 3 == 0
    ensures Edge(Points(sizeX, sizeZ), j) == Reversed(Edge(Points(sizeX, sizeZ), k))
       <==> (j / 6 % sizeX, j / 6 / sizeX, j % 6) == Beyond(k / 6 % sizeX, k / 6 / sizeX, k % 6)
  {
    EdgePoints(sizeX, sizeZ, j);
    EdgePoints(sizeX, sizeZ, k);
    BeyondReverses(k / 6 % sizeX, k / 6 / sizeX, k % 6, j / 6 % sizeX, j / 6 / sizeX, j % 6);
  }

  lemma PointsReverse(sizeX: nat, sizeZ: nat, k: nat)
    requires 0 < sizeX && 0 < sizeZ && k < 6 * (sizeX * sizeZ)
    ensures |Points(sizeX, sizeZ)| % 3 == 0
    ensures HasReverse(Points(sizeX, sizeZ), k) <==>
              !OnBorder(sizeX, sizeZ, Edge(Points(sizeX, sizeZ), k).0, Edge(Points(sizeX, sizeZ), k).1)
  {
    var ps := Points(sizeX, sizeZ);
    var x, z, r := k / 6 % sizeX, k / 6 / sizeX, k % 6;
    InRectangle(sizeX, sizeZ, k);
    EdgePoints(sizeX, sizeZ, k);
    BeyondInside(sizeX, sizeZ, x, z, r);
    var (x', z', r') := Beyond(x, z, r);
    if 0 <= x' < sizeX && 0 <= z' < sizeZ {
      var j := PlaceOf(sizeX, sizeZ, x', z', r');
      ReverseAt(sizeX, sizeZ, j, k);
      assert Edge(ps, j) == Reversed(Edge(ps, k));
    }
    if HasReverse(ps, k) {
      var j :| 0 <= j < |ps| && Edge(ps, j) == Reversed(Edge(ps, k));
      ReverseAt(sizeX, sizeZ, j, k);
      InRectangle(sizeX, sizeZ, j);
    }
  }

  /** The index list names the points by the numbers of their vertices. */
  lemma GridRenamed(sizeX: nat, sizeZ: nat)
    requires 0 < sizeX && 0 < sizeZ
    ensures Renamed(Points(sizeX, sizeZ), Indices(sizeX, sizeZ))
  {
    SixTimes(sizeX * sizeZ);
    var ps, idx := Points(sizeX, sizeZ), Indices(sizeX, sizeZ);
    forall j, k | 0 <= j < |ps| && 0 <= k < |ps|
      ensures Agree(ps, idx, j, k)
    {
      IndexInRange(sizeX, sizeZ, j);
      IndexInRange(sizeX, sizeZ, k);
    }
  }

  /** The edge at place k has a reverse just if it is not on the border. */
  ghost predicate ReversedInside(sizeX: nat, sizeZ: nat, idx: seq<int>, k: nat)
    requires |idx| % 3 == 0 && k < |idx|
  {
    HasReverse(idx, k) <==> !OnBorder(sizeX, sizeZ, Place(sizeX, idx[k]), Place(sizeX, idx[Next(k)]))
  }

  lemma GridReverses(sizeX: nat, sizeZ: nat, k: nat)
    requires 0 < sizeX && 0 < sizeZ && k < 6 * (sizeX * sizeZ)
    ensures |Indices(sizeX, sizeZ)| % 3 == 0 && ReversedInside(sizeX, sizeZ, Indices(sizeX, sizeZ), k)
  {
    var idx := Indices(sizeX, sizeZ);
    GridRenamed(sizeX, sizeZ);
    PointsReverse(sizeX, sizeZ, k);
    ReverseRenamed(Points(sizeX, sizeZ), idx, k);
    IndexInRange(sizeX, sizeZ, k);
    IndexInRange(sizeX, sizeZ, Next(k));
  }

  /** The grid is an oriented surface: every index is that of a vertex, no directed
      edge occurs twice, and an edge has a reverse just if it is not on the border. */
  lemma GridIsSurface(sizeX: nat, sizeZ: nat, idx: seq<int>, vertices: nat)
    requires 0 < sizeX && 0 < sizeZ && idx == Indices(sizeX, sizeZ) && vertices == |Vertices(sizeX, sizeZ)|
    ensures forall k :: 0 <= k < |idx| ==> 0 <= idx[k] < vertices
    ensures |idx| % 3 == 0 && Oriented(idx)
    ensures forall k :: 0 <= k < |idx| ==> ReversedInside(sizeX, sizeZ, idx, k)
  {
    GridRenamed(sizeX, sizeZ);
    PointsOriented(sizeX, sizeZ);
    OrientedRenamed(Points(sizeX, sizeZ), idx);
    forall k | 0 <= k < |idx|
      ensures 0 <= idx[k] < vertices && ReversedInside(sizeX, sizeZ, idx, k)
    {
      IndexInRange(sizeX, sizeZ, k);
      GridReverses(sizeX, sizeZ, k);
    }
  }
}
