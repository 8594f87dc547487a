/** Picking a point of the terrain: the cells of its grid, two triangles each, are
    tested against a ray until one is hit. */
module TerrainPick {
  import opened Arithmetic
  import opened GridMesh

  /** What testing a triangle against the ray yields. */
  datatype Test = Test(hit: bool, distance: real)

  datatype Triple = Triple(a: int, b: int, c: int)

  /** The vertices of the two triangles of cell (x, z), in the order tested. */
  function CellTriple(sizeX: int, x: int, z: int, second: bool): Triple {
    if second then Triple(Number(sizeX, Point(x + 1, z + 1)), Number(sizeX, Point(x + 1, z)),
                          Number(sizeX, Point(x, z + 1)))
    else Triple(Number(sizeX, Point(x, z)), Number(sizeX, Point(x + 1, z)), Number(sizeX, Point(x, z + 1)))
  }

  /** The triangle tested as number k. */
  function Tested(sizeX: int, k: nat): Triple
    requires sizeX > 0
  {
    CellTriple(sizeX, k / 2 % sizeX, k / 2 / sizeX, k % 2 == 1)
  }

  function TestOf<V>(vertices: seq<V>, test: (V, V, V) -> Test, t: Triple): Test {
    if 0 <= t.a < |vertices| && 0 <= t.b < |vertices| && 0 <= t.c < |vertices| then
      test(vertices[t.a], vertices[t.b], vertices[t.c])
    else Test(false, 0.0)
  }

  /** The results of testing every triangle, in order. */
  ghost function Tests<V>(sizeX: int, sizeZ: int, vertices: seq<V>, test: (V, V, V) -> Test): seq<Test> {
    if sizeX > 0 then seq(2 * Cells(sizeX, sizeZ), k requires 0 <= k => TestOf(vertices, test, Tested(sizeX, k)))
        else []
  }

  /** No triangle before number n is hit. */
  ghost predicate NoneHit(ts: seq<Test>, n: nat) {
    n <= |ts| && forall k :: 0 <= k < n ==> !ts[k].hit
  }

  /** The distance left by the first n tests. */
  ghost function DistanceAfter(ts: seq<Test>, n: nat, distance0: real): real
    requires n <= |ts|
  {
    if n == 0 then distance0 else ts[n - 1].distance
  }

  lemma CornersExist(sizeX: int, sizeZ: int, x: int, z: int)
    requires 0 <= x < sizeX && 0 <= z < sizeZ
    ensures 0 <= Number(sizeX, Point(x, z)) < (sizeX + 1) * (sizeZ + 1)
    ensures 0 <= Number(sizeX, Point(x + 1, z)) < (sizeX + 1) * (sizeZ + 1)
    ensures 0 <= Number(sizeX, Point(x, z + 1)) < (sizeX + 1) * (sizeZ + 1)
    ensures 0 <= Number(sizeX, Point(x + 1, z + 1)) < (sizeX + 1) * (sizeZ + 1)
  {
    Product(0, z, sizeX + 1);
    Product(z + 1, sizeZ, sizeX + 1);
  }

  lemma CellTested(sizeX: int, x: int, z: int, second: bool, k: nat)
    requires 0 <= x < sizeX && 0 <= z && k == 2 * (sizeX * z + x) + (if second then 1 else 0)
    ensures Tested(sizeX, k) == CellTriple(sizeX, x, z, second)
  {
    DivModUnique(k, 2, sizeX * z + x, if second then 1 else 0);
    DivModUnique(k / 2, sizeX, z, x);
  }

  lemma CellTest<V>(sizeX: int, sizeZ: int, vertices: seq<V>, test: (V, V, V) -> Test, ts: seq<Test>, x: int, z: int,
                    second: bool, k: nat)
    requires 0 <= x < sizeX && 0 <= z < sizeZ && k == 2 * (sizeX * z + x) + (if second then 1 else 0)
    requires ts == Tests(sizeX, sizeZ, vertices, test)
    ensures k < |ts| && ts[k] == TestOf(vertices, test, CellTriple(sizeX, x, z, second))
  {
    CellInGrid(sizeX, sizeZ, x, z);
    TestsAt(sizeX, sizeZ, vertices, test, k);
    CellTested(sizeX, x, z, second, k);
  }

  lemma CellInGrid(sizeX: int, sizeZ: int, x: int, z: int)
    requires 0 <= x < sizeX && 0 <= z < sizeZ
    ensures 0 <= sizeX * z + x < Cells(sizeX, sizeZ)
  {
    Product(0, z, sizeX);
    Product(z + 1, sizeZ, sizeX);
  }

  lemma TestsAt<V>(sizeX: int, sizeZ: int, vertices: seq<V>, test: (V, V, V) -> Test, k: nat)
    requires 0 < sizeX && k < 2 * Cells(sizeX, sizeZ)
    ensures k < |Tests(sizeX, sizeZ, vertices, test)|
    ensures Tests(sizeX, sizeZ, vertices, test)[k] == TestOf(vertices, test, Tested(sizeX, k))
  {
  }

  /** Test the triangles of cell (x, z); n tests came before. */
  method PickCell<V>(sizeX: int, sizeZ: int, vertices: seq<V>, test: (V, V, V) -> Test, x: int, z: int,
                     ghost ts: seq<Test>, ghost n: nat)
    returns (hit: bool, distance: real, ghost k: nat)
    requires 0 <= x < sizeX && 0 <= z < sizeZ && |vertices| == (sizeX + 1) * (sizeZ + 1)
    requires n == 2 * (sizeX * z + x) && ts == Tests(sizeX, sizeZ, vertices, test) && NoneHit(ts, n)
    ensures NoneHit(ts, k) && (if hit then k < |ts| && ts[k] == Test(true, distance)
                               else k == n + 2 && distance == ts[n + 1].distance)
  {
    var index := [(sizeX + 1) * z + x, (sizeX + 1) * z + x + 1, (sizeX + 1) * (z + 1) + x,
                  (sizeX + 1) * (z + 1) + x + 1];
    CornersExist(sizeX, sizeZ, x, z);
    CellTest(sizeX, sizeZ, vertices, test, ts, x, z, false, n);
    CellTest(sizeX, sizeZ, vertices, test, ts, x, z, true, n + 1);
    var p: seq<V> := [];
    for i := 0 to 4
      invariant |p| == i && forall j :: 0 <= j < i ==> p[j] == vertices[index[j]]
    {
      p := p + [vertices[index[i]]];
    }
    var first := test(p[0], p[1], p[2]);
    if first.hit {
      return true, first.distance, n;
    }
    var second := test(p[3], p[1], p[2]);
    return second.hit, second.distance, if second.hit then n + 1 else n + 2;
  }

  /** The first triangle hit, if there is one: k is its number, or that of all
      tests. `at` is the point of the ray at a distance. */
  method Pick<V>(sizeX: int, sizeZ: int, vertices: seq<V>, test: (V, V, V) -> Test, at: real -> V, pickPos0: V,
                 distance0: real)
    returns (hit: bool, pickPos: V, distance: real, ghost k: nat)
    requires 0 < sizeX && 0 < sizeZ ==> |vertices| == (sizeX + 1) * (sizeZ + 1)
    ensures var ts := Tests(sizeX, sizeZ, vertices, test);
            NoneHit(ts, k) && if hit then k < |ts| && ts[k] == Test(true, distance) && pickPos == at(distance)
                              else k == |ts| && pickPos == pickPos0
                                   && distance == if k == 0 then distance0 else ts[k - 1].distance
  {
    ghost var ts := Tests(sizeX, sizeZ, vertices, test);
    distance, pickPos, k := distance0, pickPos0, 0;
    var z := 0;
    while z < sizeZ
      invariant 0 <= z && (z <= sizeZ || z == 0)
      invariant k == if sizeX > 0 then 2 * (sizeX * z) else 0
      invariant pickPos == pickPos0 && NoneHit(ts, k) && distance == DistanceAfter(ts, k, distance0)
    {
      hit, distance, k := PickRow(sizeX, sizeZ, vertices, test, z, distance, distance0, ts, k);
      if hit {
        return true, at(distance), distance, k;
      }
      z := z + 1;
    }
    hit := false;
  }

  method PickRow<V>(sizeX: int, sizeZ: int, vertices: seq<V>, test: (V, V, V) -> Test, z: int, distance0: real,
                    ghost start: real,
                    ghost ts: seq<Test>, ghost n: nat)
    returns (hit: bool, distance: real, ghost k: nat)
    requires 0 <= z < sizeZ && (0 < sizeX ==> |vertices| == (sizeX + 1) * (sizeZ + 1))
    requires n == (if sizeX > 0 then 2 * (sizeX * z) else 0) && ts == Tests(sizeX, sizeZ, vertices, test)
    requires NoneHit(ts, n) && distance0 == DistanceAfter(ts, n, start)
    ensures NoneHit(ts, k)
    ensures if hit then k < |ts| && ts[k] == Test(true, distance)
            else k == (if sizeX > 0 then 2 * (sizeX * (z + 1)) else 0) && distance == DistanceAfter(ts, k, start)
  {
    k, distance := n, distance0;
    assert sizeX * (z + 1) == sizeX * z + sizeX;
    var x := 0;
    while x < sizeX
      invariant 0 <= x && (x <= sizeX || x == 0)
      invariant k == if sizeX > 0 then 2 * (sizeX * z + x) else 0
      invariant NoneHit(ts, k) && distance == DistanceAfter(ts, k, start)
    {
      hit, distance, k := PickCell(sizeX, sizeZ, vertices, test, x, z, ts, k);
      if hit {
        return true, distance, k;
      }
      x := x + 1;
    }
    hit := false;
  }

  lemma IndexAtCorner(sizeX: int, sizeZ: int, x: int, z: int, r: nat, j: nat)
    requires 0 <= x < sizeX && 0 <= z < sizeZ && r < 6 && j == 6 * (sizeX * z + x) + r
    ensures j < |Indices(sizeX, sizeZ)| && Indices(sizeX, sizeZ)[j] == Number(sizeX, Corner(x, z, r))
  {
    CellInGrid(sizeX, sizeZ, x, z);
    CellOf(sizeX, x, z, r);
  }

  /** The triangles tested are those of the grid's mesh, in the mesh's order: the
      second of each cell with its corners in the mesh's sense, the first against it. */
  lemma TestsMeshTriangles(sizeX: int, sizeZ: int, x: int, z: int, second: bool, k: nat)
    requires 0 <= x < sizeX && 0 <= z < sizeZ && k == 2 * (sizeX * z + x) + (if second then 1 else 0)
    ensures var idx := Indices(sizeX, sizeZ);
            3 * k + 2 < |idx| &&
            Tested(sizeX, k) == if second then Triple(idx[3 * k + 2], idx[3 * k], idx[3 * k + 1])
                                else Triple(idx[3 * k + 2], idx[3 * k + 1], idx[3 * k])
  {
    var s := if second then 3 else 0;
    CellTested(sizeX, x, z, second, k);
    IndexAtCorner(sizeX, sizeZ, x, z, s, 3 * k);
    IndexAtCorner(sizeX, sizeZ, x, z, s + 1, 3 * k + 1);
    IndexAtCorner(sizeX, sizeZ, x, z, s + 2, 3 * k + 2);
  }

  /** Every number of a test is that of a triangle of some cell. */
  lemma TestNumber(sizeX: nat, sizeZ: nat, k: nat) returns (x: nat, z: nat, second: bool)
    requires k < 2 * Cells(sizeX, sizeZ)
    ensures x < sizeX && z < sizeZ && k == 2 * (sizeX * z + x) + if second then 1 else 0
  {
    var c := k / 2;
    x, z, second := c % sizeX, c / sizeX, k % 2 == 1;
    if z >= sizeZ {
      Product(sizeZ, z, sizeX);
    }
  }

  /** What is tested for cell (x, z): its near corner with the next two, and then its
      far corner with these. */
  ghost predicate TestsOfCell<V>(sizeX: int, vertices: seq<V>, test: (V, V, V) -> Test, ts: seq<Test>, x: int, z: int) {
    var k, n, m := 2 * (sizeX * z + x), (sizeX + 1) * z + x, (sizeX + 1) * (z + 1) + x;
    && 0 <= k && k + 1 < |ts| && 0 <= n && n + 1 < |vertices| && 0 <= m && m + 1 < |vertices|
    && ts[k] == test(vertices[n], vertices[n + 1], vertices[m])
    && ts[k + 1] == test(vertices[m + 1], vertices[n + 1], vertices[m])
  }

  lemma TestsByCell<V>(sizeX: int, sizeZ: int, vertices: seq<V>, test: (V, V, V) -> Test, x: int, z: int)
    requires 0 <= x < sizeX && 0 <= z < sizeZ && |vertices| == (sizeX + 1) * (sizeZ + 1)
    ensures TestsOfCell(sizeX, vertices, test, Tests(sizeX, sizeZ, vertices, test), x, z)
  {
    var k := 2 * (sizeX * z + x);
    CellInGrid(sizeX, sizeZ, x, z);
    CornersExist(sizeX, sizeZ, x, z);
    CellTest(sizeX, sizeZ, vertices, test, Tests(sizeX, sizeZ, vertices, test), x, z, false, k);
    CellTest(sizeX, sizeZ, vertices, test, Tests(sizeX, sizeZ, vertices, test), x, z, true, k + 1);
  }

  /** There are two tests for each cell, and no others. */
  lemma TestsInAll<V>(sizeX: int, sizeZ: int, vertices: seq<V>, test: (V, V, V) -> Test)
    ensures |Tests(sizeX, sizeZ, vertices, test)| == if sizeX > 0 && sizeZ > 0 then 2 * (sizeX * sizeZ) else 0
  {
  }

  /** Picking succeeds just if the ray hits a triangle of the mesh, for a test that
      does not depend on the order of the corners. */
  lemma PicksIffMeshHit<V>(sizeX: nat, sizeZ: nat, vertices: seq<V>, test: (V, V, V) -> Test, hit: bool, k: nat)
    requires forall a, b, c :: test(a, b, c).hit == test(c, b, a).hit == test(b, c, a).hit
    requires var ts := Tests(sizeX, sizeZ, vertices, test);
             NoneHit(ts, k) && if hit then k < |ts| && ts[k].hit else k == |ts|
    ensures hit <==> exists t :: MeshHit(sizeX, sizeZ, vertices, test, t)
  {
    var ts := Tests(sizeX, sizeZ, vertices, test);
    forall t | 0 <= t < 2 * Cells(sizeX, sizeZ)
      ensures ts[t].hit <==> MeshHit(sizeX, sizeZ, vertices, test, t)
    {
      var x, z, second := TestNumber(sizeX, sizeZ, t);
      TestsAt(sizeX, sizeZ, vertices, test, t);
      TestsMeshTriangles(sizeX, sizeZ, x, z, second, t);
    }
  }

  /** Triangle t of the mesh is met. */
  ghost predicate MeshHit<V>(sizeX: int, sizeZ: int, vertices: seq<V>, test: (V, V, V) -> Test, t: nat) {
    var idx := Indices(sizeX, sizeZ);
    && 3 * t + 2 < |idx| && 0 <= idx[3 * t] < |vertices| && 0 <= idx[3 * t + 1] < |vertices|
    && 0 <= idx[3 * t + 2] < |vertices|
    && test(vertices[idx[3 * t]], vertices[idx[3 * t + 1]], vertices[idx[3 * t + 2]]).hit
  }
}
