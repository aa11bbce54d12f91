/** `stl2mesh3d`: turns a triangle soup (every triangle holds its own copies of
    its three corners) into an indexed mesh — a sorted table of distinct
    vertices plus three per-triangle index lists I, J, K into that table. */
module MeshIndexer {
  import opened Options
  import opened Points
  import Unique

  /** One facet of the soup: its three corners in file order. The (p, 3, 3)
      shape of the source array is fixed by this type. */
  datatype Triangle = Triangle(v0: Point, v1: Point, v2: Point)

  /** Corner `c` (0, 1 or 2) of a triangle. */
  function Corner(t: Triangle, c: nat): Point
    requires c < 3
  {
    if c == 0 then t.v0 else if c == 1 then t.v1 else t.v2
  }

  /** The result handed to the renderer: vertex table and the I, J, K lists. */
  datatype IndexedMesh = IndexedMesh(vertices: seq<Point>, i: seq<nat>, j: seq<nat>, k: seq<nat>)

  /** The index list that holds corner `c` of every triangle (I, J or K). */
  function CornerList(m: IndexedMesh, c: nat): seq<nat>
    requires c < 3
  {
    if c == 0 then m.i else if c == 1 then m.j else m.k
  }

  /** `v` is a corner of some triangle of the soup. */
  ghost predicate IsCorner(soup: seq<Triangle>, v: Point)
  {
    exists t :: 0 <= t < |soup| && (soup[t].v0 == v || soup[t].v1 == v || soup[t].v2 == v)
  }

  /** What an indexed mesh of `soup` must be: one index per triangle in each
      list, every index inside the table, every triangle rebuilt exactly from
      the table, and the table sorted, duplicate-free and made only of corners. */
  ghost predicate IsIndexedMeshOf(soup: seq<Triangle>, m: IndexedMesh)
  {
    && |m.i| == |soup| && |m.j| == |soup| && |m.k| == |soup|
    && (forall t :: 0 <= t < |soup| ==>
          && m.i[t] < |m.vertices| && m.vertices[m.i[t]] == soup[t].v0
          && m.j[t] < |m.vertices| && m.vertices[m.j[t]] == soup[t].v1
          && m.k[t] < |m.vertices| && m.vertices[m.k[t]] == soup[t].v2)
    && StrictlyIncreasing(m.vertices)
    && (forall v :: v in m.vertices ==> IsCorner(soup, v))
  }

  /** `reshape(p * 3, 3)`: the soup as one flat list of points, triangle by
      triangle, corner by corner. */
  function Flatten(soup: seq<Triangle>): (pts: seq<Point>)
    ensures |pts| == 3 * |soup|
  {
    if |soup| == 0 then []
    else [soup[0].v0, soup[0].v1, soup[0].v2] + Flatten(soup[1..])
  }

  /** Triangle `t`'s corners sit at flat positions 3t, 3t + 1 and 3t + 2. */
  lemma {:induction false} FlattenAt(soup: seq<Triangle>, t: nat)
    requires t < |soup|
    ensures Flatten(soup)[3 * t] == soup[t].v0
    ensures Flatten(soup)[3 * t + 1] == soup[t].v1
    ensures Flatten(soup)[3 * t + 2] == soup[t].v2
  {
    if t > 0 {
      FlattenAt(soup[1..], t - 1);
      assert soup[1..][t - 1] == soup[t];
    }
  }

  /** The flat list holds exactly the corners of the soup. */
  lemma FlattenHoldsCorners(soup: seq<Triangle>)
    ensures forall v :: v in Flatten(soup) <==> IsCorner(soup, v)
  {
    var pts := Flatten(soup);
    forall v | IsCorner(soup, v)
      ensures v in pts
    {
      var t :| 0 <= t < |soup| && (soup[t].v0 == v || soup[t].v1 == v || soup[t].v2 == v);
      FlattenAt(soup, t);
      assert pts[3 * t] in pts && pts[3 * t + 1] in pts && pts[3 * t + 2] in pts;
    }
    forall v | v in pts
      ensures IsCorner(soup, v)
    {
      var n :| 0 <= n < |pts| && pts[n] == v;
      var t := n / 3;
      FlattenAt(soup, t);
      assert n == 3 * t || n == 3 * t + 1 || n == 3 * t + 2;
    }
  }

  /** The inverse of `reshape` on the index side: I, J, K woven back into one
      flat list, index of corner 0, 1, 2 of triangle 0, then of triangle 1, ... */
  function Interleave(i: seq<nat>, j: seq<nat>, k: seq<nat>): (flat: seq<nat>)
    requires |i| == |j| == |k|
    ensures |flat| == 3 * |i|
  {
    if |i| == 0 then []
    else [i[0], j[0], k[0]] + Interleave(i[1..], j[1..], k[1..])
  }

  /** Flat positions 3t, 3t + 1 and 3t + 2 hold I[t], J[t] and K[t]. */
  lemma {:induction false} InterleaveAt(i: seq<nat>, j: seq<nat>, k: seq<nat>, t: nat)
    requires |i| == |j| == |k| && t < |i|
    ensures Interleave(i, j, k)[3 * t] == i[t]
    ensures Interleave(i, j, k)[3 * t + 1] == j[t]
    ensures Interleave(i, j, k)[3 * t + 2] == k[t]
  {
    if t > 0 {
      InterleaveAt(i[1..], j[1..], k[1..], t - 1);
    }
  }

  /** The flat positions `3k + offset` for k in range(p); for a corner
      offset below 3 they all fall inside the `3p` flattened points. */
  function Strides(p: nat, offset: nat): (r: seq<nat>)
    ensures |r| == p
    ensures offset < 3 ==> forall n :: 0 <= n < |r| ==> r[n] < 3 * p
  {
    seq(p, n => 3 * n + offset)
  }

  /** `np.take(a, positions)`: the entries of `a` at the given positions, or
      `None` (numpy's IndexError) when a position is out of range. */
  function Take(a: seq<nat>, positions: seq<nat>): (r: Option<seq<nat>>)
    ensures r.Some? <==> forall n :: 0 <= n < |positions| ==> positions[n] < |a|
    ensures r.Some? ==> |r.value| == |positions|
    ensures r.Some? ==> forall n :: 0 <= n < |positions| ==> r.value[n] == a[positions[n]]
  {
    if |positions| == 0 then Some([])
    else if positions[0] >= |a| then None
    else match Take(a, positions[1..])
      case None => None
      case Some(rest) => Some([a[positions[0]]] + rest)
  }

  /** Taking corner `offset` of every triangle from a list with one entry per
      flattened point never raises IndexError, and gives one entry per triangle. */
  lemma TakeCornerSucceeds(a: seq<nat>, p: nat, offset: nat)
    requires |a| == 3 * p && offset < 3
    ensures Take(a, Strides(p, offset)).Some?
    ensures |Take(a, Strides(p, offset)).value| == p
  {
  }

  /** The indexed mesh of a triangle soup. */
  method Stl2Mesh3d(soup: seq<Triangle>) returns (m: IndexedMesh)
    ensures IsIndexedMeshOf(soup, m)
    ensures forall v :: v in m.vertices <==> IsCorner(soup, v)
    ensures |m.vertices| <= 3 * |soup|
  {
    var p := |soup|;
    var pts := Flatten(soup);
    var vertices, ixr := Unique.UniqueWithInverse(pts);
    var ti := Take(ixr, Strides(p, 0));
    var tj := Take(ixr, Strides(p, 1));
    var tk := Take(ixr, Strides(p, 2));
    m := IndexedMesh(vertices, ti.value, tj.value, tk.value);
    forall t | 0 <= t < p
      ensures m.i[t] < |vertices| && vertices[m.i[t]] == soup[t].v0
      ensures m.j[t] < |vertices| && vertices[m.j[t]] == soup[t].v1
      ensures m.k[t] < |vertices| && vertices[m.k[t]] == soup[t].v2
    {
      FlattenAt(soup, t);
      assert m.i[t] == ixr[3 * t] && m.j[t] == ixr[3 * t + 1] && m.k[t] == ixr[3 * t + 2];
    }
    FlattenHoldsCorners(soup);
    Unique.TableNoLongerThanInput(pts, vertices, ixr);
  }

  /** Every corner of the soup is in the table and the table holds nothing else. */
  lemma VerticesAreExactlyCorners(soup: seq<Triangle>, m: IndexedMesh)
    requires IsIndexedMeshOf(soup, m)
    ensures forall v :: v in m.vertices <==> IsCorner(soup, v)
  {
    forall v | IsCorner(soup, v)
      ensures v in m.vertices
    {
      var t :| 0 <= t < |soup| && (soup[t].v0 == v || soup[t].v1 == v || soup[t].v2 == v);
      assert m.vertices[m.i[t]] == soup[t].v0;
      assert m.vertices[m.j[t]] == soup[t].v1;
      assert m.vertices[m.k[t]] == soup[t].v2;
    }
  }

  /** The table has at most three entries per triangle. */
  lemma VertexCountBound(soup: seq<Triangle>, m: IndexedMesh)
    requires IsIndexedMeshOf(soup, m)
    ensures |m.vertices| <= 3 * |soup|
  {
    InterleaveIsInverse(soup, m);
    Unique.TableNoLongerThanInput(Flatten(soup), m.vertices, Interleave(m.i, m.j, m.k));
  }

  /** Two corners anywhere in the soup get the same index exactly when they
      are the same point, so triangles sharing an edge share its indices. */
  lemma SharedCornersShareIndices(soup: seq<Triangle>, m: IndexedMesh, t: nat, c: nat, u: nat, d: nat)
    requires IsIndexedMeshOf(soup, m)
    requires t < |soup| && u < |soup| && c < 3 && d < 3
    ensures CornerList(m, c)[t] == CornerList(m, d)[u] <==> Corner(soup[t], c) == Corner(soup[u], d)
  {
    Unique.SameEntryAtSamePosition(m.vertices, CornerList(m, c)[t], CornerList(m, d)[u]);
  }

  /** Woven back together, the I, J, K of an indexed mesh are a valid inverse
      index of the flattened soup. */
  lemma InterleaveIsInverse(soup: seq<Triangle>, m: IndexedMesh)
    requires IsIndexedMeshOf(soup, m)
    ensures Unique.IsUniqueOf(Flatten(soup), m.vertices, Interleave(m.i, m.j, m.k))
  {
    var pts := Flatten(soup);
    var inverse := Interleave(m.i, m.j, m.k);
    FlattenHoldsCorners(soup);
    VerticesAreExactlyCorners(soup, m);
    forall n | 0 <= n < |pts|
      ensures inverse[n] < |m.vertices| && m.vertices[inverse[n]] == pts[n]
    {
      var t := n / 3;
      FlattenAt(soup, t);
      InterleaveAt(m.i, m.j, m.k, t);
      assert n == 3 * t || n == 3 * t + 1 || n == 3 * t + 2;
    }
  }

  /** The indexed mesh of a soup is unique, so running the indexer twice on
      the same soup gives the same table and the same I, J, K. */
  lemma {:induction false} IndexedMeshIsDeterministic(soup: seq<Triangle>, m1: IndexedMesh, m2: IndexedMesh)
    requires IsIndexedMeshOf(soup, m1) && IsIndexedMeshOf(soup, m2)
    ensures m1 == m2
  {
    InterleaveIsInverse(soup, m1);
    InterleaveIsInverse(soup, m2);
    var inv1 := Interleave(m1.i, m1.j, m1.k);
    var inv2 := Interleave(m2.i, m2.j, m2.k);
    Unique.UniqueIsDeterministic(Flatten(soup), m1.vertices, inv1, m2.vertices, inv2);
    forall t | 0 <= t < |soup|
      ensures m1.i[t] == m2.i[t] && m1.j[t] == m2.j[t] && m1.k[t] == m2.k[t]
    {
      InterleaveAt(m1.i, m1.j, m1.k, t);
      InterleaveAt(m2.i, m2.j, m2.k, t);
      assert inv1[3 * t] == inv2[3 * t];
      assert inv1[3 * t + 1] == inv2[3 * t + 1];
      assert inv1[3 * t + 2] == inv2[3 * t + 2];
    }
  }

  /** An empty soup yields an empty table and empty I, J, K. */
  lemma EmptySoupGivesEmptyMesh(m: IndexedMesh)
    requires IsIndexedMeshOf([], m)
    ensures m == IndexedMesh([], [], [], [])
  {
    assert Elems(m.vertices) == {};
    StrictlyIncreasingCardinality(m.vertices);
  }

  /** Two triangles sharing the edge (1,0,0)-(0,1,0). */
  function SharedEdgeSoup(): seq<Triangle>
  {
    [Triangle(Point(0, 0, 0), Point(1, 0, 0), Point(0, 1, 0)),
     Triangle(Point(1, 0, 0), Point(0, 1, 0), Point(1, 1, 0))]
  }

  lemma SharedEdgeMeshIsValid()
    ensures IsIndexedMeshOf(SharedEdgeSoup(),
              IndexedMesh([Point(0, 0, 0), Point(0, 1, 0), Point(1, 0, 0), Point(1, 1, 0)], [0, 2], [2, 1], [1, 3]))
  {
    var soup := SharedEdgeSoup();
    var vertices := [Point(0, 0, 0), Point(0, 1, 0), Point(1, 0, 0), Point(1, 1, 0)];
    assert StrictlyIncreasing(vertices);
    assert IsCorner(soup, vertices[0]) && IsCorner(soup, vertices[1]) by {
      assert soup[0].v0 == vertices[0] && soup[0].v2 == vertices[1];
    }
    assert IsCorner(soup, vertices[2]) && IsCorner(soup, vertices[3]) by {
      assert soup[0].v1 == vertices[2] && soup[1].v2 == vertices[3];
    }
    assert forall v :: v in vertices ==> v == vertices[0] || v == vertices[1] || v == vertices[2] || v == vertices[3];
  }

  /** On that soup the table has four vertices, and the shared corners carry
      the same indices in both triangles. */
  lemma SharedEdgeExample(m: IndexedMesh)
    requires IsIndexedMeshOf(SharedEdgeSoup(), m)
    ensures m.vertices == [Point(0, 0, 0), Point(0, 1, 0), Point(1, 0, 0), Point(1, 1, 0)]
    ensures m.i == [0, 2] && m.j == [2, 1] && m.k == [1, 3]
  {
    SharedEdgeMeshIsValid();
    IndexedMeshIsDeterministic(SharedEdgeSoup(), m,
      IndexedMesh([Point(0, 0, 0), Point(0, 1, 0), Point(1, 0, 0), Point(1, 1, 0)], [0, 2], [2, 1], [1, 3]));
  }
}
