/** Points of a mesh and the lexicographic order numpy uses when it sorts the
    rows of an (n, 3) array.

    Coordinates are mathematical integers: the mesh code only ever compares
    points for exact equality and sorts them, so any totally ordered coordinate
    type behaves the same way. */
module Points {

  datatype Point = Point(x: int, y: int, z: int)

  /** Strict lexicographic order on (x, y, z): the row order of `np.unique(..., axis=0)`.
      It is a strict total order (`BelowIsStrictTotalOrder`), which is why a
      `StrictlyIncreasing` sequence is sorted and duplicate-free. */
  predicate Below(a: Point, b: Point)
  {
    || a.x < b.x
    || (a.x == b.x && a.y < b.y)
    || (a.x == b.x && a.y == b.y && a.z < b.z)
  }

  /** Every element is strictly below every later one: sorted and free of duplicates. */
  predicate StrictlyIncreasing(s: seq<Point>)
  {
    forall i, j :: 0 <= i < j < |s| ==> Below(s[i], s[j])
  }

  /** The set of points occurring in a sequence. */
  function Elems(s: seq<Point>): set<Point>
  {
    set q | q in s
  }

  /** `Below` is irreflexive, asymmetric, transitive and total: any two
      distinct points are ordered one way. */
  lemma BelowIsStrictTotalOrder(a: Point, b: Point, c: Point)
    ensures !Below(a, a)
    ensures Below(a, b) ==> !Below(b, a)
    ensures Below(a, b) && Below(b, c) ==> Below(a, c)
    ensures a == b || Below(a, b) || Below(b, a)
  {}

  /** A strictly increasing sequence holds each point once, so its length is
      the number of distinct points in it. */
  lemma {:induction false} StrictlyIncreasingCardinality(s: seq<Point>)
    requires StrictlyIncreasing(s)
    ensures |Elems(s)| == |s|
  {
    if |s| > 0 {
      var init := s[..|s| - 1];
      assert StrictlyIncreasing(init);
      StrictlyIncreasingCardinality(init);
      assert Elems(s) == Elems(init) + {s[|s| - 1]};
      assert s[|s| - 1] !in Elems(init) by {
        forall k | 0 <= k < |init|
          ensures init[k] != s[|s| - 1]
        {
          assert Below(s[k], s[|s| - 1]);
        }
      }
    }
  }

  /** A sequence holds at most as many distinct points as it has entries. */
  lemma {:induction false} ElemsCardinality(s: seq<Point>)
    ensures |Elems(s)| <= |s|
  {
    if |s| > 0 {
      var init := s[..|s| - 1];
      ElemsCardinality(init);
      assert Elems(s) == Elems(init) + {s[|s| - 1]};
    }
  }

  /** The first element of a strictly increasing sequence is below all others. */
  lemma FirstIsLeast(s: seq<Point>, v: Point)
    requires StrictlyIncreasing(s) && v in s
    ensures s[0] == v || Below(s[0], v)
  {
    var k :| 0 <= k < |s| && s[k] == v;
    assert k == 0 || Below(s[0], s[k]);
  }

  /** Two strictly increasing sequences with the same elements are the same
      sequence: the sorted, duplicate-free table of a set of points is unique. */
  lemma {:induction false} StrictlyIncreasingIsCanonical(a: seq<Point>, b: seq<Point>)
    requires StrictlyIncreasing(a) && StrictlyIncreasing(b)
    requires forall v :: v in a <==> v in b
    ensures a == b
  {
    if |a| > 0 && |b| > 0 {
      // The first element of each is the least element of the common set.
      assert a[0] == b[0] by {
        assert a[0] in a && b[0] in b;
        FirstIsLeast(b, a[0]);
        FirstIsLeast(a, b[0]);
      }
      forall v
        ensures v in a[1..] <==> v in b[1..]
      {
        if v in a[1..] {
          var i :| 0 <= i < |a| - 1 && a[1..][i] == v;
          assert Below(a[0], a[i + 1]);
          assert a[i + 1] in a;
          var j :| 0 <= j < |b| && b[j] == v;
          assert j != 0 && b[1..][j - 1] == v;
        }
        if v in b[1..] {
          var i :| 0 <= i < |b| - 1 && b[1..][i] == v;
          assert Below(b[0], b[i + 1]);
          assert b[i + 1] in b;
          var j :| 0 <= j < |a| && a[j] == v;
          assert j != 0 && a[1..][j - 1] == v;
        }
      }
      StrictlyIncreasingIsCanonical(a[1..], b[1..]);
      assert a == [a[0]] + a[1..] && b == [b[0]] + b[1..];
    } else {
      // One side is empty, and both have as many entries as distinct elements.
      assert Elems(a) == Elems(b);
      StrictlyIncreasingCardinality(a);
      StrictlyIncreasingCardinality(b);
    }
  }
}
