/** `np.unique(rows, return_inverse=True, axis=0)` on an (n, 3) array of points:
    the sorted table of distinct rows, and for every input row its position in
    that table (the inverse index). */
module Unique {
  import opened Points

  /** What numpy promises of a unique-with-inverse result: the table is sorted
      and duplicate-free, it holds exactly the input points, and looking every
      input row up through the inverse index gives that row back. */
  ghost predicate IsUniqueOf(pts: seq<Point>, table: seq<Point>, inverse: seq<nat>)
  {
    && StrictlyIncreasing(table)
    && (forall v :: v in table <==> v in pts)
    && |inverse| == |pts|
    && forall n :: 0 <= n < |pts| ==> inverse[n] < |table| && table[inverse[n]] == pts[n]
  }

  /** Adds one point to a sorted, duplicate-free table, keeping it so. */
  function Insert(table: seq<Point>, q: Point): (r: seq<Point>)
    requires StrictlyIncreasing(table)
    ensures StrictlyIncreasing(r)
    ensures forall v :: v in r <==> v in table || v == q
    ensures q in table ==> r == table
  {
    if |table| == 0 then [q]
    else if q == table[0] then table
    else if Below(q, table[0]) then [q] + table
    else
      var rest := Insert(table[1..], q);
      HeadBelowRest(table, q, rest);
      [table[0]] + rest
  }

  /** Inserting `q` above the head of the table leaves the head below
      everything after it. */
  lemma HeadBelowRest(table: seq<Point>, q: Point, rest: seq<Point>)
    requires StrictlyIncreasing(table) && |table| > 0 && Below(table[0], q)
    requires forall v :: v in rest <==> v in table[1..] || v == q
    ensures forall n :: 0 <= n < |rest| ==> Below(table[0], rest[n])
  {
    forall n | 0 <= n < |rest|
      ensures Below(table[0], rest[n])
    {
      assert rest[n] in rest;
      if rest[n] != q {
        var m :| 0 <= m < |table| - 1 && table[1..][m] == rest[n];
        assert Below(table[0], table[m + 1]);
      }
    }
  }

  /** The distinct points of `pts` in lexicographic order: the vertex table
      `np.unique` returns. */
  function Distinct(pts: seq<Point>): (table: seq<Point>)
    ensures StrictlyIncreasing(table)
    ensures forall v :: v in table <==> v in pts
  {
    if |pts| == 0 then []
    else
      var init := pts[..|pts| - 1];
      assert pts == init + [pts[|pts| - 1]];
      Insert(Distinct(init), pts[|pts| - 1])
  }

  /** Binary search in a sorted, duplicate-free table: the position of `q`,
      or `|table|` when `q` is not in it. */
  method Locate(table: seq<Point>, q: Point) returns (i: nat)
    requires StrictlyIncreasing(table)
    ensures i <= |table|
    ensures i < |table| <==> q in table
    ensures i < |table| ==> table[i] == q
  {
    var lo, hi := 0, |table|;
    while lo < hi
      invariant 0 <= lo <= hi <= |table|
      invariant forall k :: 0 <= k < lo ==> Below(table[k], q)
      invariant forall k :: hi <= k < |table| ==> Below(q, table[k])
    {
      var mid := (lo + hi) / 2;
      if table[mid] == q {
        return mid;
      } else if Below(table[mid], q) {
        lo := mid + 1;
      } else {
        hi := mid;
      }
    }
    return |table|;
  }

  /** The vertex table and the inverse index of `pts`. */
  method UniqueWithInverse(pts: seq<Point>) returns (table: seq<Point>, inverse: seq<nat>)
    ensures IsUniqueOf(pts, table, inverse)
  {
    table := Distinct(pts);
    inverse := [];
    for n := 0 to |pts|
      invariant |inverse| == n
      invariant forall m :: 0 <= m < n ==> inverse[m] < |table| && table[inverse[m]] == pts[m]
    {
      var i := Locate(table, pts[n]);
      assert pts[n] in table;
      inverse := inverse + [i];
    }
  }

  /** The result is fully determined by the input: any two tables and inverse
      indexes meeting numpy's promise are equal. */
  lemma {:induction false} UniqueIsDeterministic(
    pts: seq<Point>, table1: seq<Point>, inverse1: seq<nat>, table2: seq<Point>, inverse2: seq<nat>)
    requires IsUniqueOf(pts, table1, inverse1)
    requires IsUniqueOf(pts, table2, inverse2)
    ensures table1 == table2
    ensures inverse1 == inverse2
  {
    StrictlyIncreasingIsCanonical(table1, table2);
    forall n | 0 <= n < |pts|
      ensures inverse1[n] == inverse2[n]
    {
      SameEntryAtSamePosition(table1, inverse1[n], inverse2[n]);
    }
  }

  /** In a duplicate-free table a point sits at one position only. */
  lemma SameEntryAtSamePosition(table: seq<Point>, i: nat, j: nat)
    requires StrictlyIncreasing(table)
    requires i < |table| && j < |table|
    ensures table[i] == table[j] <==> i == j
  {
    if i < j {
      assert Below(table[i], table[j]);
    } else if j < i {
      assert Below(table[j], table[i]);
    }
  }

  /** Two input rows get the same inverse index exactly when they are the same point. */
  lemma SameIndexIffSamePoint(pts: seq<Point>, table: seq<Point>, inverse: seq<nat>, a: nat, b: nat)
    requires IsUniqueOf(pts, table, inverse)
    requires a < |pts| && b < |pts|
    ensures inverse[a] == inverse[b] <==> pts[a] == pts[b]
  {
    SameEntryAtSamePosition(table, inverse[a], inverse[b]);
  }

  /** The table is no longer than the input. */
  lemma {:induction false} TableNoLongerThanInput(pts: seq<Point>, table: seq<Point>, inverse: seq<nat>)
    requires IsUniqueOf(pts, table, inverse)
    ensures |table| <= |pts|
  {
    assert Elems(table) == Elems(pts);
    StrictlyIncreasingCardinality(table);
    ElemsCardinality(pts);
  }
}
