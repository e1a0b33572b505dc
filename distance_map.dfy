/** The table of pairwise distances between cities (class `DistanceMap`).
    A city is its name, the position of its point in the input; a point is
    the list of its coordinates, of which the first three are used. The
    square root is a parameter: all the model needs of it is that it is a
    function, that it is never negative and that it maps 0 to 0. */
module Distances {

  /** Sum over the first `k` coordinates of the squared differences. */
  function PartialSquaredDistance(a: seq<int>, b: seq<int>, k: nat): (s: nat)
    requires k <= |a| && k <= |b|
  {
    if k == 0 then 0
    else PartialSquaredDistance(a, b, k - 1) + (a[k - 1] - b[k - 1]) * (a[k - 1] - b[k - 1])
  }

  /** The squared Euclidean distance over the three coordinates. */
  function SquaredDistance(a: seq<int>, b: seq<int>): nat
    requires 3 <= |a| && 3 <= |b|
  {
    PartialSquaredDistance(a, b, 3)
  }

  lemma {:induction false} PartialSquaredDistanceSymmetric(a: seq<int>, b: seq<int>, k: nat)
    requires k <= |a| && k <= |b|
    ensures PartialSquaredDistance(a, b, k) == PartialSquaredDistance(b, a, k)
  {
    if k > 0 {
      PartialSquaredDistanceSymmetric(a, b, k - 1);
      assert (a[k - 1] - b[k - 1]) * (a[k - 1] - b[k - 1]) == (b[k - 1] - a[k - 1]) * (b[k - 1] - a[k - 1]);
    }
  }

  lemma {:induction false} PartialSquaredDistanceSelf(a: seq<int>, k: nat)
    requires k <= |a|
    ensures PartialSquaredDistance(a, a, k) == 0
  {
    if k > 0 {
      PartialSquaredDistanceSelf(a, k - 1);
    }
  }

  /** Every row has one entry per city. */
  ghost predicate IsSquare(table: seq<seq<real>>) {
    forall i :: 0 <= i < |table| ==> |table[i]| == |table|
  }

  /** What a distance table promises: square, non-negative, zero on the
      diagonal and symmetric. */
  ghost predicate IsDistanceTable(table: seq<seq<real>>) {
    IsSquare(table) &&
    (forall i, j :: 0 <= i < |table| && 0 <= j < |table| ==> table[i][j] >= 0.0) &&
    (forall i :: 0 <= i < |table| ==> table[i][i] == 0.0) &&
    (forall i, j :: 0 <= i < |table| && 0 <= j < |table| ==> table[i][j] == table[j][i])
  }

  /** A table whose entries are the square roots of the squared distances
      between points is a distance table. */
  lemma PointTableIsDistanceTable(points: seq<seq<int>>, sqrt: nat -> real, table: seq<seq<real>>)
    requires forall p :: p in points ==> 3 <= |p|
    requires sqrt(0) == 0.0 && forall x :: sqrt(x) >= 0.0
    requires |table| == |points| && IsSquare(table)
    requires forall i, j :: 0 <= i < |points| && 0 <= j < |points| ==>
               table[i][j] == sqrt(SquaredDistance(points[i], points[j]))
    ensures IsDistanceTable(table)
  {
    forall i, j | 0 <= i < |points| && 0 <= j < |points|
      ensures table[i][j] >= 0.0
    {
      assert sqrt(SquaredDistance(points[i], points[j])) >= 0.0;
    }
    forall i | 0 <= i < |points|
      ensures table[i][i] == 0.0
    {
      PartialSquaredDistanceSelf(points[i], 3);
    }
    forall i, j | 0 <= i < |points| && 0 <= j < |points|
      ensures table[i][j] == table[j][i]
    {
      PartialSquaredDistanceSymmetric(points[i], points[j], 3);
    }
  }

  class DistanceMap {
    /** `map[i][j]` is the distance between cities `i` and `j`. */
    const table: seq<seq<real>>

    ghost predicate Valid() {
      IsDistanceTable(table)
    }

    function Size(): nat {
      |table|
    }

    constructor (points: seq<seq<int>>, sqrt: nat -> real)
      requires forall p :: p in points ==> 3 <= |p|
      requires sqrt(0) == 0.0 && forall x :: sqrt(x) >= 0.0
      ensures Valid() && Size() == |points|
      ensures forall i, j :: 0 <= i < |points| && 0 <= j < |points| ==>
                table[i][j] == sqrt(SquaredDistance(points[i], points[j]))
    {
      var rows := DistanceMap.CreateDistanceMap(points, sqrt);
      table := rows;
    }

    /** Fills the table row by row: entry `[i][j]` is the square root of the
        sum over three coordinates of the squared differences of points `i`
        and `j`; the result is a distance table. */
    static method CreateDistanceMap(points: seq<seq<int>>, sqrt: nat -> real) returns (table: seq<seq<real>>)
      requires forall p :: p in points ==> 3 <= |p|
      requires sqrt(0) == 0.0 && forall x :: sqrt(x) >= 0.0
      ensures |table| == |points| && IsDistanceTable(table)
      ensures forall i, j :: 0 <= i < |points| && 0 <= j < |points| ==>
                table[i][j] == sqrt(SquaredDistance(points[i], points[j]))
    {
      table := [];
      for i := 0 to |points|
        invariant |table| == i
        invariant forall a :: 0 <= a < i ==> |table[a]| == |points|
        invariant forall a, b :: 0 <= a < i && 0 <= b < |points| ==>
                    table[a][b] == sqrt(SquaredDistance(points[a], points[b]))
      {
        var row: seq<real> := [];
        var curCity := points[i];
        for j := 0 to |points|
          invariant |row| == j
          invariant forall b :: 0 <= b < j ==> row[b] == sqrt(SquaredDistance(curCity, points[b]))
        {
          var sum := 0;
          for k := 0 to 3
            invariant sum == PartialSquaredDistance(curCity, points[j], k)
          {
            sum := sum + (curCity[k] - points[j][k]) * (curCity[k] - points[j][k]);
          }
          row := row + [sqrt(sum)];
        }
        table := table + [row];
      }
      PointTableIsDistanceTable(points, sqrt, table);
    }

    /** `get_distance_btw_countries`: the entry for two city names; it does
        not depend on their order and is 0 between a city and itself. */
    function Distance(city1: nat, city2: nat): (d: real)
      requires Valid() && city1 < Size() && city2 < Size()
      ensures d == table[city2][city1] && d >= 0.0
      ensures city1 == city2 ==> d == 0.0
    {
      table[city1][city2]
    }
  }
}
