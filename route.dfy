/** A candidate tour (class `Route`): the order in which the cities are
    visited and the length of the closed tour, computed once when the route
    is made. */
module Routes {
  import opened Distances
  import opened Lists

  /** Every city of the route has a row in the table. */
  ghost predicate InTable(table: seq<seq<real>>, route: seq<nat>) {
    forall k :: 0 <= k < |route| ==> route[k] < |table|
  }

  /** Sum of the entries for consecutive cities `route[i]`, `route[i + 1]`. */
  function PathLength(table: seq<seq<real>>, route: seq<nat>): real
    requires IsSquare(table) && InTable(table, route)
    decreases |route|
  {
    if |route| <= 1 then 0.0
    else PathLength(table, route[..|route| - 1]) + table[route[|route| - 2]][route[|route| - 1]]
  }

  /** The path plus the closing entry between `route[0]` and `route[-1]`. */
  function CyclicLength(table: seq<seq<real>>, route: seq<nat>): real
    requires IsSquare(table) && |route| >= 1 && InTable(table, route)
  {
    PathLength(table, route) + table[route[0]][route[|route| - 1]]
  }

  /** Peeling the first city off a path removes its first entry. */
  lemma {:induction false} PathLengthCons(table: seq<seq<real>>, c: nat, route: seq<nat>)
    requires IsSquare(table) && |route| >= 1 && c < |table| && InTable(table, route)
    ensures InTable(table, [c] + route)
    ensures PathLength(table, [c] + route) == table[c][route[0]] + PathLength(table, route)
  {
    assert forall k :: 0 <= k < |route| ==> route[k] == ([c] + route)[k + 1];
    if |route| > 1 {
      var s := [c] + route;
      assert s[..|s| - 1] == [c] + route[..|route| - 1];
      PathLengthCons(table, c, route[..|route| - 1]);
    }
  }

  /** Walking a path backwards gives the same total when the table is
      symmetric. */
  lemma {:induction false} PathLengthReverse(table: seq<seq<real>>, route: seq<nat>)
    requires IsDistanceTable(table) && InTable(table, route)
    ensures InTable(table, Reverse(route))
    ensures PathLength(table, Reverse(route)) == PathLength(table, route)
  {
    if |route| >= 2 {
      var tail := route[1..];
      var rev := Reverse(tail);
      assert route == [route[0]] + tail;
      assert Reverse(route) == rev + [route[0]];
      PathLengthReverse(table, tail);
      PathLengthCons(table, route[0], tail);
      assert (rev + [route[0]])[..|rev|] == rev;
    }
  }

  /** Reversing a whole route leaves its cyclic length unchanged when the
      table is symmetric; a one-city route has length 0. */
  lemma {:induction false} CyclicLengthReverse(table: seq<seq<real>>, route: seq<nat>)
    requires IsDistanceTable(table) && |route| >= 1 && InTable(table, route)
    ensures InTable(table, Reverse(route))
    ensures CyclicLength(table, Reverse(route)) == CyclicLength(table, route)
    ensures |route| == 1 ==> CyclicLength(table, route) == 0.0
  {
    PathLengthReverse(table, route);
  }

  /** A permutation of a route whose cities have rows has them too. */
  lemma PermutationInTable(table: seq<seq<real>>, route: seq<nat>, other: seq<nat>)
    requires multiset(route) == multiset(other) && InTable(table, other)
    ensures InTable(table, route) && |route| == |other|
  {
    assert |route| == |multiset(route)|;
    forall k | 0 <= k < |route| ensures route[k] < |table| {
      assert route[k] in multiset(other);
    }
  }

  class Route {
    /** The cities in visiting order. */
    var route: seq<nat>
    /** The cyclic length, computed by the constructor and never reassigned. */
    const length: real

    constructor (route: seq<nat>, distanceMap: DistanceMap)
      requires distanceMap.Valid() && |route| >= 1 && InTable(distanceMap.table, route)
      ensures this.route == route && length == CyclicLength(distanceMap.table, route)
    {
      var sum := Route.SetLength(route, distanceMap);
      this.route := route;
      length := sum;
    }

    /** `set_length`: accumulates the entries of consecutive cities, then
        adds the entry between the first and the last city. */
    static method SetLength(route: seq<nat>, distanceMap: DistanceMap) returns (sum: real)
      requires distanceMap.Valid() && |route| >= 1 && InTable(distanceMap.table, route)
      ensures sum == CyclicLength(distanceMap.table, route)
    {
      sum := 0.0;
      for i := 0 to |route| - 1
        invariant sum == PathLength(distanceMap.table, route[..i + 1])
      {
        assert route[..i + 2][..i + 1] == route[..i + 1];
        sum := sum + distanceMap.Distance(route[i], route[i + 1]);
      }
      assert route[..|route|] == route;
      sum := sum + distanceMap.Distance(route[0], route[|route| - 1]);
    }
  }
}
