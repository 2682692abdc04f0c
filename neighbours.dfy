/** Neighbour detection in the expansion script: another polygon is a
    neighbour of the target when a node of one of them lies closer than the
    neighbour threshold to an edge of the other.  Edges are the pairs
    (k, k + 1) of the node list; the pair (last, first) is not examined. */
module Neighbours {
  import opened Geometry
  import opened Sequences

  /** neighbor_distance_threshold = 2.0, squared. */
  const NeighbourThreshold2 := 4.0

  /** Every examined edge has non-zero length, so the point-to-edge distance
      is defined on it. */
  predicate EdgesMeasurable(q: seq<Point>)
  {
    forall e :: 0 <= e < |q| - 1 ==> Dist2(q[e + 1], q[e]) != 0.0
  }

  /** Node `a` is strictly within the threshold of edge (q[e], q[e + 1]). */
  predicate CloseToEdge(a: Point, q: seq<Point>, e: nat)
    requires e < |q| - 1 && Dist2(q[e + 1], q[e]) != 0.0
  {
    SegDist2(q[e], q[e + 1], a) < NeighbourThreshold2
  }

  /** Some node of `p` is close to some edge of `q`. */
  predicate Reaches(p: seq<Point>, q: seq<Point>)
    requires EdgesMeasurable(q)
  {
    exists i, e :: 0 <= i < |p| && 0 <= e < |q| - 1 && CloseToEdge(p[i], q, e)
  }

  /** The test of the neighbour loop: either direction suffices. */
  predicate AreNeighbours(p: seq<Point>, q: seq<Point>)
    requires EdgesMeasurable(p) && EdgesMeasurable(q)
  {
    Reaches(p, q) || Reaches(q, p)
  }

  predicate AllMeasurable(polygons: seq<seq<Point>>)
  {
    forall j :: 0 <= j < |polygons| ==> EdgesMeasurable(polygons[j])
  }

  /** The neighbours of polygon `target` among polygons 0 .. `count` - 1, in
      index order: exactly the other polygons that pass the test, each once. */
  function NeighboursBelow(polygons: seq<seq<Point>>, target: nat, count: nat): (r: seq<nat>)
    requires AllMeasurable(polygons)
    requires target < |polygons| && count <= |polygons|
    ensures forall j: nat :: j in r <==> j < count && j != target && AreNeighbours(polygons[target], polygons[j])
    ensures StrictlyIncreasing(r)
    ensures forall m :: 0 <= m < |r| ==> r[m] < count
    decreases count
  {
    if count == 0 then []
    else
      var j := count - 1;
      var prev := NeighboursBelow(polygons, target, j);
      if j != target && AreNeighbours(polygons[target], polygons[j]) then prev + [j] else prev
  }

  /** The neighbour list of the target is the neighbours among all polygons. */
  function NeighbourIndices(polygons: seq<seq<Point>>, target: nat): seq<nat>
    requires AllMeasurable(polygons)
    requires target < |polygons|
  {
    NeighboursBelow(polygons, target, |polygons|)
  }

  /** The relation is symmetric: `j` is listed for `t` exactly when `t` is
      listed for `j`; and no polygon is its own neighbour. */
  lemma NeighbourIndicesSymmetric(polygons: seq<seq<Point>>, t: nat, j: nat)
    requires AllMeasurable(polygons)
    requires t < |polygons| && j < |polygons|
    ensures j in NeighbourIndices(polygons, t) <==> t in NeighbourIndices(polygons, j)
    ensures t !in NeighbourIndices(polygons, t)
  {
  }

  /** One direction of the test, with the source's early exits: both loops
      stop as soon as a node of `p` close to an edge of `q` is found. */
  method SomeNodeNearEdge(p: seq<Point>, q: seq<Point>) returns (confirmed: bool)
    requires EdgesMeasurable(q)
    ensures confirmed == Reaches(p, q)
  {
    confirmed := false;
    var i := 0;
    while i < |p| && !confirmed
      invariant 0 <= i <= |p|
      invariant confirmed ==> Reaches(p, q)
      invariant !confirmed ==> forall i', e :: 0 <= i' < i && 0 <= e < |q| - 1 ==> !CloseToEdge(p[i'], q, e)
      decreases |p| - i, if confirmed then 0 else 1
    {
      var e := 0;
      while e < |q| - 1 && !confirmed
        invariant 0 <= e
        invariant confirmed ==> Reaches(p, q)
        invariant !confirmed ==> forall e' :: 0 <= e' < e && e' < |q| - 1 ==> !CloseToEdge(p[i], q, e')
        decreases |q| - e, if confirmed then 0 else 1
      {
        if CloseToEdge(p[i], q, e) {
          confirmed := true;
        } else {
          e := e + 1;
        }
      }
      if !confirmed {
        i := i + 1;
      }
    }
  }

  /** The neighbour loop of main for one dilating polygon: every other
      polygon is tested, the second direction only when the first fails. */
  method FindNeighbours(polygons: seq<seq<Point>>, target: nat) returns (indices: seq<nat>)
    requires AllMeasurable(polygons)
    requires target < |polygons|
    ensures indices == NeighbourIndices(polygons, target)
  {
    indices := [];
    var j := 0;
    while j < |polygons|
      invariant 0 <= j <= |polygons|
      invariant indices == NeighboursBelow(polygons, target, j)
    {
      if j != target {
        var confirmed := SomeNodeNearEdge(polygons[target], polygons[j]);
        if !confirmed {
          confirmed := SomeNodeNearEdge(polygons[j], polygons[target]);
        }
        if confirmed {
          indices := indices + [j];
        }
      }
      j := j + 1;
    }
  }
}
