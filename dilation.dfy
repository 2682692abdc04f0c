/** dilate_polygon_with_neighbors: every corner of the de-duplicated outline
    gives two offset nodes, one along the normal of the edge ending at the
    corner and one along the normal of the edge starting there.  An offset
    node whose move from the corner would cross a neighbour edge is pulled
    back to half way; midway nodes are inserted wherever the line from the
    last placed node to the next one crosses a neighbour; the ring is closed
    and then cleaned by remove_self_intersections. */
module NeighbourDilation {
  import opened Geometry
  import opened Outcomes
  import opened Clearance
  import opened Repair
  import Neighbours
  import Simplify

  /** The distance every node is pushed out (the global dilation_amount). */
  const DilationAmount := 2.0

  /** The node after node `i` round a ring of `n` nodes. */
  function NextIndex(n: nat, i: nat): (j: nat)
    requires i < n
    ensures j < n
    ensures j == i + 1 || (j == 0 && i == n - 1)
  {
    if i + 1 < n then i + 1 else 0
  }

  /** The node before node `k` round a ring of `n` nodes (Python's index -1). */
  function PreviousIndex(n: nat, k: nat): (j: nat)
    requires k < n
    ensures j < n
    ensures NextIndex(n, j) == k
  {
    if k == 0 then n - 1 else k - 1
  }

  /** The normal of ring edge `i`, from node `i` to the next node round the
      ring (the last edge closes the ring). */
  function RingNormal(u: seq<Point>, i: nat): Point
    requires i < |u|
  {
    EdgeNormal(u[i], u[NextIndex(|u|, i)])
  }

  /** For an edge of non-zero length the normal is (dy, -dx): perpendicular
      to the edge, as long as the edge, and never zero. */
  lemma RingNormalShape(u: seq<Point>, i: nat)
    requires i < |u|
    requires Dist2(u[NextIndex(|u|, i)], u[i]) != 0.0
    ensures var a, b := u[i], u[NextIndex(|u|, i)];
            RingNormal(u, i) == Point(b.y - a.y, -(b.x - a.x))
            && Dot(RingNormal(u, i), Sub(b, a)) == 0.0
            && Norm2(RingNormal(u, i)) == Dist2(b, a)
            && RingNormal(u, i) != Origin
  {
    var a, b := u[i], u[NextIndex(|u|, i)];
    EdgeNormalIsRightHand(a, b);
    EdgeNormalShape(a, b);
    assert Norm2(RingNormal(u, i)) != 0.0;
  }

  /** The normals loop: one normal per node. */
  function RingNormals(u: seq<Point>): (ns: seq<Point>)
    ensures |ns| == |u|
  {
    seq(|u|, i requires 0 <= i < |u| => RingNormal(u, i))
  }

  /** An offset node: the corner moved DilationAmount along the normalised
      `normal`; when that move crosses a neighbour edge the node is put half
      way between the corner and the first reported crossing instead. */
  function OffsetNode(ix: Intersector, unit: Point -> Point, polygons: seq<seq<Point>>,
                      neighbours: seq<nat>, corner: Point, normal: Point): Point
    requires ValidNeighbours(polygons, neighbours)
  {
    var moved := Displaced(unit, DilationAmount, corner, normal);
    var data := Crossings(ix, Segment(corner, moved), polygons, neighbours);
    if data == [] then moved else Mid(corner, data[0].at)
  }

  /** An offset node that is not pulled back lies exactly DilationAmount from
      its corner, along the normal; one that is pulled back lies half way
      between its corner and a point where the move meets a neighbour edge. */
  lemma OffsetNodeShape(ix: Intersector, unit: Point -> Point, polygons: seq<seq<Point>>,
                        neighbours: seq<nat>, corner: Point, normal: Point)
    requires ValidNeighbours(polygons, neighbours)
    requires IsUnit(unit)
    ensures var moved := Displaced(unit, DilationAmount, corner, normal);
            var data := Crossings(ix, Segment(corner, moved), polygons, neighbours);
            var node := OffsetNode(ix, unit, polygons, neighbours, corner, normal);
            (data == [] && normal != Origin ==>
               Dist2(node, corner) == DilationAmount * DilationAmount
               && Cross(Sub(node, corner), normal) == 0.0
               && Dot(Sub(node, corner), normal) > 0.0)
            && (data != [] ==>
                  Dist2(node, corner) == Dist2(node, data[0].at)
                  && 4.0 * Dist2(node, corner) == Dist2(corner, data[0].at)
                  && exists i, k :: ReportedForNeighbour(ix, Segment(corner, moved), polygons, neighbours,
                                                         i, k, data[0]))
  {
    var moved := Displaced(unit, DilationAmount, corner, normal);
    var data := Crossings(ix, Segment(corner, moved), polygons, neighbours);
    if data == [] {
      if normal != Origin {
        DisplacedDistance(unit, DilationAmount, corner, normal);
      }
    } else {
      MidIsHalfway(corner, data[0].at);
      Dist2Symmetric(Mid(corner, data[0].at), corner);
      CrossingsExactly(ix, Segment(corner, moved), polygons, neighbours);
      assert data[0] in data;
    }
  }

  /** The nodes corner `k` appends to the dilated list so far: its first
      offset node, preceded by the midway nodes towards it except at corner 0,
      and its second offset node, always preceded by the midway nodes towards
      it. */
  function CornerStep(ix: Intersector, unit: Point -> Point, polygons: seq<seq<Point>>,
                      neighbours: seq<nat>, u: seq<Point>, normals: seq<Point>, k: nat,
                      dilated: seq<Point>, fuel: nat): (r: Result<seq<Point>>)
    requires ValidNeighbours(polygons, neighbours)
    requires |normals| == |u| && k < |u| && (k > 0 ==> |dilated| > 0)
    ensures r.Success? ==>
              |r.value| >= |dilated| + 2 && r.value[..|dilated|] == dilated
              && r.value[|r.value| - 1] == OffsetNode(ix, unit, polygons, neighbours, u[k], normals[k])
              && (k == 0 ==> r.value[|dilated|] == OffsetNode(ix, unit, polygons, neighbours, u[k],
                                                                normals[PreviousIndex(|u|, k)]))
  {
    var first := OffsetNode(ix, unit, polygons, neighbours, u[k], normals[PreviousIndex(|u|, k)]);
    var before :- if k == 0 then Success([]) else MidwayNodes(ix, polygons, neighbours, u, k, dilated, first, fuel);
    var withFirst := dilated + before + [first];
    var second := OffsetNode(ix, unit, polygons, neighbours, u[k], normals[k]);
    var between :- MidwayNodes(ix, polygons, neighbours, u, k, withFirst, second, fuel);
    assert (withFirst + between + [second])[..|dilated|] == dilated;
    Success(withFirst + between + [second])
  }

  /** Corner `k` appends exactly: the midway nodes towards its first offset
      node (none at corner 0), that offset node along normal `k - 1`, the
      midway nodes towards its second offset node and that offset node along
      normal `k`. */
  lemma CornerStepParts(ix: Intersector, unit: Point -> Point, polygons: seq<seq<Point>>,
                        neighbours: seq<nat>, u: seq<Point>, normals: seq<Point>, k: nat,
                        dilated: seq<Point>, fuel: nat)
    requires ValidNeighbours(polygons, neighbours)
    requires |normals| == |u| && k < |u| && (k > 0 ==> |dilated| > 0)
    ensures var r := CornerStep(ix, unit, polygons, neighbours, u, normals, k, dilated, fuel);
            var first := OffsetNode(ix, unit, polygons, neighbours, u[k], normals[PreviousIndex(|u|, k)]);
            var second := OffsetNode(ix, unit, polygons, neighbours, u[k], normals[k]);
            r.Success? ==>
              exists before, between ::
                r.value == dilated + before + [first] + between + [second]
                && (k == 0 ==> before == [])
                && (k > 0 ==> MidwayNodes(ix, polygons, neighbours, u, k, dilated, first, fuel) == Success(before))
                && MidwayNodes(ix, polygons, neighbours, u, k, dilated + before + [first], second, fuel)
                   == Success(between)
  {
    var r := CornerStep(ix, unit, polygons, neighbours, u, normals, k, dilated, fuel);
    if r.Success? {
      var first := OffsetNode(ix, unit, polygons, neighbours, u[k], normals[PreviousIndex(|u|, k)]);
      var second := OffsetNode(ix, unit, polygons, neighbours, u[k], normals[k]);
      var lead := if k == 0 then Success([]) else MidwayNodes(ix, polygons, neighbours, u, k, dilated, first, fuel);
      var before := lead.value;
      var trail := MidwayNodes(ix, polygons, neighbours, u, k, dilated + before + [first], second, fuel);
      var between := trail.value;
      assert r.value == dilated + before + [first] + between + [second];
    }
  }

  /** The dilated list once corners `k` onwards have been processed, starting
      from the list `dilated` the earlier corners built; the first failing
      corner ends the loop. */
  function CornersFrom(ix: Intersector, unit: Point -> Point, polygons: seq<seq<Point>>,
                       neighbours: seq<nat>, u: seq<Point>, normals: seq<Point>, k: nat,
                       dilated: seq<Point>, fuel: nat): (r: Result<seq<Point>>)
    requires ValidNeighbours(polygons, neighbours)
    requires |normals| == |u| && k <= |u| && (k > 0 ==> |dilated| > 0)
    ensures r.Success? ==> |r.value| >= |dilated| + 2 * (|u| - k) && r.value[..|dilated|] == dilated
    decreases |u| - k
  {
    if k == |u| then Success(dilated)
    else
      var next :- CornerStep(ix, unit, polygons, neighbours, u, normals, k, dilated, fuel);
      var r := CornersFrom(ix, unit, polygons, neighbours, u, normals, k + 1, next, fuel);
      assert r.Success? ==> r.value[..|dilated|] == r.value[..|next|][..|dilated|];
      r
  }

  /** A run from corner 0 puts the first offset node of corner 0 right after
      the list it starts from. */
  lemma CornersFromFirst(ix: Intersector, unit: Point -> Point, polygons: seq<seq<Point>>,
                         neighbours: seq<nat>, u: seq<Point>, normals: seq<Point>, dilated: seq<Point>,
                         fuel: nat)
    requires ValidNeighbours(polygons, neighbours)
    requires |normals| == |u| > 0
    ensures var r := CornersFrom(ix, unit, polygons, neighbours, u, normals, 0, dilated, fuel);
            r.Success? ==>
              |r.value| > |dilated|
              && r.value[|dilated|] == OffsetNode(ix, unit, polygons, neighbours, u[0], normals[|u| - 1])
  {
    var step := CornerStep(ix, unit, polygons, neighbours, u, normals, 0, dilated, fuel);
    if step.Success? {
      var r := CornersFrom(ix, unit, polygons, neighbours, u, normals, 1, step.value, fuel);
      if r.Success? {
        assert r.value[|dilated|] == r.value[..|step.value|][|dilated|];
      }
    }
  }

  /** The list before repair: all corners, then the midway nodes from the
      last node back to the first (searched against the edge into the last
      corner) and a copy of the first node.  With no corners there is no
      first node to copy. */
  function Outline(ix: Intersector, unit: Point -> Point, polygons: seq<seq<Point>>,
                   neighbours: seq<nat>, u: seq<Point>, fuel: nat): Result<seq<Point>>
    requires ValidNeighbours(polygons, neighbours)
  {
    var dilated :- CornersFrom(ix, unit, polygons, neighbours, u, RingNormals(u), 0, [], fuel);
    if |dilated| == 0 then Failure(NoNodes)
    else
      var closing :- MidwayNodes(ix, polygons, neighbours, u, |u| - 1, dilated, dilated[0], fuel);
      Success(dilated + closing + [dilated[0]])
  }

  /** The list before repair ends with a copy of its first node, which is the
      first offset node of corner 0 (no midway search comes before it); it
      has at least two nodes per corner plus the copy.  An empty outline
      fails. */
  lemma OutlineShape(ix: Intersector, unit: Point -> Point, polygons: seq<seq<Point>>,
                     neighbours: seq<nat>, u: seq<Point>, fuel: nat)
    requires ValidNeighbours(polygons, neighbours)
    ensures |u| == 0 ==> Outline(ix, unit, polygons, neighbours, u, fuel) == Failure(NoNodes)
    ensures var r := Outline(ix, unit, polygons, neighbours, u, fuel);
            r.Success? ==>
              |u| > 0 && |r.value| >= 2 * |u| + 1 && r.value[|r.value| - 1] == r.value[0]
              && r.value[0] == OffsetNode(ix, unit, polygons, neighbours, u[0], RingNormal(u, |u| - 1))
  {
    if |u| > 0 {
      CornersFromFirst(ix, unit, polygons, neighbours, u, RingNormals(u), [], fuel);
      assert RingNormals(u)[|u| - 1] == RingNormal(u, |u| - 1);
    }
  }

  /** dilate_polygon_with_neighbors: de-duplicate, build the outline, then
      remove its loops. */
  function DilatedWithNeighbours(ix: Intersector, unit: Point -> Point, polygons: seq<seq<Point>>,
                                 neighbours: seq<nat>, polygon: seq<Point>, fuel: nat): Result<seq<Point>>
    requires ValidNeighbours(polygons, neighbours)
  {
    var outline :- Outline(ix, unit, polygons, neighbours, Deduplicated(polygon), fuel);
    SelfIntersectionsRemoved(ix, outline)
  }

  /** A polygon with nothing left after de-duplication fails. */
  lemma DilatedWithNeighboursOfNothing(ix: Intersector, unit: Point -> Point, polygons: seq<seq<Point>>,
                                       neighbours: seq<nat>, polygon: seq<Point>, fuel: nat)
    requires ValidNeighbours(polygons, neighbours)
    ensures Deduplicated(polygon) == [] ==>
              DilatedWithNeighbours(ix, unit, polygons, neighbours, polygon, fuel) == Failure(NoNodes)
  {
    OutlineShape(ix, unit, polygons, neighbours, Deduplicated(polygon), fuel);
  }

  /** A successful result is the outline with its loops removed, its end
      nodes share their x coordinate, and it is at most one node longer than
      the outline. */
  lemma DilatedWithNeighboursShape(ix: Intersector, unit: Point -> Point, polygons: seq<seq<Point>>,
                                   neighbours: seq<nat>, polygon: seq<Point>, fuel: nat)
    requires ValidNeighbours(polygons, neighbours)
    ensures var r := DilatedWithNeighbours(ix, unit, polygons, neighbours, polygon, fuel);
            var outline := Outline(ix, unit, polygons, neighbours, Deduplicated(polygon), fuel);
            r.Success? ==>
              outline.Success? && |r.value| > 0 && r.value[0].x == r.value[|r.value| - 1].x
              && |r.value| <= |outline.value| + 1
  {
    var outline := Outline(ix, unit, polygons, neighbours, Deduplicated(polygon), fuel);
    if outline.Success? {
      assert DilatedWithNeighbours(ix, unit, polygons, neighbours, polygon, fuel)
             == SelfIntersectionsRemoved(ix, outline.value);
      SelfIntersectionsRemovedEnds(ix, outline.value);
    }
  }

  // ---------------------------------------------------------------------
  // The procedure

  /** The normals loop: one normal per node, edge `i` running to the next
      node round the ring. */
  method ComputeNormals(u: seq<Point>) returns (normals: seq<Point>)
    ensures normals == RingNormals(u)
  {
    normals := [];
    var i := 0;
    while i < |u|
      invariant 0 <= i <= |u|
      invariant |normals| == i
      invariant forall j :: 0 <= j < i ==> normals[j] == RingNormal(u, j)
    {
      var next := if i < |u| - 1 then u[i + 1] else u[0];
      normals := normals + [EdgeNormal(u[i], next)];
      i := i + 1;
    }
    assert normals == RingNormals(u);
  }

  /** One offset node, with the crossing check of the source. */
  method PlaceOffsetNode(ix: Intersector, unit: Point -> Point, polygons: seq<seq<Point>>,
                         neighbours: seq<nat>, corner: Point, normal: Point) returns (node: Point)
    requires ValidNeighbours(polygons, neighbours)
    ensures node == OffsetNode(ix, unit, polygons, neighbours, corner, normal)
  {
    node := Displaced(unit, DilationAmount, corner, normal);
    var found, data := CheckIntersection(ix, corner, node, polygons, neighbours);
    if found {
      var at := data[0].at;
      node := Point(corner.x + (at.x - corner.x) / 2.0, corner.y + (at.y - corner.y) / 2.0);
    }
  }

  /** The body of the corner loop for corner `k`. */
  method ProcessCorner(ix: Intersector, unit: Point -> Point, polygons: seq<seq<Point>>,
                       neighbours: seq<nat>, u: seq<Point>, normals: seq<Point>, k: nat,
                       dilated: seq<Point>, fuel: nat) returns (r: Result<seq<Point>>)
    requires ValidNeighbours(polygons, neighbours)
    requires |normals| == |u| && k < |u| && (k > 0 ==> |dilated| > 0)
    ensures r == CornerStep(ix, unit, polygons, neighbours, u, normals, k, dilated, fuel)
  {
    var nodes := dilated;
    var first := PlaceOffsetNode(ix, unit, polygons, neighbours, u[k], normals[if k == 0 then |u| - 1 else k - 1]);
    assert first == OffsetNode(ix, unit, polygons, neighbours, u[k], normals[PreviousIndex(|u|, k)]);
    if k > 0 {
      var before := AddMidwayNodes(ix, polygons, neighbours, u, k, nodes, first, fuel);
      if before.Failure? {
        return Failure(before.error);
      }
      nodes := nodes + before.value;
    } else {
      assert dilated + [] == dilated;
    }
    nodes := nodes + [first];
    var second := PlaceOffsetNode(ix, unit, polygons, neighbours, u[k], normals[k]);
    var between := AddMidwayNodes(ix, polygons, neighbours, u, k, nodes, second, fuel);
    if between.Failure? {
      return Failure(between.error);
    }
    nodes := nodes + between.value + [second];
    r := Success(nodes);
    assert r == CornerStep(ix, unit, polygons, neighbours, u, normals, k, dilated, fuel);
  }

  /** The corner loop: every corner in turn, stopping at the first failure. */
  method ProcessCorners(ix: Intersector, unit: Point -> Point, polygons: seq<seq<Point>>,
                        neighbours: seq<nat>, u: seq<Point>, normals: seq<Point>, fuel: nat)
    returns (r: Result<seq<Point>>)
    requires ValidNeighbours(polygons, neighbours)
    requires |normals| == |u|
    ensures r == CornersFrom(ix, unit, polygons, neighbours, u, normals, 0, [], fuel)
  {
    var dilated := [];
    var k := 0;
    while k < |u|
      invariant 0 <= k <= |u|
      invariant k > 0 ==> |dilated| > 0
      invariant CornersFrom(ix, unit, polygons, neighbours, u, normals, k, dilated, fuel)
                == CornersFrom(ix, unit, polygons, neighbours, u, normals, 0, [], fuel)
    {
      var step := ProcessCorner(ix, unit, polygons, neighbours, u, normals, k, dilated, fuel);
      if step.Failure? {
        return Failure(step.error);
      }
      dilated := step.value;
      k := k + 1;
    }
    r := Success(dilated);
  }

  /** dilate_polygon_with_neighbors as a procedure. */
  method DilatePolygonWithNeighbours(ix: Intersector, unit: Point -> Point, polygons: seq<seq<Point>>,
                                     neighbours: seq<nat>, polygon: seq<Point>, fuel: nat)
    returns (r: Result<seq<Point>>)
    requires ValidNeighbours(polygons, neighbours)
    ensures r == DilatedWithNeighbours(ix, unit, polygons, neighbours, polygon, fuel)
  {
    var u := RemoveDuplicateNodes(polygon);
    var normals := ComputeNormals(u);
    var corners := ProcessCorners(ix, unit, polygons, neighbours, u, normals, fuel);
    if corners.Failure? {
      return Failure(corners.error);
    }
    var dilated := corners.value;
    if |dilated| == 0 {
      return Failure(NoNodes);
    }
    var closing := AddMidwayNodes(ix, polygons, neighbours, u, |u| - 1, dilated, dilated[0], fuel);
    if closing.Failure? {
      return Failure(closing.error);
    }
    dilated := dilated + closing.value + [dilated[0]];
    r := RemoveSelfIntersections(ix, dilated);
  }

  // ---------------------------------------------------------------------
  // The polygon loop of main

  /** The node lists of the (simplified) polygon records. */
  function NodeLists(records: seq<PolygonRecord>): seq<seq<Point>>
  {
    seq(|records|, t requires 0 <= t < |records| => records[t].nodes)
  }

  /** Every listed neighbour is a polygon of the list. */
  lemma NeighbourIndicesValid(polygons: seq<seq<Point>>, t: nat)
    requires Neighbours.AllMeasurable(polygons) && t < |polygons|
    ensures ValidNeighbours(polygons, Neighbours.NeighbourIndices(polygons, t))
  {
  }

  /** Polygon `t` dilated against its neighbours, written under its own two
      names. */
  function Expanded(ix: Intersector, unit: Point -> Point, records: seq<PolygonRecord>, t: nat,
                    fuel: nat): Result<PolygonRecord>
    requires Neighbours.AllMeasurable(NodeLists(records)) && t < |records|
  {
    var polygons := NodeLists(records);
    NeighbourIndicesValid(polygons, t);
    var nodes :- DilatedWithNeighbours(ix, unit, polygons, Neighbours.NeighbourIndices(polygons, t),
                                       records[t].nodes, fuel);
    Success(PolygonRecord(records[t].objName, records[t].cloudName, nodes))
  }

  /** Expanded keeps both names of the record. */
  lemma ExpandedKeepsNames(ix: Intersector, unit: Point -> Point, records: seq<PolygonRecord>, t: nat,
                           fuel: nat)
    requires Neighbours.AllMeasurable(NodeLists(records)) && t < |records|
    ensures var r := Expanded(ix, unit, records, t, fuel);
            r.Success? ==> r.value.objName == records[t].objName && r.value.cloudName == records[t].cloudName
  {
  }

  /** The outcome of every polygon, in input order. */
  function PerPolygon(ix: Intersector, unit: Point -> Point, records: seq<PolygonRecord>,
                      fuel: nat): seq<Result<PolygonRecord>>
    requires Neighbours.AllMeasurable(NodeLists(records))
  {
    seq(|records|, t requires 0 <= t < |records| => Expanded(ix, unit, records, t, fuel))
  }

  /** The output lines for the first `count` outcomes; the first failure ends
      the run (an exception in the script). */
  function Collect(outcomes: seq<Result<PolygonRecord>>, count: nat): (r: Result<seq<PolygonRecord>>)
    requires count <= |outcomes|
    ensures r.Success? ==>
              |r.value| == count && forall t :: 0 <= t < count ==> outcomes[t] == Success(r.value[t])
    ensures r.Failure? ==>
              exists f :: 0 <= f < count && outcomes[f] == Failure(r.error)
                          && forall t :: 0 <= t < f ==> outcomes[t].Success?
    decreases count
  {
    if count == 0 then Success([])
    else
      var done :- Collect(outcomes, count - 1);
      var record :- outcomes[count - 1];
      Success(done + [record])
  }

  lemma {:induction false} CollectFailureSticks(outcomes: seq<Result<PolygonRecord>>, k: nat, count: nat)
    requires k <= count <= |outcomes|
    requires Collect(outcomes, k).Failure?
    ensures Collect(outcomes, count) == Failure(Collect(outcomes, k).error)
    decreases count
  {
    if k < count {
      CollectFailureSticks(outcomes, k, count - 1);
    }
  }

  /** The loop of main over the simplified polygons: find the neighbours,
      dilate, and emit the record. */
  method ExpandPolygons(ix: Intersector, unit: Point -> Point, records: seq<PolygonRecord>, fuel: nat)
    returns (out: Result<seq<PolygonRecord>>)
    requires Neighbours.AllMeasurable(NodeLists(records))
    ensures out == Collect(PerPolygon(ix, unit, records, fuel), |records|)
    ensures out.Success? ==>
              |out.value| == |records|
              && forall t :: 0 <= t < |records| ==>
                   out.value[t].objName == records[t].objName
                   && out.value[t].cloudName == records[t].cloudName
                   && DilatedWithNeighbours(ix, unit, NodeLists(records),
                                            Neighbours.NeighbourIndices(NodeLists(records), t),
                                            records[t].nodes, fuel) == Success(out.value[t].nodes)
  {
    ghost var outcomes := PerPolygon(ix, unit, records, fuel);
    var polygons := NodeLists(records);
    var lines := [];
    var t := 0;
    while t < |records|
      invariant 0 <= t <= |records|
      invariant Collect(outcomes, t) == Success(lines)
    {
      var neighbours := Neighbours.FindNeighbours(polygons, t);
      NeighbourIndicesValid(polygons, t);
      var dilated := DilatePolygonWithNeighbours(ix, unit, polygons, neighbours, records[t].nodes, fuel);
      assert outcomes[t] == Expanded(ix, unit, records, t, fuel);
      if dilated.Failure? {
        CollectFailureSticks(outcomes, t + 1, |records|);
        return Failure(dilated.error);
      }
      lines := lines + [PolygonRecord(records[t].objName, records[t].cloudName, dilated.value)];
      t := t + 1;
    }
    out := Success(lines);
  }

  /** The footprint records after simplify_polygons. */
  function SimplifiedRecords(records: seq<PolygonRecord>): seq<PolygonRecord>
    requires forall t :: 0 <= t < |records| ==> Simplify.FirstNodeClear(records[t].nodes)
  {
    seq(|records|, t requires 0 <= t < |records| =>
      PolygonRecord(records[t].objName, records[t].cloudName, Simplify.Simplified(records[t].nodes)))
  }

  /** main: simplify every polygon, then dilate each simplified polygon against
      the simplified neighbours it finds. */
  method ExpandFootprints(ix: Intersector, unit: Point -> Point, records: seq<PolygonRecord>, fuel: nat)
    returns (out: Result<seq<PolygonRecord>>)
    requires forall t :: 0 <= t < |records| ==> Simplify.FirstNodeClear(records[t].nodes)
    requires Neighbours.AllMeasurable(NodeLists(SimplifiedRecords(records)))
    ensures out == Collect(PerPolygon(ix, unit, SimplifiedRecords(records), fuel), |records|)
    ensures out.Success? ==>
              |out.value| == |records|
              && forall t :: 0 <= t < |records| ==>
                   out.value[t].objName == records[t].objName
                   && out.value[t].cloudName == records[t].cloudName
                   && DilatedWithNeighbours(ix, unit, NodeLists(SimplifiedRecords(records)),
                                            Neighbours.NeighbourIndices(NodeLists(SimplifiedRecords(records)), t),
                                            Simplify.Simplified(records[t].nodes), fuel) == Success(out.value[t].nodes)
  {
    var simplified := Simplify.SimplifyPolygons(records);
    assert simplified == SimplifiedRecords(records);
    out := ExpandPolygons(ix, unit, simplified, fuel);
  }
}
