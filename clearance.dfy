/** Keeping a dilated outline clear of the neighbouring footprints:
    check_intersection_with_neighbor lists where a dilation line crosses a
    neighbour's edges, and add_midway_nodes_2 inserts extra nodes between two
    dilated nodes until the line between them crosses no neighbour edge. */
module Clearance {
  import opened Geometry
  import opened Outcomes

  /** One reported crossing: the meeting point and the neighbour edge met. */
  datatype Crossing = Crossing(at: Point, edge: Segment)

  /** Edge `k` of a ring runs from node `k - 1` to node `k`; edge 0 closes the
      ring from its last node (a Python index of -1). */
  function RingEdge(ring: seq<Point>, k: nat): (e: Segment)
    requires k < |ring|
    ensures e.q == ring[k]
    ensures e.p == ring[if k == 0 then |ring| - 1 else k - 1]
  {
    Segment(ring[if k == 0 then |ring| - 1 else k - 1], ring[k])
  }

  /** `c` is what the check reports for edge `k` of `ring` against `line`. */
  predicate ReportedFor(ix: Intersector, line: Segment, ring: seq<Point>, k: nat, c: Crossing)
  {
    k < |ring| && ix.crosses(line, RingEdge(ring, k))
    && c == Crossing(ix.at(line, RingEdge(ring, k)), RingEdge(ring, k))
  }

  /** The crossings of `line` with the first `count` edges of `ring`, in edge order. */
  function RingCrossings(ix: Intersector, line: Segment, ring: seq<Point>, count: nat): seq<Crossing>
    requires count <= |ring|
    decreases count
  {
    if count == 0 then []
    else
      var prev := RingCrossings(ix, line, ring, count - 1);
      var e := RingEdge(ring, count - 1);
      if ix.crosses(line, e) then prev + [Crossing(ix.at(line, e), e)] else prev
  }

  /** A crossing is listed exactly when it is reported for one of the first
      `count` edges. */
  lemma {:induction false} RingCrossingsExactly(ix: Intersector, line: Segment, ring: seq<Point>, count: nat)
    requires count <= |ring|
    ensures forall c :: c in RingCrossings(ix, line, ring, count) <==>
              exists k :: 0 <= k < count && ReportedFor(ix, line, ring, k, c)
    decreases count
  {
    if count > 0 {
      RingCrossingsExactly(ix, line, ring, count - 1);
      var e := RingEdge(ring, count - 1);
      if ix.crosses(line, e) {
        assert ReportedFor(ix, line, ring, count - 1, Crossing(ix.at(line, e), e));
      }
    }
  }

  /** Every neighbour index names a polygon of the list. */
  predicate ValidNeighbours(polygons: seq<seq<Point>>, neighbours: seq<nat>)
  {
    forall i :: 0 <= i < |neighbours| ==> neighbours[i] < |polygons|
  }

  /** `c` is reported for some edge of neighbour number `i`. */
  predicate ReportedForNeighbour(ix: Intersector, line: Segment, polygons: seq<seq<Point>>,
                                 neighbours: seq<nat>, i: nat, k: nat, c: Crossing)
    requires ValidNeighbours(polygons, neighbours)
  {
    i < |neighbours| && ReportedFor(ix, line, polygons[neighbours[i]], k, c)
  }

  /** The crossings with the first `count` neighbours, neighbour by neighbour. */
  function CrossingsBelow(ix: Intersector, line: Segment, polygons: seq<seq<Point>>,
                          neighbours: seq<nat>, count: nat): seq<Crossing>
    requires ValidNeighbours(polygons, neighbours)
    requires count <= |neighbours|
    decreases count
  {
    if count == 0 then []
    else
      var ring := polygons[neighbours[count - 1]];
      CrossingsBelow(ix, line, polygons, neighbours, count - 1) + RingCrossings(ix, line, ring, |ring|)
  }

  /** A crossing is listed exactly when it is reported for some edge of one of
      the first `count` neighbours. */
  lemma {:induction false} CrossingsBelowExactly(ix: Intersector, line: Segment, polygons: seq<seq<Point>>,
                                                 neighbours: seq<nat>, count: nat)
    requires ValidNeighbours(polygons, neighbours)
    requires count <= |neighbours|
    ensures forall c :: c in CrossingsBelow(ix, line, polygons, neighbours, count) <==>
              exists i, k :: 0 <= i < count && ReportedForNeighbour(ix, line, polygons, neighbours, i, k, c)
    decreases count
  {
    if count > 0 {
      var last: nat := count - 1;
      var ring := polygons[neighbours[last]];
      CrossingsBelowExactly(ix, line, polygons, neighbours, last);
      RingCrossingsExactly(ix, line, ring, |ring|);
      forall c | c in RingCrossings(ix, line, ring, |ring|)
        ensures exists k :: ReportedForNeighbour(ix, line, polygons, neighbours, last, k, c)
      {
        var k :| 0 <= k < |ring| && ReportedFor(ix, line, ring, k, c);
        assert ReportedForNeighbour(ix, line, polygons, neighbours, last, k, c);
      }
    }
  }

  /** Everything check_intersection_with_neighbor reports for `line`. */
  function Crossings(ix: Intersector, line: Segment, polygons: seq<seq<Point>>, neighbours: seq<nat>): seq<Crossing>
    requires ValidNeighbours(polygons, neighbours)
  {
    CrossingsBelow(ix, line, polygons, neighbours, |neighbours|)
  }

  /** A crossing is reported exactly when some edge of some neighbour meets
      the line; nothing is reported exactly when no edge does. */
  lemma CrossingsExactly(ix: Intersector, line: Segment, polygons: seq<seq<Point>>, neighbours: seq<nat>)
    requires ValidNeighbours(polygons, neighbours)
    ensures forall c :: c in Crossings(ix, line, polygons, neighbours) <==>
              exists i, k :: ReportedForNeighbour(ix, line, polygons, neighbours, i, k, c)
    ensures Crossings(ix, line, polygons, neighbours) == [] <==>
              forall i: nat, k: nat :: i < |neighbours| && k < |polygons[neighbours[i]]|
                ==> !ix.crosses(line, RingEdge(polygons[neighbours[i]], k))
  {
    var r := Crossings(ix, line, polygons, neighbours);
    CrossingsBelowExactly(ix, line, polygons, neighbours, |neighbours|);
    if r != [] {
      assert r[0] in r;
    }
    forall i: nat, k: nat | 0 <= i < |neighbours| && 0 <= k < |polygons[neighbours[i]]|
                  && ix.crosses(line, RingEdge(polygons[neighbours[i]], k))
      ensures r != []
    {
      var e := RingEdge(polygons[neighbours[i]], k);
      assert ReportedForNeighbour(ix, line, polygons, neighbours, i, k, Crossing(ix.at(line, e), e));
      assert Crossing(ix.at(line, e), e) in r;
    }
  }

  /** check_intersection_with_neighbor(p0, p1, ...): the found flag and the
      crossings of the dilation line p0 -> p1 with every edge of every
      neighbour, in neighbour order and edge order. */
  method CheckIntersection(ix: Intersector, p0: Point, p1: Point,
                           polygons: seq<seq<Point>>, neighbours: seq<nat>)
    returns (found: bool, data: seq<Crossing>)
    requires ValidNeighbours(polygons, neighbours)
    ensures data == Crossings(ix, Segment(p0, p1), polygons, neighbours)
    ensures found <==> data != []
  {
    var line := Segment(p0, p1);
    found := false;
    data := [];
    var i := 0;
    while i < |neighbours|
      invariant 0 <= i <= |neighbours|
      invariant data == CrossingsBelow(ix, line, polygons, neighbours, i)
      invariant found <==> data != []
    {
      var ring := polygons[neighbours[i]];
      ghost var before := data;
      var k := 0;
      while k < |ring|
        invariant 0 <= k <= |ring|
        invariant data == before + RingCrossings(ix, line, ring, k)
        invariant found <==> data != []
      {
        var e := Segment(ring[if k == 0 then |ring| - 1 else k - 1], ring[k]);
        if ix.crosses(line, e) {
          found := true;
          data := data + [Crossing(ix.at(line, e), e)];
        }
        k := k + 1;
      }
      i := i + 1;
    }
  }

  /** The index the nearest-crossing loop ends on: the first crossing with
      the smallest distance to `from` (a later tie does not replace it). */
  function NearestIndex(data: seq<Crossing>, from: Point): (r: nat)
    requires |data| > 0
    ensures r < |data|
    decreases |data|
  {
    if |data| == 1 then 0
    else
      var last := |data| - 1;
      var best := NearestIndex(data[..last], from);
      if Dist2(from, data[last].at) < Dist2(from, data[best].at) then last else best
  }

  /** The chosen crossing is a nearest one, and no earlier crossing is as
      near. */
  lemma {:induction false} NearestIndexIsFirstNearest(data: seq<Crossing>, from: Point)
    requires |data| > 0
    ensures var r := NearestIndex(data, from);
            (forall j :: 0 <= j < |data| ==> Dist2(from, data[r].at) <= Dist2(from, data[j].at))
            && (forall j :: 0 <= j < r ==> Dist2(from, data[r].at) < Dist2(from, data[j].at))
    decreases |data|
  {
    if |data| > 1 {
      var last := |data| - 1;
      NearestIndexIsFirstNearest(data[..last], from);
      var best := NearestIndex(data[..last], from);
      assert forall j :: 0 <= j < last ==> data[..last][j] == data[j];
    }
  }

  /** The end of the crossed neighbour edge nearer to the undilated edge
      (a, b); equally near ends give the second one. */
  function NearerEnd(a: Point, b: Point, edge: Segment): (v: Point)
    requires Dist2(b, a) != 0.0
    ensures v == edge.p || v == edge.q
  {
    if SegDist2(a, b, edge.p) < SegDist2(a, b, edge.q) then edge.p else edge.q
  }

  /** The chosen end is at most as far from the undilated edge as the other
      one; equally near ends give the second one. */
  lemma NearerEndIsNearer(a: Point, b: Point, edge: Segment)
    requires Dist2(b, a) != 0.0
    ensures var v := NearerEnd(a, b, edge);
            SegDist2(a, b, v) <= SegDist2(a, b, edge.p) && SegDist2(a, b, v) <= SegDist2(a, b, edge.q)
            && (SegDist2(a, b, edge.p) == SegDist2(a, b, edge.q) ==> v == edge.q)
  {
  }

  /** The extra node for neighbour node `v`: halfway between `v` and the foot
      of the perpendicular from `v` on the undilated edge line (a, b). */
  function MidwayNode(a: Point, b: Point, v: Point): Point
    requires Dist2(b, a) != 0.0
  {
    Mid(Project(v, a, b), v)
  }

  /** The extra node lies on the perpendicular from `v` to the edge line, at
      equal distance from `v` and from its foot, at half the gap between them. */
  lemma MidwayNodeHalvesGap(a: Point, b: Point, v: Point)
    requires Dist2(b, a) != 0.0
    ensures Dist2(MidwayNode(a, b, v), v) == Dist2(MidwayNode(a, b, v), Project(v, a, b))
    ensures 4.0 * Dist2(MidwayNode(a, b, v), v) == Dist2(Project(v, a, b), v)
    ensures Dot(Sub(v, MidwayNode(a, b, v)), Sub(b, a)) == 0.0
  {
    var f := Project(v, a, b);
    var m := MidwayNode(a, b, v);
    MidIsHalfway(f, v);
    assert Sub(v, m) == Scale(0.5, Sub(v, f));
    assert Dot(Scale(0.5, Sub(v, f)), Sub(b, a)) == 0.5 * Dot(Sub(v, f), Sub(b, a));
  }

  /** The new node for a search step from `from`: take the nearest crossing,
      the end of its edge nearer the undilated edge, and the midway node of
      that end. */
  function StepNode(a: Point, b: Point, data: seq<Crossing>, from: Point): Point
    requires Dist2(b, a) != 0.0 && |data| > 0
  {
    MidwayNode(a, b, NearerEnd(a, b, data[NearestIndex(data, from)].edge))
  }

  /** The alternating search of add_midway_nodes_2 from its current state:
      `forward` starts with the start node and grows at its end, `backward`
      ends with the goal and grows at its front, and `data` holds the
      crossings of the line checked last.  Each step spends one unit of
      `fuel`; the source has no such bound. */
  function Search(ix: Intersector, polygons: seq<seq<Point>>, neighbours: seq<nat>, a: Point, b: Point,
                  forward: seq<Point>, backward: seq<Point>, data: seq<Crossing>,
                  movingForward: bool, fuel: nat): Result<seq<Point>>
    requires ValidNeighbours(polygons, neighbours)
    requires Dist2(b, a) != 0.0
    requires |forward| > 0 && |backward| > 0
    decreases fuel, 1
  {
    if |data| == 0 then Success(forward[1..] + backward[..|backward| - 1])
    else if fuel == 0 then Failure(IterationCap)
    else SearchStep(ix, polygons, neighbours, a, b, forward, backward, data, movingForward, fuel)
  }

  /** One step of the search: a new node at the end of `forward` or at the
      front of `backward`, then the check of the line from it to the other
      side, and on with the search. */
  function SearchStep(ix: Intersector, polygons: seq<seq<Point>>, neighbours: seq<nat>, a: Point, b: Point,
                      forward: seq<Point>, backward: seq<Point>, data: seq<Crossing>,
                      movingForward: bool, fuel: nat): Result<seq<Point>>
    requires ValidNeighbours(polygons, neighbours)
    requires Dist2(b, a) != 0.0
    requires |forward| > 0 && |backward| > 0 && |data| > 0 && fuel > 0
    decreases fuel, 0
  {
    if movingForward then
      var node := StepNode(a, b, data, forward[|forward| - 1]);
      Search(ix, polygons, neighbours, a, b, forward + [node], backward,
             Crossings(ix, Segment(backward[0], node), polygons, neighbours), false, fuel - 1)
    else
      var node := StepNode(a, b, data, backward[0]);
      Search(ix, polygons, neighbours, a, b, forward, [node] + backward,
             Crossings(ix, Segment(forward[|forward| - 1], node), polygons, neighbours), true, fuel - 1)
  }

  /** add_midway_nodes_2 with a step budget: the nodes to insert between the
      last dilated node and `goal`, searched against undilated edge
      (k - 1, k).  The distance to that edge is only taken once a crossing
      has been found, so only then does a zero-length edge fail. */
  function MidwayNodes(ix: Intersector, polygons: seq<seq<Point>>, neighbours: seq<nat>,
                       undilated: seq<Point>, k: nat, dilated: seq<Point>, goal: Point, fuel: nat): Result<seq<Point>>
    requires ValidNeighbours(polygons, neighbours)
    requires k < |undilated| && |dilated| > 0
  {
    var start := dilated[|dilated| - 1];
    var data := Crossings(ix, Segment(start, goal), polygons, neighbours);
    var edge := RingEdge(undilated, k);
    if |data| == 0 then Success([])
    else if Dist2(edge.q, edge.p) == 0.0 then Failure(ZeroLengthEdge)
    else Search(ix, polygons, neighbours, edge.p, edge.q, [start], [goal], data, true, fuel)
  }

  /** A crossing whose edge is some edge of some neighbour. */
  predicate OnNeighbourEdge(polygons: seq<seq<Point>>, neighbours: seq<nat>, c: Crossing)
    requires ValidNeighbours(polygons, neighbours)
  {
    exists i, k :: 0 <= i < |neighbours| && 0 <= k < |polygons[neighbours[i]]|
                   && c.edge == RingEdge(polygons[neighbours[i]], k)
  }

  lemma CrossingsOnNeighbourEdges(ix: Intersector, line: Segment, polygons: seq<seq<Point>>, neighbours: seq<nat>)
    requires ValidNeighbours(polygons, neighbours)
    ensures forall c :: c in Crossings(ix, line, polygons, neighbours) ==> OnNeighbourEdge(polygons, neighbours, c)
  {
    CrossingsExactly(ix, line, polygons, neighbours);
  }

  /** `m` is the midway node of some node of some neighbour. */
  predicate MidwayCandidate(polygons: seq<seq<Point>>, neighbours: seq<nat>, a: Point, b: Point, m: Point)
    requires ValidNeighbours(polygons, neighbours)
    requires Dist2(b, a) != 0.0
  {
    exists i, j :: 0 <= i < |neighbours| && 0 <= j < |polygons[neighbours[i]]|
                   && m == MidwayNode(a, b, polygons[neighbours[i]][j])
  }

  lemma StepNodeIsCandidate(polygons: seq<seq<Point>>, neighbours: seq<nat>, a: Point, b: Point,
                            data: seq<Crossing>, from: Point)
    requires ValidNeighbours(polygons, neighbours)
    requires Dist2(b, a) != 0.0 && |data| > 0
    requires forall c :: c in data ==> OnNeighbourEdge(polygons, neighbours, c)
    ensures MidwayCandidate(polygons, neighbours, a, b, StepNode(a, b, data, from))
  {
    var hit := data[NearestIndex(data, from)];
    assert OnNeighbourEdge(polygons, neighbours, hit);
    var i, k :| 0 <= i < |neighbours| && 0 <= k < |polygons[neighbours[i]]|
                && hit.edge == RingEdge(polygons[neighbours[i]], k);
    var ring := polygons[neighbours[i]];
    var v := NearerEnd(a, b, hit.edge);
    if v == hit.edge.q {
      assert v == ring[k];
    } else {
      assert v == ring[if k == 0 then |ring| - 1 else k - 1];
    }
  }

  /** Every node the search returns is a midway node of a neighbour node. */
  lemma {:induction false} SearchNodesAreMidway(ix: Intersector, polygons: seq<seq<Point>>, neighbours: seq<nat>,
                                                a: Point, b: Point, forward: seq<Point>, backward: seq<Point>,
                                                data: seq<Crossing>, movingForward: bool, fuel: nat)
    requires ValidNeighbours(polygons, neighbours)
    requires Dist2(b, a) != 0.0
    requires |forward| > 0 && |backward| > 0
    requires forall c :: c in data ==> OnNeighbourEdge(polygons, neighbours, c)
    requires forall m :: m in forward[1..] ==> MidwayCandidate(polygons, neighbours, a, b, m)
    requires forall m :: m in backward[..|backward| - 1] ==> MidwayCandidate(polygons, neighbours, a, b, m)
    ensures var r := Search(ix, polygons, neighbours, a, b, forward, backward, data, movingForward, fuel);
            r.Success? ==> forall m :: m in r.value ==> MidwayCandidate(polygons, neighbours, a, b, m)
    decreases fuel
  {
    if |data| == 0 || fuel == 0 {
    } else if movingForward {
      var node := StepNode(a, b, data, forward[|forward| - 1]);
      StepNodeIsCandidate(polygons, neighbours, a, b, data, forward[|forward| - 1]);
      CrossingsOnNeighbourEdges(ix, Segment(backward[0], node), polygons, neighbours);
      assert (forward + [node])[1..] == forward[1..] + [node];
      SearchNodesAreMidway(ix, polygons, neighbours, a, b, forward + [node], backward,
                           Crossings(ix, Segment(backward[0], node), polygons, neighbours), false, fuel - 1);
    } else {
      var node := StepNode(a, b, data, backward[0]);
      StepNodeIsCandidate(polygons, neighbours, a, b, data, backward[0]);
      CrossingsOnNeighbourEdges(ix, Segment(forward[|forward| - 1], node), polygons, neighbours);
      assert ([node] + backward)[..|backward|] == [node] + backward[..|backward| - 1];
      SearchNodesAreMidway(ix, polygons, neighbours, a, b, forward, [node] + backward,
                           Crossings(ix, Segment(forward[|forward| - 1], node), polygons, neighbours), true, fuel - 1);
    }
  }

  /** The number of steps the search takes from its current state (the
      source's `points_added`): it stops when the line checked last is clear
      or the budget is spent. */
  function SearchSteps(ix: Intersector, polygons: seq<seq<Point>>, neighbours: seq<nat>, a: Point, b: Point,
                       forward: seq<Point>, backward: seq<Point>, data: seq<Crossing>,
                       movingForward: bool, fuel: nat): nat
    requires ValidNeighbours(polygons, neighbours)
    requires Dist2(b, a) != 0.0
    requires |forward| > 0 && |backward| > 0
    decreases fuel
  {
    if |data| == 0 || fuel == 0 then 0
    else if movingForward then
      var node := StepNode(a, b, data, forward[|forward| - 1]);
      1 + SearchSteps(ix, polygons, neighbours, a, b, forward + [node], backward,
                      Crossings(ix, Segment(backward[0], node), polygons, neighbours), false, fuel - 1)
    else
      var node := StepNode(a, b, data, backward[0]);
      1 + SearchSteps(ix, polygons, neighbours, a, b, forward, [node] + backward,
                      Crossings(ix, Segment(forward[|forward| - 1], node), polygons, neighbours), true, fuel - 1)
  }

  /** The search adds exactly one node per step: the result holds the nodes
      the chain started with plus `SearchSteps` new ones, at most `fuel` of
      them, and at least one when it starts on a crossing. */
  lemma {:induction false} SearchLength(ix: Intersector, polygons: seq<seq<Point>>, neighbours: seq<nat>,
                                        a: Point, b: Point, forward: seq<Point>, backward: seq<Point>,
                                        data: seq<Crossing>, movingForward: bool, fuel: nat)
    requires ValidNeighbours(polygons, neighbours)
    requires Dist2(b, a) != 0.0
    requires |forward| > 0 && |backward| > 0
    ensures var r := Search(ix, polygons, neighbours, a, b, forward, backward, data, movingForward, fuel);
            var steps := SearchSteps(ix, polygons, neighbours, a, b, forward, backward, data, movingForward, fuel);
            r.Success? ==> |r.value| == |forward| + |backward| - 2 + steps
                           && steps <= fuel
                           && (|data| > 0 <==> steps > 0)
    decreases fuel
  {
    if |data| == 0 || fuel == 0 {
    } else if movingForward {
      var node := StepNode(a, b, data, forward[|forward| - 1]);
      SearchLength(ix, polygons, neighbours, a, b, forward + [node], backward,
                   Crossings(ix, Segment(backward[0], node), polygons, neighbours), false, fuel - 1);
    } else {
      var node := StepNode(a, b, data, backward[0]);
      SearchLength(ix, polygons, neighbours, a, b, forward, [node] + backward,
                   Crossings(ix, Segment(forward[|forward| - 1], node), polygons, neighbours), true, fuel - 1);
    }
  }

  /** The line between two nodes, checked in either direction, met nothing. */
  predicate LinkClear(ix: Intersector, polygons: seq<seq<Point>>, neighbours: seq<nat>, u: Point, v: Point)
    requires ValidNeighbours(polygons, neighbours)
  {
    Crossings(ix, Segment(u, v), polygons, neighbours) == []
    || Crossings(ix, Segment(v, u), polygons, neighbours) == []
  }

  /** The search stops only on a clear check: in the chain start, nodes,
      goal some link crosses no neighbour edge. */
  lemma {:induction false} SearchEndsOnClearLink(ix: Intersector, polygons: seq<seq<Point>>, neighbours: seq<nat>,
                                                 a: Point, b: Point, forward: seq<Point>, backward: seq<Point>,
                                                 data: seq<Crossing>, movingForward: bool, fuel: nat)
    requires ValidNeighbours(polygons, neighbours)
    requires Dist2(b, a) != 0.0
    requires |forward| > 0 && |backward| > 0
    requires data == Crossings(ix, Segment(forward[|forward| - 1], backward[0]), polygons, neighbours)
          || data == Crossings(ix, Segment(backward[0], forward[|forward| - 1]), polygons, neighbours)
    ensures var r := Search(ix, polygons, neighbours, a, b, forward, backward, data, movingForward, fuel);
            r.Success? ==>
              var chain := [forward[0]] + r.value + [backward[|backward| - 1]];
              exists m :: 0 <= m < |chain| - 1 && LinkClear(ix, polygons, neighbours, chain[m], chain[m + 1])
    decreases fuel
  {
    if |data| == 0 {
      var r := Search(ix, polygons, neighbours, a, b, forward, backward, data, movingForward, fuel);
      var chain := [forward[0]] + r.value + [backward[|backward| - 1]];
      assert chain == forward + backward;
      var m := |forward| - 1;
      assert chain[m] == forward[|forward| - 1] && chain[m + 1] == backward[0];
      assert LinkClear(ix, polygons, neighbours, chain[m], chain[m + 1]);
    } else if fuel == 0 {
    } else if movingForward {
      var node := StepNode(a, b, data, forward[|forward| - 1]);
      SearchEndsOnClearLink(ix, polygons, neighbours, a, b, forward + [node], backward,
                            Crossings(ix, Segment(backward[0], node), polygons, neighbours), false, fuel - 1);
    } else {
      var node := StepNode(a, b, data, backward[0]);
      SearchEndsOnClearLink(ix, polygons, neighbours, a, b, forward, [node] + backward,
                            Crossings(ix, Segment(forward[|forward| - 1], node), polygons, neighbours), true, fuel - 1);
    }
  }

  /** No nodes are added exactly when the line from the last dilated node to
      the goal crosses no neighbour edge; never more than `fuel` are added. */
  lemma MidwayNodesCount(ix: Intersector, polygons: seq<seq<Point>>, neighbours: seq<nat>,
                         undilated: seq<Point>, k: nat, dilated: seq<Point>, goal: Point, fuel: nat)
    requires ValidNeighbours(polygons, neighbours)
    requires k < |undilated| && |dilated| > 0
    ensures var r := MidwayNodes(ix, polygons, neighbours, undilated, k, dilated, goal, fuel);
            (r == Success([]) <==> Crossings(ix, Segment(dilated[|dilated| - 1], goal), polygons, neighbours) == [])
            && (r.Success? ==> |r.value| <= fuel)
  {
    var start := dilated[|dilated| - 1];
    var data := Crossings(ix, Segment(start, goal), polygons, neighbours);
    var edge := RingEdge(undilated, k);
    if |data| > 0 && Dist2(edge.q, edge.p) != 0.0 {
      SearchLength(ix, polygons, neighbours, edge.p, edge.q, [start], [goal], data, true, fuel);
    }
  }

  /** Every added node is the midway node, for undilated edge (k - 1, k), of a
      node of a neighbour; and the chain from the last dilated node through
      the added nodes to the goal has a link that crosses nothing. */
  lemma MidwayNodesShape(ix: Intersector, polygons: seq<seq<Point>>, neighbours: seq<nat>,
                         undilated: seq<Point>, k: nat, dilated: seq<Point>, goal: Point, fuel: nat)
    requires ValidNeighbours(polygons, neighbours)
    requires k < |undilated| && |dilated| > 0
    ensures var r := MidwayNodes(ix, polygons, neighbours, undilated, k, dilated, goal, fuel);
            var edge := RingEdge(undilated, k);
            r.Success? && r.value != [] ==>
              Dist2(edge.q, edge.p) != 0.0
              && forall m :: m in r.value ==> MidwayCandidate(polygons, neighbours, edge.p, edge.q, m)
    ensures var r := MidwayNodes(ix, polygons, neighbours, undilated, k, dilated, goal, fuel);
            r.Success? ==>
              var chain := [dilated[|dilated| - 1]] + r.value + [goal];
              exists m :: 0 <= m < |chain| - 1 && LinkClear(ix, polygons, neighbours, chain[m], chain[m + 1])
  {
    var start := dilated[|dilated| - 1];
    var data := Crossings(ix, Segment(start, goal), polygons, neighbours);
    var edge := RingEdge(undilated, k);
    if |data| == 0 {
      var chain := [start] + [] + [goal];
      assert LinkClear(ix, polygons, neighbours, chain[0], chain[1]);
    } else if Dist2(edge.q, edge.p) != 0.0 {
      CrossingsOnNeighbourEdges(ix, Segment(start, goal), polygons, neighbours);
      SearchNodesAreMidway(ix, polygons, neighbours, edge.p, edge.q, [start], [goal], data, true, fuel);
      SearchEndsOnClearLink(ix, polygons, neighbours, edge.p, edge.q, [start], [goal], data, true, fuel);
    }
  }

  /** The nearest-crossing loop of add_midway_nodes_2: keeps the first
      crossing whose distance to `from` beats every earlier one. */
  method NearestCrossing(data: seq<Crossing>, from: Point) returns (best: nat)
    requires |data| > 0
    ensures best == NearestIndex(data, from)
  {
    best := 0;
    var smallest := Dist2(from, data[0].at);
    var j := 1;
    while j < |data|
      invariant 1 <= j <= |data|
      invariant best == NearestIndex(data[..j], from)
      invariant smallest == Dist2(from, data[best].at)
    {
      assert data[..j + 1][..j] == data[..j];
      var distance := Dist2(from, data[j].at);
      if distance < smallest {
        smallest := distance;
        best := j;
      }
      j := j + 1;
    }
    assert data[..j] == data;
  }

  /** One search step's node, computed as the source does it. */
  method NewMidwayNode(a: Point, b: Point, data: seq<Crossing>, from: Point) returns (node: Point)
    requires Dist2(b, a) != 0.0 && |data| > 0
    ensures node == StepNode(a, b, data, from)
  {
    var best := NearestCrossing(data, from);
    var edge := data[best].edge;
    var nearest := if SegDist2(a, b, edge.p) < SegDist2(a, b, edge.q) then edge.p else edge.q;
    var projected := Project(nearest, a, b);
    node := Mid(projected, nearest);
  }

  /** add_midway_nodes_2 with a step budget: the flag-driven loop alternates
      appending to `forward` and inserting at the front of `backward` until
      the line last checked is clear. */
  method AddMidwayNodes(ix: Intersector, polygons: seq<seq<Point>>, neighbours: seq<nat>,
                        undilated: seq<Point>, k: nat, dilated: seq<Point>, goal: Point, fuel: nat)
    returns (result: Result<seq<Point>>)
    requires ValidNeighbours(polygons, neighbours)
    requires k < |undilated| && |dilated| > 0
    ensures result == MidwayNodes(ix, polygons, neighbours, undilated, k, dilated, goal, fuel)
  {
    var start := dilated[|dilated| - 1];
    var forward := [start];
    var backward := [goal];
    var found, data := CheckIntersection(ix, start, goal, polygons, neighbours);
    if !found {
      return Success([]);
    }
    var edge := RingEdge(undilated, k);
    var a, b := edge.p, edge.q;
    if Dist2(b, a) == 0.0 {
      return Failure(ZeroLengthEdge);
    }
    ghost var data0 := data;
    var movingForward := true;
    var pointsAdded: nat := 0;
    while found
      invariant pointsAdded <= fuel
      invariant |forward| > 0 && |backward| > 0
      invariant |forward| + |backward| - 2 == pointsAdded
      invariant found <==> data != []
      invariant Search(ix, polygons, neighbours, a, b, forward, backward, data, movingForward, fuel - pointsAdded)
             == Search(ix, polygons, neighbours, a, b, [start], [goal], data0, true, fuel)
      decreases fuel - pointsAdded
    {
      if pointsAdded == fuel {
        return Failure(IterationCap);
      }
      if movingForward {
        var node := NewMidwayNode(a, b, data, forward[|forward| - 1]);
        forward := forward + [node];
        pointsAdded := pointsAdded + 1;
        movingForward := false;
        found, data := CheckIntersection(ix, backward[0], node, polygons, neighbours);
      } else {
        var node := NewMidwayNode(a, b, data, backward[0]);
        backward := [node] + backward;
        pointsAdded := pointsAdded + 1;
        movingForward := true;
        found, data := CheckIntersection(ix, forward[|forward| - 1], node, polygons, neighbours);
      }
    }
    result := Success(forward[1..] + backward[..|backward| - 1]);
  }
}
