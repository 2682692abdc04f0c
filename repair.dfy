/** Cleaning a dilated outline before it is written: remove_duplicate_nodes
    drops nodes that sit on their predecessor, and remove_self_intersections
    picks a start node away from tangled corners and then cuts out every loop
    that two crossing edges enclose. */
module Repair {
  import opened Geometry
  import opened Outcomes
  import opened Sequences

  /** 0.001 squared: the distance a node must keep from its predecessor. */
  const DuplicateDistance2 := 0.000001

  /** The node before node `j` in ring order; node 0 is preceded by the last. */
  function CyclicPrevious(xs: seq<Point>, j: nat): Point
    requires j < |xs|
  {
    xs[if j == 0 then |xs| - 1 else j - 1]
  }

  /** Two nodes farther apart than 0.001. */
  predicate Apart(a: Point, b: Point)
  {
    Dist2(a, b) > DuplicateDistance2
  }

  /** Node `j` survives de-duplication: it is apart from the input node
      before it. */
  predicate Kept(xs: seq<Point>, j: nat)
    requires j < |xs|
  {
    Apart(xs[j], CyclicPrevious(xs, j))
  }

  /** Which nodes survive, node by node. */
  function KeepMask(xs: seq<Point>): seq<bool>
  {
    MaskBelow(xs, |xs|)
  }

  function MaskBelow(xs: seq<Point>, count: nat): (m: seq<bool>)
    requires count <= |xs|
    ensures |m| == count
    decreases count
  {
    if count == 0 then [] else MaskBelow(xs, count - 1) + [Kept(xs, count - 1)]
  }

  /** Position `j` of the mask says whether node `j` is kept. */
  lemma {:induction false} MaskAt(xs: seq<Point>, count: nat, j: nat)
    requires j < count <= |xs|
    ensures MaskBelow(xs, count)[j] == Kept(xs, j)
    decreases count
  {
    if j < count - 1 {
      MaskAt(xs, count - 1, j);
    }
  }

  /** The positions below `count` that a mask marks, in order. */
  function Positions(keep: seq<bool>, count: nat): (r: seq<nat>)
    requires count <= |keep|
    ensures StrictlyIncreasing(r)
    ensures |r| <= count
    ensures forall m :: 0 <= m < |r| ==> r[m] < count
    ensures forall j: nat :: j in r <==> j < count && keep[j]
    decreases count
  {
    if count == 0 then []
    else Positions(keep, count - 1) + (if keep[count - 1] then [count - 1] else [])
  }

  /** The marked nodes among the first `count`, in order. */
  function Pick(xs: seq<Point>, keep: seq<bool>, count: nat): (r: seq<Point>)
    requires |keep| == |xs| && count <= |xs|
    ensures |r| == |Positions(keep, count)|
    ensures forall m :: 0 <= m < |r| ==> r[m] == xs[Positions(keep, count)[m]]
    decreases count
  {
    if count == 0 then []
    else Pick(xs, keep, count - 1) + (if keep[count - 1] then [xs[count - 1]] else [])
  }

  /** The output of remove_duplicate_nodes: the nodes at the surviving
      indices, in input order (an in-order subsequence of the input). */
  function Deduplicated(xs: seq<Point>): seq<Point>
  {
    Pick(xs, KeepMask(xs), |xs|)
  }

  /** The output is an in-order subsequence of the input: output node `m` is
      input node `idx[m]` for strictly increasing indices `idx`, and an index
      is among them exactly when its node is farther than 0.001 from the node
      before it round the ring. */
  lemma DeduplicatedIsKeptSubsequence(xs: seq<Point>)
    ensures var idx := Positions(KeepMask(xs), |xs|);
            var d := Deduplicated(xs);
            |d| == |idx| && StrictlyIncreasing(idx)
            && (forall m :: 0 <= m < |d| ==> idx[m] < |xs| && d[m] == xs[idx[m]])
            && (forall j: nat :: j in idx <==> j < |xs| && Kept(xs, j))
  {
    var keep := KeepMask(xs);
    forall j: nat | j < |xs|
      ensures keep[j] == Kept(xs, j)
    {
      MaskAt(xs, |xs|, j);
    }
  }

  /** A ring whose nodes all keep their distance comes back unchanged, and
      only such a ring does. */
  lemma DeduplicatedUnchangedIff(xs: seq<Point>)
    ensures Deduplicated(xs) == xs <==> forall j :: 0 <= j < |xs| ==> Kept(xs, j)
  {
    var keep := KeepMask(xs);
    if forall j :: 0 <= j < |xs| ==> Kept(xs, j) {
      forall j | 0 <= j < |xs|
        ensures keep[j]
      {
        MaskAt(xs, |xs|, j);
      }
      AllMarkedIsEverything(keep, |xs|);
    } else {
      var j :| 0 <= j < |xs| && !Kept(xs, j);
      MaskAt(xs, |xs|, j);
      UnmarkedShortens(keep, |xs|, j);
    }
  }

  lemma {:induction false} AllMarkedIsEverything(keep: seq<bool>, count: nat)
    requires count <= |keep|
    requires forall j :: 0 <= j < count ==> keep[j]
    ensures |Positions(keep, count)| == count
    ensures forall m :: 0 <= m < count ==> Positions(keep, count)[m] == m
    decreases count
  {
    if count > 0 {
      AllMarkedIsEverything(keep, count - 1);
    }
  }

  /** Every unmarked position shortens the output by one. */
  lemma {:induction false} UnmarkedShortens(keep: seq<bool>, count: nat, j: nat)
    requires j < count <= |keep|
    requires !keep[j]
    ensures |Positions(keep, count)| < count
    decreases count
  {
    if j < count - 1 {
      UnmarkedShortens(keep, count - 1, j);
    }
  }

  lemma Dist2Self(p: Point)
    ensures Dist2(p, p) == 0.0
  {
    assert Sub(p, p) == Origin;
  }

  /** For a closed ring [p0, ..., p(n-1), p0] whose nodes all keep their
      distance from their cyclic predecessor in [p0, ..., p(n-1)], the leading
      copy of p0 is dropped and the trailing one kept. */
  lemma ClosedRingDropsLeadingCopy(core: seq<Point>)
    requires |core| >= 1
    requires forall j :: 0 <= j < |core| ==> Kept(core, j)
    ensures Deduplicated(core + [core[0]]) == core[1..] + [core[0]]
  {
    var xs := core + [core[0]];
    ClosedRingMask(core);
    OnlyFirstUnmarked(xs, KeepMask(xs));
    assert xs[1..] == core[1..] + [core[0]];
  }

  lemma ClosedRingMask(core: seq<Point>)
    requires |core| >= 1
    requires forall j :: 0 <= j < |core| ==> Kept(core, j)
    ensures !KeepMask(core + [core[0]])[0]
    ensures forall j :: 1 <= j < |core| + 1 ==> KeepMask(core + [core[0]])[j]
  {
    ClosedRingLeadingCopy(core);
    forall j | 1 <= j < |core| + 1
      ensures KeepMask(core + [core[0]])[j]
    {
      ClosedRingMaskAt(core, j);
    }
  }

  lemma ClosedRingMaskAt(core: seq<Point>, j: nat)
    requires 1 <= j <= |core|
    requires Kept(core, if j == |core| then 0 else j)
    ensures KeepMask(core + [core[0]])[j]
  {
    var xs := core + [core[0]];
    var k := if j == |core| then 0 else j;
    assert xs[j] == core[k] && CyclicPrevious(xs, j) == CyclicPrevious(core, k);
    KeptTransfer(core, k, xs, j);
    MaskAt(xs, |xs|, j);
  }

  lemma ClosedRingLeadingCopy(core: seq<Point>)
    requires |core| >= 1
    ensures !KeepMask(core + [core[0]])[0]
  {
    LeadingCopyDropped(core);
    MaskAt(core + [core[0]], |core| + 1, 0);
  }

  lemma LeadingCopyDropped(core: seq<Point>)
    requires |core| >= 1
    ensures !Kept(core + [core[0]], 0)
  {
    var xs := core + [core[0]];
    assert CyclicPrevious(xs, 0) == core[0];
    assert xs[0] == core[0];
    Dist2Self(core[0]);
  }

  /** Whether a node is kept depends only on it and its predecessor. */
  lemma KeptTransfer(xs: seq<Point>, j: nat, ys: seq<Point>, k: nat)
    requires j < |xs| && k < |ys|
    requires xs[j] == ys[k] && CyclicPrevious(xs, j) == CyclicPrevious(ys, k)
    ensures Kept(xs, j) == Kept(ys, k)
  {
  }

  /** When only position 0 is unmarked the rest comes back in order. */
  lemma OnlyFirstUnmarked(xs: seq<Point>, keep: seq<bool>)
    requires |keep| == |xs| >= 1
    requires !keep[0]
    requires forall j :: 1 <= j < |xs| ==> keep[j]
    ensures Pick(xs, keep, |xs|) == xs[1..]
  {
    MarkedAreTail(keep, |xs|);
    var d := Pick(xs, keep, |xs|);
    assert |d| == |xs| - 1;
    forall m | 0 <= m < |d|
      ensures d[m] == xs[1..][m]
    {
      assert Positions(keep, |xs|)[m] == m + 1;
      assert d[m] == xs[Positions(keep, |xs|)[m]];
      assert xs[1..][m] == xs[m + 1];
    }
  }

  lemma {:induction false} MarkedAreTail(keep: seq<bool>, count: nat)
    requires 1 <= count <= |keep|
    requires !keep[0]
    requires forall j :: 1 <= j < |keep| ==> keep[j]
    ensures |Positions(keep, count)| == count - 1
    ensures forall m :: 0 <= m < count - 1 ==> Positions(keep, count)[m] == m + 1
    decreases count
  {
    if count > 1 {
      MarkedAreTail(keep, count - 1);
    }
  }

  /** remove_duplicate_nodes: the loop over node numbers -1 .. n-2 compares
      each node with the one before it and keeps the node when it is far
      enough. */
  method RemoveDuplicateNodes(xs: seq<Point>) returns (kept: seq<Point>)
    ensures kept == Deduplicated(xs)
  {
    kept := [];
    ghost var keep := KeepMask(xs);
    var j := 0;
    while j < |xs|
      invariant 0 <= j <= |xs|
      invariant kept == Pick(xs, keep, j)
    {
      var far := Apart(xs[j], xs[if j == 0 then |xs| - 1 else j - 1]);
      MaskAt(xs, |xs|, j);
      if far {
        kept := kept + [xs[j]];
      }
      j := j + 1;
    }
  }

  // ---------------------------------------------------------------------
  // Loop removal

  /** A pair of edge numbers: `i` the current edge, `t` the test edge. */
  datatype EdgePair = EdgePair(i: nat, t: nat)

  /** Edge `i` of the node list joins node `i` to node `i + 1`. */
  function Edge(xs: seq<Point>, i: nat): Segment
    requires i + 1 < |xs|
  {
    Segment(xs[i], xs[i + 1])
  }

  /** The scan compares current edge `i` with test edge `t` unless `t` is
      `i` or one of its two neighbours, and reports a crossing when the test
      edge meets the current edge. */
  predicate CrossesAt(ix: Intersector, xs: seq<Point>, i: nat, t: nat)
    requires i + 1 < |xs| && t + 1 < |xs|
  {
    !(i - 1 <= t <= i + 1) && ix.crosses(Edge(xs, t), Edge(xs, i))
  }

  /** No two compared edges cross. */
  predicate LoopFree(ix: Intersector, xs: seq<Point>)
  {
    forall i: nat, t: nat :: i + 1 < |xs| && t + 1 < |xs| ==> !CrossesAt(ix, xs, i, t)
  }

  /** (i2, t2) comes no earlier than (i, t) in the scan, which runs over `t`
      inside a run over `i`. */
  predicate NotBefore(i: nat, t: nat, i2: nat, t2: nat)
  {
    i < i2 || (i == i2 && t <= t2)
  }

  /** The rest of the crossing scan from position (i, t): the first crossing
      there, or none. */
  function ScanFrom(ix: Intersector, xs: seq<Point>, i: nat, t: nat): (r: Option<EdgePair>)
    ensures r.Some? ==> r.value.i + 1 < |xs| && r.value.t + 1 < |xs|
                        && CrossesAt(ix, xs, r.value.i, r.value.t) && NotBefore(i, t, r.value.i, r.value.t)
    ensures forall i2: nat, t2: nat ::
              i2 + 1 < |xs| && t2 + 1 < |xs| && NotBefore(i, t, i2, t2)
              && (r.Some? ==> !NotBefore(r.value.i, r.value.t, i2, t2))
              ==> !CrossesAt(ix, xs, i2, t2)
    decreases |xs| - i, |xs| - t
  {
    if i + 1 >= |xs| then None
    else if t + 1 >= |xs| then ScanFrom(ix, xs, i + 1, 0)
    else if CrossesAt(ix, xs, i, t) then Some(EdgePair(i, t))
    else ScanFrom(ix, xs, i, t + 1)
  }

  /** The crossing the scan of remove_self_intersections stops at. */
  function FirstCrossing(ix: Intersector, xs: seq<Point>): Option<EdgePair>
  {
    ScanFrom(ix, xs, 0, 0)
  }

  /** The scan finds nothing exactly when no compared edges cross. */
  lemma FirstCrossingNoneIff(ix: Intersector, xs: seq<Point>)
    ensures FirstCrossing(ix, xs).None? <==> LoopFree(ix, xs)
  {
    if FirstCrossing(ix, xs).Some? {
      var c := FirstCrossing(ix, xs).value;
      assert CrossesAt(ix, xs, c.i, c.t);
    } else {
      forall i: nat, t: nat | i + 1 < |xs| && t + 1 < |xs|
        ensures !CrossesAt(ix, xs, i, t)
      {
        assert NotBefore(0, 0, i, t);
      }
    }
  }

  /** One repair step at crossing edges `i` and `t`, with a the smaller and b
      the larger edge number.  When the edges are less than half the list
      apart, the nodes after edge a up to edge b go and the crossing point
      takes their place; otherwise the part outside goes and nodes a .. b
      remain.  Either way the list gets shorter and keeps at least three nodes. */
  function RepairStep(ix: Intersector, xs: seq<Point>, i: nat, t: nat): (r: seq<Point>)
    requires i + 1 < |xs| && t + 1 < |xs| && CrossesAt(ix, xs, i, t)
    ensures 3 <= |r| < |xs|
  {
    var a := if i < t then i else t;
    var b := if i < t then t else i;
    var crossing := ix.at(Edge(xs, t), Edge(xs, i));
    if 2 * (b - a) < |xs| then xs[..a + 1] + [crossing] + xs[b + 1..]
    else xs[a..b + 1]
  }

  /** A repair step keeps the shorter way round: in the first branch fewer
      than half the nodes are removed, in the second at least half remain. */
  lemma RepairStepKeepsLargerPart(ix: Intersector, xs: seq<Point>, i: nat, t: nat)
    requires i + 1 < |xs| && t + 1 < |xs| && CrossesAt(ix, xs, i, t)
    ensures var a := if i < t then i else t;
            var b := if i < t then t else i;
            var r := RepairStep(ix, xs, i, t);
            (2 * (b - a) < |xs| ==>
               r[..a + 1] == xs[..a + 1] && r[a + 1] == ix.at(Edge(xs, t), Edge(xs, i))
               && r[a + 2..] == xs[b + 1..] && 2 * (|xs| - |r| + 1) < |xs|)
            && (2 * (b - a) >= |xs| ==> r == xs[a..b + 1] && 2 * |r| > |xs|)
  {
  }

  /** The while loop of remove_self_intersections: repair at the first
      crossing until the scan finds none.  The list gets shorter at every
      step, which is why the loop stops. */
  function RepairLoops(ix: Intersector, xs: seq<Point>): (r: seq<Point>)
    ensures LoopFree(ix, r)
    ensures |r| <= |xs|
    ensures r == xs || 3 <= |r|
    ensures LoopFree(ix, xs) ==> r == xs
    decreases |xs|
  {
    FirstCrossingNoneIff(ix, xs);
    match FirstCrossing(ix, xs)
    case None => xs
    case Some(c) => RepairLoops(ix, RepairStep(ix, xs, c.i, c.t))
  }

  // ---------------------------------------------------------------------
  // Choice of the start node

  /** Edge `j` (0 .. 6) of the seven-edge window around node `k`: it joins
      node k - 4 + j to node k - 3 + j. */
  function WindowEdge(xs: seq<Point>, k: nat, j: nat): Segment
    requires 4 <= k && k + 3 < |xs| && j <= 6
  {
    Edge(xs, k - 4 + j)
  }

  /** No window edge meets a window edge two or more places further on:
      0 with 2 .. 6, 1 with 3 .. 6, 2 with 4 .. 6, 3 with 5 .. 6 and 4 with 6,
      fifteen pairs in all. */
  predicate WindowClear(ix: Intersector, xs: seq<Point>, k: nat)
    requires 4 <= k && k + 3 < |xs|
  {
    forall p: nat, q: nat :: p + 2 <= q <= 6 ==>
      !ix.crosses(WindowEdge(xs, k, p), WindowEdge(xs, k, q))
  }

  /** The fifteen tests one after the other, as the start-node search makes
      them. */
  predicate WindowTangled(ix: Intersector, e0: Segment, e1: Segment, e2: Segment, e3: Segment,
                          e4: Segment, e5: Segment, e6: Segment)
  {
    ix.crosses(e0, e2) || ix.crosses(e0, e3) || ix.crosses(e0, e4) || ix.crosses(e0, e5) || ix.crosses(e0, e6)
    || ix.crosses(e1, e3) || ix.crosses(e1, e4) || ix.crosses(e1, e5) || ix.crosses(e1, e6)
    || ix.crosses(e2, e4) || ix.crosses(e2, e5) || ix.crosses(e2, e6)
    || ix.crosses(e3, e5) || ix.crosses(e3, e6)
    || ix.crosses(e4, e6)
  }

  /** The fifteen tests are exactly the pairs of window edges that are not
      next to each other. */
  lemma WindowClearIffUntangled(ix: Intersector, xs: seq<Point>, k: nat)
    requires 4 <= k && k + 3 < |xs|
    ensures WindowClear(ix, xs, k) <==>
              !WindowTangled(ix, WindowEdge(xs, k, 0), WindowEdge(xs, k, 1), WindowEdge(xs, k, 2),
                             WindowEdge(xs, k, 3), WindowEdge(xs, k, 4), WindowEdge(xs, k, 5),
                             WindowEdge(xs, k, 6))
  {
    if !WindowTangled(ix, WindowEdge(xs, k, 0), WindowEdge(xs, k, 1), WindowEdge(xs, k, 2),
                      WindowEdge(xs, k, 3), WindowEdge(xs, k, 4), WindowEdge(xs, k, 5),
                      WindowEdge(xs, k, 6)) {
      forall p: nat, q: nat | p + 2 <= q <= 6
        ensures !ix.crosses(WindowEdge(xs, k, p), WindowEdge(xs, k, q))
      {
        assert p <= 4;
        assert p == 0 || p == 1 || p == 2 || p == 3 || p == 4;
      }
    }
  }

  /** The first node from `k` on whose window is clear, if any; the search
      stops four nodes before the end. */
  function ClearFrom(ix: Intersector, xs: seq<Point>, k: nat): (r: Option<nat>)
    requires 4 <= k
    ensures r.Some? ==> k <= r.value && r.value + 4 < |xs| && WindowClear(ix, xs, r.value)
    ensures forall m: nat :: k <= m && m + 4 < |xs| && (r.Some? ==> m < r.value)
              ==> !WindowClear(ix, xs, m)
    decreases |xs| - k
  {
    if k + 4 >= |xs| then None
    else if WindowClear(ix, xs, k) then Some(k)
    else ClearFrom(ix, xs, k + 1)
  }

  /** Lists of more than eight nodes start again at the first node whose
      window is clear; shorter lists, and lists with no clear window, stay
      as they are. */
  function StartRotated(ix: Intersector, xs: seq<Point>): (r: seq<Point>)
    ensures |r| == |xs|
    ensures multiset(r) == multiset(xs)
    ensures |xs| <= 8 ==> r == xs
  {
    if |xs| <= 8 then xs
    else match ClearFrom(ix, xs, 4)
      case None => xs
      case Some(k) =>
        assert xs == xs[..k] + xs[k..];
        xs[k..] + xs[..k]
  }

  /** The rotation keeps the ring order: the result starts at the chosen
      node k, runs to the end of the input and continues from node 0. */
  lemma StartRotatedIsRotation(ix: Intersector, xs: seq<Point>)
    ensures |xs| > 8 && ClearFrom(ix, xs, 4).Some? ==>
              var k := ClearFrom(ix, xs, 4).value;
              var r := StartRotated(ix, xs);
              r[0] == xs[k] && WindowClear(ix, xs, k)
              && (forall m :: 0 <= m < |xs| - k ==> r[m] == xs[m + k])
              && (forall m :: |xs| - k <= m < |xs| ==> r[m] == xs[m + k - |xs|])
    ensures (|xs| > 8 && ClearFrom(ix, xs, 4).None?) ==> StartRotated(ix, xs) == xs
  {
  }

  // ---------------------------------------------------------------------
  // The whole repair

  /** The closing step appends node 0 when the x coordinates of the first
      and last nodes differ; y is not compared. */
  function Close(xs: seq<Point>): (r: seq<Point>)
    requires |xs| > 0
    ensures r == xs || r == xs + [xs[0]]
    ensures r[0] == xs[0] && r[|r| - 1].x == xs[0].x
    ensures r == xs <==> xs[0].x == xs[|xs| - 1].x
  {
    if xs[0].x != xs[|xs| - 1].x then xs + [xs[0]] else xs
  }

  /** Because only x is compared, a list whose ends share x but not y is
      left open. */
  lemma CloseComparesOnlyX()
    ensures var xs := [Point(0.0, 0.0), Point(1.0, 0.0), Point(0.0, 1.0)];
            Close(xs) == xs && xs[0] != xs[|xs| - 1]
  {
  }

  /** remove_self_intersections: de-duplicate, choose the start node,
      repair every loop, then close; an empty list has no first node to
      close with. */
  function SelfIntersectionsRemoved(ix: Intersector, xs: seq<Point>): Result<seq<Point>>
  {
    var repaired := RepairLoops(ix, StartRotated(ix, Deduplicated(xs)));
    if |repaired| == 0 then Failure(NoNodes) else Success(Close(repaired))
  }

  /** The repair fails only when de-duplication leaves nothing; otherwise
      its result is a loop-free list, closed when its end x coordinates
      differed, and no longer than the de-duplicated input plus the closing
      node. */
  lemma SelfIntersectionsRemovedShape(ix: Intersector, xs: seq<Point>)
    ensures SelfIntersectionsRemoved(ix, xs).Failure? <==> Deduplicated(xs) == []
    ensures SelfIntersectionsRemoved(ix, xs).Success? ==>
              var v := SelfIntersectionsRemoved(ix, xs).value;
              var repaired := RepairLoops(ix, StartRotated(ix, Deduplicated(xs)));
              LoopFree(ix, repaired) && (v == repaired || v == repaired + [repaired[0]])
              && v[0].x == v[|v| - 1].x && |v| <= |Deduplicated(xs)| + 1
  {
  }

  /** The end facts alone: a repaired list is not empty, its end nodes share
      their x coordinate and it is at most one node longer than its input. */
  lemma SelfIntersectionsRemovedEnds(ix: Intersector, xs: seq<Point>)
    ensures var r := SelfIntersectionsRemoved(ix, xs);
            r.Success? ==> |r.value| > 0 && r.value[0].x == r.value[|r.value| - 1].x && |r.value| <= |xs| + 1
  {
    SelfIntersectionsRemovedShape(ix, xs);
  }

  /** A lone node is its own cyclic predecessor, so it is always dropped. */
  lemma LoneNodeDropped(p: Point)
    ensures Deduplicated([p]) == []
  {
    LoneNodeNotKept(p);
    MaskAt([p], 1, 0);
  }

  lemma LoneNodeNotKept(p: Point)
    ensures !Kept([p], 0)
  {
    assert CyclicPrevious([p], 0) == p;
    Dist2Self(p);
  }

  // ---------------------------------------------------------------------
  // The imperative procedure

  /** The nested scan over current edges and test edges, leaving both loops
      at the first crossing. */
  method ScanForCrossing(ix: Intersector, xs: seq<Point>) returns (found: Option<EdgePair>)
    ensures found == FirstCrossing(ix, xs)
  {
    found := None;
    if |xs| < 2 {
      return;
    }
    var i := 0;
    while i < |xs| - 1 && found.None?
      invariant 0 <= i <= |xs| - 1
      invariant found.None? ==> ScanFrom(ix, xs, i, 0) == FirstCrossing(ix, xs)
      invariant found.Some? ==> found == FirstCrossing(ix, xs)
      decreases |xs| - i, if found.None? then 1 else 0
    {
      var t := 0;
      while t < |xs| - 1 && found.None?
        invariant 0 <= t <= |xs| - 1
        invariant found.None? ==> ScanFrom(ix, xs, i, t) == FirstCrossing(ix, xs)
        invariant found.Some? ==> found == FirstCrossing(ix, xs)
        decreases |xs| - t, if found.None? then 1 else 0
      {
        if !(i - 1 <= t <= i + 1) && ix.crosses(Edge(xs, t), Edge(xs, i)) {
          found := Some(EdgePair(i, t));
        } else {
          t := t + 1;
        }
      }
      if found.None? {
        i := i + 1;
      }
    }
  }

  /** One splice, with the clip numbers of the source: in the first branch
      the crossing point is inserted before the first clipped node and the
      clipped run removed; in the second only nodes a .. b are kept. */
  method Splice(ix: Intersector, xs: seq<Point>, i: nat, t: nat) returns (r: seq<Point>)
    requires i + 1 < |xs| && t + 1 < |xs| && CrossesAt(ix, xs, i, t)
    ensures r == RepairStep(ix, xs, i, t)
  {
    var crossing := ix.at(Edge(xs, t), Edge(xs, i));
    var diff := if t < i then i - t else t - i;
    if 2 * diff < |xs| {
      var first := if i < t then i + 1 else t + 1;
      var last := if i < t then t else i;
      r := xs[..first] + [crossing] + xs[first..];
      InsertedSlices(xs, first, crossing, last);
      first, last := first + 1, last + 1;
      r := r[..first] + r[last + 1..];
    } else {
      var first := if i < t then t else i;
      var last := if i < t then i else t;
      first := first + 1;
      r := xs[..first];
      assert r[last..] == xs[last..first];
      r := r[last..];
    }
  }

  /** Slices of a list with one node inserted before position `f`. */
  lemma InsertedSlices(xs: seq<Point>, f: nat, c: Point, l: nat)
    requires f <= l < |xs|
    ensures (xs[..f] + [c] + xs[f..])[..f + 1] == xs[..f] + [c]
    ensures (xs[..f] + [c] + xs[f..])[l + 2..] == xs[l + 1..]
  {
    var r := xs[..f] + [c] + xs[f..];
    assert r == (xs[..f] + [c]) + xs[f..];
    assert r[l + 2..] == xs[f..][l + 1 - f..];
  }

  /** Choosing the start node with the fifteen window tests at each
      candidate. */
  method RotateToClearWindow(ix: Intersector, xs: seq<Point>) returns (r: seq<Point>)
    ensures r == StartRotated(ix, xs)
  {
    r := xs;
    if |xs| > 8 {
      var k := 4;
      while k < |xs| - 4
        invariant 4 <= k <= |xs| - 4
        invariant ClearFrom(ix, xs, k) == ClearFrom(ix, xs, 4)
        decreases |xs| - k
      {
        WindowClearIffUntangled(ix, xs, k);
        if !WindowTangled(ix, Edge(xs, k - 4), Edge(xs, k - 3), Edge(xs, k - 2), Edge(xs, k - 1),
                          Edge(xs, k), Edge(xs, k + 1), Edge(xs, k + 2)) {
          r := xs[k..] + xs[..k];
          return;
        }
        k := k + 1;
      }
    }
  }

  /** remove_self_intersections as a procedure: the result is the one the
      function above describes. */
  method RemoveSelfIntersections(ix: Intersector, xs: seq<Point>) returns (r: Result<seq<Point>>)
    ensures r == SelfIntersectionsRemoved(ix, xs)
  {
    var nodes := RemoveDuplicateNodes(xs);
    nodes := RotateToClearWindow(ix, nodes);
    nodes := RemoveLoops(ix, nodes);
    if |nodes| == 0 {
      return Failure(NoNodes);
    }
    if nodes[0].x != nodes[|nodes| - 1].x {
      nodes := nodes + [nodes[0]];
    }
    r := Success(nodes);
  }

  /** The `while found_intersection` loop: splice at the first crossing
      until a scan finds none. */
  method RemoveLoops(ix: Intersector, xs: seq<Point>) returns (nodes: seq<Point>)
    ensures nodes == RepairLoops(ix, xs)
  {
    nodes := xs;
    var crossing := ScanForCrossing(ix, nodes);
    while crossing.Some?
      invariant RepairLoops(ix, nodes) == RepairLoops(ix, xs)
      invariant crossing == FirstCrossing(ix, nodes)
      decreases |nodes|
    {
      nodes := Splice(ix, nodes, crossing.value.i, crossing.value.t);
      crossing := ScanForCrossing(ix, nodes);
    }
  }
}
