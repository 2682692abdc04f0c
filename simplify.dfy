/** Node simplification of the expansion script: walking a polygon's nodes in
    order, a node lying within squared distance 0.5 of the node read before it
    is not kept; instead the last kept node moves to the midpoint between
    itself and the dropped node.  The first node is measured from (0, 0). */
module Simplify {
  import opened Geometry

  /** Squared distance below which two successive nodes are combined. */
  const MergeThreshold := 0.5

  /** The position node `j` is measured from: the previous INPUT node (the
      source remembers the position it read, not the merged one), or the
      origin for the first node. */
  function Previous(nodes: seq<Point>, j: nat): Point
    requires j < |nodes|
  {
    if j == 0 then Origin else nodes[j - 1]
  }

  /** Node `j` is merged into the last kept node. */
  predicate Merges(nodes: seq<Point>, j: nat)
    requires j < |nodes|
  {
    Dist2(Previous(nodes, j), nodes[j]) < MergeThreshold
  }

  /** A first node near the origin would be merged into a node that does not
      exist yet: the source indexes an empty list there.  Callers must avoid it. */
  predicate FirstNodeClear(nodes: seq<Point>)
  {
    |nodes| > 0 ==> !Merges(nodes, 0)
  }

  /** Which nodes are merged, node by node. */
  function MergeFlags(nodes: seq<Point>): (m: seq<bool>)
    ensures |m| == |nodes|
  {
    seq(|nodes|, j requires 0 <= j < |nodes| => Merges(nodes, j))
  }

  /** Flags fit a node list when there is one per node and the first node is
      not merged. */
  predicate FlagsFit(nodes: seq<Point>, merges: seq<bool>)
  {
    |merges| == |nodes| && (|merges| > 0 ==> !merges[0])
  }

  /** One pass of the loop: a merged node replaces the last output node by
      the midpoint of the two, any other node is appended. */
  function MergeStep(out: seq<Point>, node: Point, merge: bool): (r: seq<Point>)
    requires merge ==> |out| > 0
    ensures |r| == if merge then |out| else |out| + 1
  {
    if merge then out[..|out| - 1] + [Mid(out[|out| - 1], node)] else out + [node]
  }

  /** The output once the loop has also read nodes `i` onwards, starting from
      the output `out` it had after the first `i` nodes. */
  function MergeFrom(nodes: seq<Point>, merges: seq<bool>, i: nat, out: seq<Point>): (r: seq<Point>)
    requires FlagsFit(nodes, merges) && i <= |nodes| && (i > 0 ==> |out| > 0)
    ensures |r| <= |out| + (|nodes| - i)
    ensures |out| > 0 || i < |nodes| ==> |r| > 0
    decreases |nodes| - i
  {
    if i == |nodes| then out
    else MergeFrom(nodes, merges, i + 1, MergeStep(out, nodes[i], merges[i]))
  }

  /** The output of the loop for given merge decisions. */
  function Merged(nodes: seq<Point>, merges: seq<bool>): (r: seq<Point>)
    requires FlagsFit(nodes, merges)
  {
    MergeFrom(nodes, merges, 0, [])
  }

  /** The nodes the simplification loop produces from `nodes`. */
  function Simplified(nodes: seq<Point>): (r: seq<Point>)
    requires FirstNodeClear(nodes)
  {
    Merged(nodes, MergeFlags(nodes))
  }

  /** Never more nodes than were read, and some node for a non-empty
      polygon. */
  lemma SimplifiedBounds(nodes: seq<Point>)
    requires FirstNodeClear(nodes)
    ensures |Simplified(nodes)| <= |nodes|
    ensures |nodes| > 0 ==> |Simplified(nodes)| > 0
  {
  }

  /** Merging decisions only look backwards, so a prefix decides them alike. */
  lemma PrefixMerges(nodes: seq<Point>, k: nat, j: nat)
    requires j < k <= |nodes|
    ensures Merges(nodes[..k], j) == Merges(nodes, j)
  {
    assert Previous(nodes[..k], j) == Previous(nodes, j);
  }

  lemma PrefixFlags(nodes: seq<Point>, k: nat)
    requires k <= |nodes|
    ensures MergeFlags(nodes[..k]) == MergeFlags(nodes)[..k]
  {
    forall j | 0 <= j < k
      ensures MergeFlags(nodes[..k])[j] == MergeFlags(nodes)[j]
    {
      PrefixMerges(nodes, k, j);
    }
  }

  lemma PrefixClear(nodes: seq<Point>, k: nat)
    requires k <= |nodes|
    requires FirstNodeClear(nodes)
    ensures FirstNodeClear(nodes[..k])
  {
    if k > 0 {
      PrefixMerges(nodes, k, 0);
    }
  }

  /** Reading nodes `i` to `k` of a list is reading them in its first `k`
      nodes: the loop state after `k` nodes is the output for that prefix. */
  lemma {:induction false} MergeFromPrefix(nodes: seq<Point>, merges: seq<bool>, k: nat, i: nat, out: seq<Point>)
    requires FlagsFit(nodes, merges) && i <= k <= |nodes| && (i > 0 ==> |out| > 0)
    ensures FlagsFit(nodes[..k], merges[..k])
    ensures MergeFrom(nodes, merges, i, out)
            == MergeFrom(nodes, merges, k, MergeFrom(nodes[..k], merges[..k], i, out))
    decreases k - i
  {
    if i < k {
      MergeFromPrefix(nodes, merges, k, i + 1, MergeStep(out, nodes[i], merges[i]));
    }
  }

  /** How many of the flags say "not merged". */
  function KeptCount(merges: seq<bool>): nat
    decreases |merges|
  {
    if |merges| == 0 then 0
    else (if merges[0] then 0 else 1) + KeptCount(merges[1..])
  }

  /** The loop adds one node per node that is not merged. */
  lemma {:induction false} MergeFromLength(nodes: seq<Point>, merges: seq<bool>, i: nat, out: seq<Point>)
    requires FlagsFit(nodes, merges) && i <= |nodes| && (i > 0 ==> |out| > 0)
    ensures |MergeFrom(nodes, merges, i, out)| == |out| + KeptCount(merges[i..])
    decreases |nodes| - i
  {
    if i < |nodes| {
      assert merges[i..][1..] == merges[i + 1..];
      MergeFromLength(nodes, merges, i + 1, MergeStep(out, nodes[i], merges[i]));
    }
  }

  /** The output has one node per node that is not merged. */
  lemma SimplifiedLength(nodes: seq<Point>)
    requires FirstNodeClear(nodes)
    ensures |Simplified(nodes)| == KeptCount(MergeFlags(nodes))
  {
    MergeFromLength(nodes, MergeFlags(nodes), 0, []);
    assert MergeFlags(nodes)[0..] == MergeFlags(nodes);
  }

  /** With nothing merged from node `i` on, the loop appends the rest. */
  lemma {:induction false} NothingMergedAppends(nodes: seq<Point>, merges: seq<bool>, i: nat, out: seq<Point>)
    requires FlagsFit(nodes, merges) && i <= |nodes| && (i > 0 ==> |out| > 0)
    requires forall j :: i <= j < |merges| ==> !merges[j]
    ensures MergeFrom(nodes, merges, i, out) == out + nodes[i..]
    decreases |nodes| - i
  {
    if i < |nodes| {
      NothingMergedAppends(nodes, merges, i + 1, out + [nodes[i]]);
      assert (out + [nodes[i]]) + nodes[i + 1..] == out + nodes[i..];
    }
  }

  /** With no node close to its predecessor, the polygon comes back unchanged. */
  lemma NothingMergedIsIdentity(nodes: seq<Point>)
    requires forall j :: 0 <= j < |nodes| ==> !Merges(nodes, j)
    ensures Simplified(nodes) == nodes
  {
    NothingMergedAppends(nodes, MergeFlags(nodes), 0, []);
    assert nodes[0..] == nodes;
  }

  /** The cascade of midpoints: `start` moved halfway towards each node of
      `rest` in turn. */
  function Cascade(start: Point, rest: seq<Point>): Point
    decreases |rest|
  {
    if |rest| == 0 then start
    else Cascade(Mid(start, rest[0]), rest[1..])
  }

  /** While every node is merged, the last output node is pulled halfway to
      each of them in turn and the nodes before it stay. */
  lemma {:induction false} MergedRunFrom(nodes: seq<Point>, merges: seq<bool>, i: nat,
                                         out: seq<Point>, last: Point)
    requires FlagsFit(nodes, merges) && i <= |nodes|
    requires forall j :: i <= j < |merges| ==> merges[j]
    ensures MergeFrom(nodes, merges, i, out + [last]) == out + [Cascade(last, nodes[i..])]
    decreases |nodes| - i
  {
    if i < |nodes| {
      assert (out + [last])[..|out|] == out;
      assert MergeStep(out + [last], nodes[i], true) == out + [Mid(last, nodes[i])];
      MergedRunFrom(nodes, merges, i + 1, out, Mid(last, nodes[i]));
      assert nodes[i..][1..] == nodes[i + 1..];
    }
  }

  /** Merges cascade: a kept node followed by a run of merged nodes ends up as
      one output node, the kept node pulled halfway to each merged node in
      turn, and the output before it is the output of the nodes before it. */
  lemma MergedRunCascades(nodes: seq<Point>, k: nat)
    requires FirstNodeClear(nodes)
    requires k < |nodes| && !Merges(nodes, k)
    requires forall j :: k < j < |nodes| ==> Merges(nodes, j)
    ensures FirstNodeClear(nodes[..k])
    ensures Simplified(nodes) == Simplified(nodes[..k]) + [Cascade(nodes[k], nodes[k + 1..])]
  {
    var flags := MergeFlags(nodes);
    PrefixClear(nodes, k);
    PrefixFlags(nodes, k);
    MergeFromPrefix(nodes, flags, k, 0, []);
    var before := Simplified(nodes[..k]);
    assert MergeFrom(nodes, flags, k + 1, before + [nodes[k]]) == Simplified(nodes);
    MergedRunFrom(nodes, flags, k + 1, before, nodes[k]);
  }

  /** Two nodes of which the second is merged. */
  lemma MergeSecondOfTwo(a: Point, b: Point)
    ensures Merged([a, b], [false, true]) == [Mid(a, b)]
  {
    var ns, ms := [a, b], [false, true];
    assert MergeStep([], a, false) == [a];
    assert MergeStep([a], b, true) == [Mid(a, b)];
    assert MergeFrom(ns, ms, 0, []) == MergeFrom(ns, ms, 1, [a]);
    assert MergeFrom(ns, ms, 1, [a]) == MergeFrom(ns, ms, 2, [Mid(a, b)]);
  }

  /** A run of three nodes in which the last two are merged. */
  lemma MergeTwoOfThree(a: Point, b: Point, c: Point)
    ensures Merged([a, b, c], [false, true, true]) == [Mid(Mid(a, b), c)]
  {
    var ns, ms := [a, b, c], [false, true, true];
    assert MergeStep([], a, false) == [a];
    assert MergeStep([a], b, true) == [Mid(a, b)];
    assert MergeStep([Mid(a, b)], c, true) == [Mid(Mid(a, b), c)];
    assert MergeFrom(ns, ms, 0, []) == MergeFrom(ns, ms, 1, [a]);
    assert MergeFrom(ns, ms, 1, [a]) == MergeFrom(ns, ms, 2, [Mid(a, b)]);
    assert MergeFrom(ns, ms, 2, [Mid(a, b)]) == MergeFrom(ns, ms, 3, [Mid(Mid(a, b), c)]);
  }

  /** A run of three nodes in which only the second is merged. */
  lemma MergeSecondOfThree(a: Point, b: Point, c: Point)
    ensures Merged([a, b, c], [false, true, false]) == [Mid(a, b), c]
  {
    var ns, ms := [a, b, c], [false, true, false];
    assert MergeStep([], a, false) == [a];
    assert MergeStep([a], b, true) == [Mid(a, b)];
    assert MergeStep([Mid(a, b)], c, false) == [Mid(a, b), c];
    assert MergeFrom(ns, ms, 0, []) == MergeFrom(ns, ms, 1, [a]);
    assert MergeFrom(ns, ms, 1, [a]) == MergeFrom(ns, ms, 2, [Mid(a, b)]);
    assert MergeFrom(ns, ms, 2, [Mid(a, b)]) == MergeFrom(ns, ms, 3, [Mid(a, b), c]);
  }

  /** Nodes are compared with the previous input node, not the moved output
      node: here the third node is merged although it is farther than the
      threshold from the merged node (10.3, 0) it is folded into. */
  lemma ComparedWithInputPredecessor()
    ensures FirstNodeClear([Point(10.0, 0.0), Point(10.6, 0.0), Point(11.2, 0.0)])
    ensures Simplified([Point(10.0, 0.0), Point(10.6, 0.0), Point(11.2, 0.0)]) == [Point(10.75, 0.0)]
    ensures !(Dist2(Point(10.3, 0.0), Point(11.2, 0.0)) < MergeThreshold)
  {
    var nodes := [Point(10.0, 0.0), Point(10.6, 0.0), Point(11.2, 0.0)];
    assert Dist2(Point(10.3, 0.0), Point(11.2, 0.0)) == 0.81;
    assert Dist2(Origin, nodes[0]) == 100.0;
    assert MergeFlags(nodes) == [false, true, true];
    MergeTwoOfThree(nodes[0], nodes[1], nodes[2]);
    assert Mid(Mid(nodes[0], nodes[1]), nodes[2]) == Point(10.75, 0.0);
  }

  lemma FirstPass()
    ensures FirstNodeClear([Point(10.0, 0.0), Point(10.0, 0.7), Point(10.0, -0.3)])
    ensures Simplified([Point(10.0, 0.0), Point(10.0, 0.7), Point(10.0, -0.3)])
         == [Point(10.0, 0.35), Point(10.0, -0.3)]
  {
    var nodes := [Point(10.0, 0.0), Point(10.0, 0.7), Point(10.0, -0.3)];
    assert Dist2(Origin, nodes[0]) == 100.0;
    assert Dist2(nodes[0], nodes[1]) == 0.49;
    assert Dist2(nodes[1], nodes[2]) == 1.0;
    assert MergeFlags(nodes) == [false, true, false];
    MergeSecondOfThree(nodes[0], nodes[1], nodes[2]);
    assert Mid(nodes[0], nodes[1]) == Point(10.0, 0.35);
  }

  lemma SecondPass()
    ensures FirstNodeClear([Point(10.0, 0.35), Point(10.0, -0.3)])
    ensures Simplified([Point(10.0, 0.35), Point(10.0, -0.3)]) == [Point(10.0, 0.025)]
  {
    var once := [Point(10.0, 0.35), Point(10.0, -0.3)];
    assert Dist2(Origin, once[0]) == 100.1225;
    assert Dist2(once[0], once[1]) == 0.4225;
    assert MergeFlags(once) == [false, true];
    MergeSecondOfTwo(once[0], once[1]);
    assert Mid(once[0], once[1]) == Point(10.0, 0.025);
  }

  /** Simplifying twice can merge again: the operation is not idempotent. */
  lemma NotIdempotent()
    ensures FirstNodeClear([Point(10.0, 0.0), Point(10.0, 0.7), Point(10.0, -0.3)])
    ensures var once := Simplified([Point(10.0, 0.0), Point(10.0, 0.7), Point(10.0, -0.3)]);
            FirstNodeClear(once) && Simplified(once) != once
  {
    FirstPass();
    SecondPass();
  }

  lemma CascadeOfThree(start: Point, p: Point, q: Point, r: Point)
    ensures Cascade(start, [p, q, r]) == Mid(Mid(Mid(start, p), q), r)
  {
    assert [p, q, r][1..] == [q, r];
    assert [q, r][1..] == [r];
    assert [r][1..] == [];
    calc {
      Cascade(start, [p, q, r]);
      Cascade(Mid(start, p), [q, r]);
      Cascade(Mid(Mid(start, p), q), [r]);
      Cascade(Mid(Mid(Mid(start, p), q), r), []);
    }
  }

  /** The run merged into (11, 0) below cascades back onto (10, 0). */
  lemma CascadeBackOntoStart(start: Point, rest: seq<Point>)
    requires start == Point(11.0, 0.0)
    requires rest == [Point(10.5, 0.0), Point(10.0, 0.0), Point(9.625, 0.0)]
    ensures Cascade(start, rest) == Point(10.0, 0.0)
  {
    assert rest == [rest[0], rest[1], rest[2]];
    CascadeOfThree(start, rest[0], rest[1], rest[2]);
    assert Mid(start, rest[0]) == Point(10.75, 0.0);
    assert Mid(Point(10.75, 0.0), rest[1]) == Point(10.375, 0.0);
    assert Mid(Point(10.375, 0.0), rest[2]) == Point(10.0, 0.0);
  }

  /** Which nodes of the example below merge: all three after (11, 0). */
  lemma ZeroEdgeExampleMerges(nodes: seq<Point>)
    requires nodes == [Point(10.0, 0.0), Point(11.0, 0.0), Point(10.5, 0.0), Point(10.0, 0.0), Point(9.625, 0.0)]
    ensures FirstNodeClear(nodes) && !Merges(nodes, 1)
    ensures forall j :: 1 < j < |nodes| ==> Merges(nodes, j)
  {
    assert Dist2(Origin, nodes[0]) == 100.0;
    assert Dist2(nodes[0], nodes[1]) == 1.0;
    assert Dist2(nodes[1], nodes[2]) == 0.25;
    assert Dist2(nodes[2], nodes[3]) == 0.25;
    assert Dist2(nodes[3], nodes[4]) == 0.140625;
  }

  /** A kept second node whose merged run cascades back onto the first node
      leaves the first node twice. */
  lemma RunBackOntoFirst(nodes: seq<Point>)
    requires |nodes| > 1 && FirstNodeClear(nodes) && !Merges(nodes, 1)
    requires forall j :: 1 < j < |nodes| ==> Merges(nodes, j)
    requires Cascade(nodes[1], nodes[2..]) == nodes[0]
    ensures Simplified(nodes) == [nodes[0], nodes[0]]
  {
    MergedRunCascades(nodes, 1);
    NothingMergedIsIdentity(nodes[..1]);
  }

  /** Simplification can create a zero-length edge from nodes that are all
      apart: the run merged into (11, 0) cascades back onto (10, 0). */
  lemma SimplifiedCanCreateZeroLengthEdge(nodes: seq<Point>)
    requires nodes == [Point(10.0, 0.0), Point(11.0, 0.0), Point(10.5, 0.0), Point(10.0, 0.0), Point(9.625, 0.0)]
    ensures FirstNodeClear(nodes)
    ensures forall j :: 0 < j < |nodes| ==> nodes[j - 1] != nodes[j]
    ensures Simplified(nodes) == [Point(10.0, 0.0), Point(10.0, 0.0)]
  {
    CascadeBackOntoStart(nodes[1], nodes[2..]);
    ZeroEdgeExampleMerges(nodes);
    RunBackOntoFirst(nodes);
  }

  /** The node loop of simplify_polygons: replaces the last output node by a
      midpoint on a merge, appends the node otherwise. */
  method SimplifyNodes(nodes: seq<Point>) returns (simplified: seq<Point>)
    requires FirstNodeClear(nodes)
    ensures simplified == Simplified(nodes)
  {
    ghost var flags := MergeFlags(nodes);
    simplified := [];
    var lastPosition := Origin;
    var i := 0;
    while i < |nodes|
      invariant 0 <= i <= |nodes|
      invariant i > 0 ==> |simplified| > 0
      invariant MergeFrom(nodes, flags, i, simplified) == Simplified(nodes)
      invariant lastPosition == if i == 0 then Origin else nodes[i - 1]
    {
      assert flags[i] == Merges(nodes, i);
      ghost var next := MergeStep(simplified, nodes[i], flags[i]);
      var position := nodes[i];
      if Dist2(lastPosition, position) < MergeThreshold {
        simplified := simplified[|simplified| - 1 := Mid(simplified[|simplified| - 1], position)];
      } else {
        simplified := simplified + [position];
      }
      assert simplified == next;
      lastPosition := position;
      i := i + 1;
    }
  }

  /** simplify_polygons on parsed records: both file names are kept and each
      node list is simplified. */
  method SimplifyPolygons(polygons: seq<PolygonRecord>) returns (output: seq<PolygonRecord>)
    requires forall i :: 0 <= i < |polygons| ==> FirstNodeClear(polygons[i].nodes)
    ensures |output| == |polygons|
    ensures forall i :: 0 <= i < |polygons| ==>
              output[i].objName == polygons[i].objName
              && output[i].cloudName == polygons[i].cloudName
              && output[i].nodes == Simplified(polygons[i].nodes)
  {
    output := [];
    var i := 0;
    while i < |polygons|
      invariant 0 <= i <= |polygons|
      invariant |output| == i
      invariant forall m :: 0 <= m < i ==>
                  output[m].objName == polygons[m].objName
                  && output[m].cloudName == polygons[m].cloudName
                  && output[m].nodes == Simplified(polygons[m].nodes)
    {
      var nodes := SimplifyNodes(polygons[i].nodes);
      output := output + [PolygonRecord(polygons[i].objName, polygons[i].cloudName, nodes)];
      i := i + 1;
    }
  }
}
