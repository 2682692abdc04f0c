/** The footprint script: each mesh slice outline (a closed node list whose
    last node repeats its first) is optionally pushed out by the simple
    dilation, which does not look at neighbours, and written with the OBJ
    file name and the name of the building's point cloud. */
module Footprint {
  import opened Geometry
  import opened Outcomes

  /** Normal `i` belongs to edge (i, i + 1); the closing node repeats node 0,
      so a closed list of n nodes has n - 1 edges. */
  function EdgeNormals(xs: seq<Point>): (ns: seq<Point>)
    requires |xs| >= 1
    ensures |ns| == |xs| - 1
  {
    seq(|xs| - 1, i requires 0 <= i < |xs| - 1 => EdgeNormal(xs[i], xs[i + 1]))
  }

  /** Every edge of non-zero length gets the right-hand normal (dy, -dx),
      perpendicular to it and as long as it. */
  lemma EdgeNormalsAreRightHand(xs: seq<Point>, i: nat)
    requires i + 1 < |xs|
    requires Dist2(xs[i + 1], xs[i]) != 0.0
    ensures var n, a, b := EdgeNormals(xs)[i], xs[i], xs[i + 1];
            n == Point(b.y - a.y, -(b.x - a.x)) && Dot(n, Sub(b, a)) == 0.0 && Norm2(n) == Dist2(b, a)
  {
    EdgeNormalIsRightHand(xs[i], xs[i + 1]);
    EdgeNormalShape(xs[i], xs[i + 1]);
  }

  /** The vertex normal of node `i`: the sum of the normals of the edge into
      it and the edge out of it; node 0 takes the last edge as the edge into
      it (Python's index -1). */
  function VertexNormal(ns: seq<Point>, i: nat): Point
    requires i < |ns|
  {
    Add(ns[if i == 0 then |ns| - 1 else i - 1], ns[i])
  }

  /** dilate_polygon: node i (for i below n - 1) moved `amount` along its
      normalised vertex normal, then a copy of the first moved node.  A list
      of fewer than two nodes has no first moved node. */
  function Dilated(unit: Point -> Point, amount: real, xs: seq<Point>): Result<seq<Point>>
  {
    if |xs| < 2 then Failure(NoNodes)
    else
      var ns := EdgeNormals(xs);
      var moved := seq(|xs| - 1, i requires 0 <= i < |xs| - 1 => Displaced(unit, amount, xs[i], VertexNormal(ns, i)));
      Success(moved + [moved[0]])
  }

  /** The dilated list has as many nodes as the input, its last node is its
      first, and every other node lies exactly `amount` from its original
      along the vertex normal, whenever that normal is not zero. */
  lemma DilatedShape(unit: Point -> Point, amount: real, xs: seq<Point>)
    requires IsUnit(unit)
    ensures Dilated(unit, amount, xs).Success? <==> |xs| >= 2
    ensures var r := Dilated(unit, amount, xs);
            r.Success? ==>
              |r.value| == |xs| && r.value[|xs| - 1] == r.value[0]
              && (xs[0] == xs[|xs| - 1] ==>
                    r.value[|xs| - 1] == Displaced(unit, amount, xs[|xs| - 1], VertexNormal(EdgeNormals(xs), 0)))
              && forall i :: 0 <= i < |xs| - 1 ==>
                   r.value[i] == Displaced(unit, amount, xs[i], VertexNormal(EdgeNormals(xs), i))
                   && (VertexNormal(EdgeNormals(xs), i) != Origin ==>
                         Dist2(r.value[i], xs[i]) == amount * amount)
  {
    if |xs| >= 2 {
      var r := Dilated(unit, amount, xs).value;
      forall i | 0 <= i < |xs| - 1 && VertexNormal(EdgeNormals(xs), i) != Origin
        ensures Dist2(r[i], xs[i]) == amount * amount
      {
        DisplacedDistance(unit, amount, xs[i], VertexNormal(EdgeNormals(xs), i));
      }
    }
  }

  /** The two loops of dilate_polygon and the closing copy. */
  method DilatePolygon(unit: Point -> Point, amount: real, xs: seq<Point>) returns (r: Result<seq<Point>>)
    ensures r == Dilated(unit, amount, xs)
  {
    if |xs| < 2 {
      return Failure(NoNodes);
    }
    var normals := [];
    var i := 0;
    while i < |xs| - 1
      invariant 0 <= i <= |xs| - 1
      invariant normals == EdgeNormals(xs)[..i]
    {
      normals := normals + [EdgeNormal(xs[i], xs[i + 1])];
      i := i + 1;
    }
    assert normals == EdgeNormals(xs);
    var dilated := [];
    i := 0;
    while i < |xs| - 1
      invariant 0 <= i <= |xs| - 1
      invariant |dilated| == i
      invariant forall j :: 0 <= j < i ==> dilated[j] == Displaced(unit, amount, xs[j], VertexNormal(normals, j))
    {
      var previous := normals[if i == 0 then |normals| - 1 else i - 1];
      dilated := dilated + [Displaced(unit, amount, xs[i], Add(previous, normals[i]))];
      i := i + 1;
    }
    assert dilated == seq(|xs| - 1, j requires 0 <= j < |xs| - 1 =>
                            Displaced(unit, amount, xs[j], VertexNormal(EdgeNormals(xs), j)));
    r := Success(dilated + [dilated[0]]);
  }

  /** The nodes main writes: dilated only for a positive dilation amount. */
  function FootprintNodes(unit: Point -> Point, amount: real, xs: seq<Point>): Result<seq<Point>>
  {
    if amount > 0.0 then Dilated(unit, amount, xs) else Success(xs)
  }

  /** With no positive dilation amount the outline is written unchanged. */
  lemma NoDilationKeepsNodes(unit: Point -> Point, amount: real, xs: seq<Point>)
    ensures amount <= 0.0 ==> FootprintNodes(unit, amount, xs) == Success(xs)
    ensures amount > 0.0 && |xs| >= 2 ==> |FootprintNodes(unit, amount, xs).value| == |xs|
  {
    if amount > 0.0 && |xs| >= 2 {
      assert Dilated(unit, amount, xs).Success?;
    }
  }

  /** The point-cloud name: the file name without its last four characters,
      then "_points.ply". */
  function PointCloudName(filename: string): string
  {
    WithoutLastFour(filename) + "_points.ply"
  }

  /** For an OBJ file the point cloud is named after the stem. */
  lemma PointCloudNameOfObj(stem: string)
    ensures PointCloudName(stem + ".obj") == stem + "_points.ply"
  {
    WithoutLastFourOfExtension(stem, ".obj");
  }

  /** An output line of the footprint script. */
  function FootprintRecord(unit: Point -> Point, amount: real, filename: string, xs: seq<Point>): Result<PolygonRecord>
  {
    var nodes :- FootprintNodes(unit, amount, xs);
    Success(PolygonRecord(filename, PointCloudName(filename), nodes))
  }

  /** The line names the OBJ file and its point cloud; with no positive
      dilation amount it carries the outline as sliced. */
  lemma FootprintRecordShape(unit: Point -> Point, amount: real, stem: string, xs: seq<Point>)
    ensures var r := FootprintRecord(unit, amount, stem + ".obj", xs);
            r.Success? ==> r.value.objName == stem + ".obj" && r.value.cloudName == stem + "_points.ply"
    ensures amount <= 0.0 ==> FootprintRecord(unit, amount, stem + ".obj", xs).Success?
                              && FootprintRecord(unit, amount, stem + ".obj", xs).value.nodes == xs
  {
    PointCloudNameOfObj(stem);
  }
}
