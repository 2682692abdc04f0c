/** The dataset split script: for every building of the work list it picks
    the LAS files whose bounding box holds some node of the building's
    footprint polygon, and names the building's output point cloud. */
module DatasetSplit {
  import opened Geometry
  import opened Sequences
  import Footprint

  /** A line of the bounds file: the LAS file name and the numbers after it,
      in the order the bounds writer puts them
      (min x, min y, min z, max x, max y, max z). */
  datatype BoundsLine = BoundsLine(file: string, fields: seq<real>)

  /** The horizontal part of a bounding box. */
  datatype Box = Box(minX: real, minY: real, maxX: real, maxY: real)

  /** A line with the five numbers the search reads. */
  predicate Readable(line: BoundsLine)
  {
    |line.fields| >= 5
  }

  predicate AllReadable(lines: seq<BoundsLine>)
  {
    forall j :: 0 <= j < |lines| ==> Readable(lines[j])
  }

  /** The search reads words 1, 2, 4 and 5 of a line: both minima and both
      maxima of x and y. */
  function BoxOf(line: BoundsLine): Box
    requires Readable(line)
  {
    Box(line.fields[0], line.fields[1], line.fields[3], line.fields[4])
  }

  /** A node strictly inside the x range and strictly inside the y range. */
  predicate StrictlyInside(p: Point, box: Box)
  {
    box.minX < p.x < box.maxX && box.minY < p.y < box.maxY
  }

  /** A LAS file is wanted when some node of the polygon lies strictly
      inside its box. */
  predicate Selects(polygon: seq<Point>, line: BoundsLine)
    requires Readable(line)
  {
    exists i :: 0 <= i < |polygon| && StrictlyInside(polygon[i], BoxOf(line))
  }

  /** The numbers of the wanted lines among the first `count`, in file
      order, each once. */
  function SelectedLines(lines: seq<BoundsLine>, polygon: seq<Point>, count: nat): (r: seq<nat>)
    requires AllReadable(lines) && count <= |lines|
    ensures StrictlyIncreasing(r)
    ensures |r| <= count
    ensures forall m :: 0 <= m < |r| ==> r[m] < count
    ensures forall j: nat :: j in r <==> j < count && Selects(polygon, lines[j])
    decreases count
  {
    if count == 0 then []
    else
      var j := count - 1;
      SelectedLines(lines, polygon, j) + (if Selects(polygon, lines[j]) then [j] else [])
  }

  /** search_las_dataset: the names of the wanted LAS files, in bounds-file
      order. */
  function SelectedFiles(lines: seq<BoundsLine>, polygon: seq<Point>, count: nat): (r: seq<string>)
    requires AllReadable(lines) && count <= |lines|
    ensures |r| <= count
    decreases count
  {
    if count == 0 then []
    else
      var j := count - 1;
      SelectedFiles(lines, polygon, j) + (if Selects(polygon, lines[j]) then [lines[j].file] else [])
  }

  /** The names are those of the wanted lines, in file order. */
  lemma {:induction false} SelectedFilesNameSelectedLines(lines: seq<BoundsLine>, polygon: seq<Point>, count: nat)
    requires AllReadable(lines) && count <= |lines|
    ensures var r, ls := SelectedFiles(lines, polygon, count), SelectedLines(lines, polygon, count);
            |r| == |ls| && forall m :: 0 <= m < |r| ==> r[m] == lines[ls[m]].file
    decreases count
  {
    if count > 0 {
      SelectedFilesNameSelectedLines(lines, polygon, count - 1);
    }
  }

  /** Only x and y are read: the two z numbers of a line do not change the
      choice. */
  lemma SelectionIgnoresZ(polygon: seq<Point>, line: BoundsLine, minZ: real, maxZ: real)
    requires |line.fields| >= 6
    ensures var other := BoundsLine(line.file, line.fields[2 := minZ][5 := maxZ]);
            Readable(other) && BoxOf(other) == BoxOf(line) && (Selects(polygon, other) <==> Selects(polygon, line))
  {
    var other := BoundsLine(line.file, line.fields[2 := minZ][5 := maxZ]);
    assert BoxOf(other) == BoxOf(line);
  }

  /** The line the bounds writer emits for one LAS file. */
  function WrittenLine(file: string, minX: real, minY: real, minZ: real,
                       maxX: real, maxY: real, maxZ: real): BoundsLine
  {
    BoundsLine(file, [minX, minY, minZ, maxX, maxY, maxZ])
  }

  /** The reader and the writer agree on the layout: the box read back is the
      box written. */
  lemma WrittenLineReadBack(file: string, minX: real, minY: real, minZ: real,
                            maxX: real, maxY: real, maxZ: real)
    ensures var line := WrittenLine(file, minX, minY, minZ, maxX, maxY, maxZ);
            Readable(line) && line.file == file && BoxOf(line) == Box(minX, minY, maxX, maxY)
  {
  }

  /** The polygon loop of search_las_dataset: walks the nodes and stops at
      the first one strictly inside the box. */
  method AnyNodeInside(polygon: seq<Point>, line: BoundsLine) returns (found: bool)
    requires Readable(line)
    ensures found == Selects(polygon, line)
  {
    var box := BoxOf(line);
    found := false;
    var i := 0;
    while i < |polygon| && !found
      invariant 0 <= i <= |polygon|
      invariant found ==> i < |polygon| && StrictlyInside(polygon[i], box)
      invariant !found ==> forall i' :: 0 <= i' < i ==> !StrictlyInside(polygon[i'], box)
      decreases |polygon| - i, if found then 0 else 1
    {
      var p := polygon[i];
      if p.x > box.minX && p.x < box.maxX {
        if p.y > box.minY && p.y < box.maxY {
          found := true;
        }
      }
      if !found {
        i := i + 1;
      }
    }
  }

  /** The line loop of search_las_dataset: a file name is appended when the
      polygon loop finds a node inside its box. */
  method SearchLasDataset(lines: seq<BoundsLine>, polygon: seq<Point>) returns (files: seq<string>)
    requires AllReadable(lines)
    ensures files == SelectedFiles(lines, polygon, |lines|)
  {
    files := [];
    var j := 0;
    while j < |lines|
      invariant 0 <= j <= |lines|
      invariant files == SelectedFiles(lines, polygon, j)
    {
      var found := AnyNodeInside(polygon, lines[j]);
      if found {
        files := files + [lines[j].file];
      }
      j := j + 1;
    }
  }

  // ---------------------------------------------------------------------
  // The building loop of main

  /** The script always rewrites the output name to a LAS name. */
  const ForceLasOutput := true

  /** The output point-cloud name: the name from the polygon line, or, when
      LAS output is forced, that name without its last four characters
      followed by ".las". */
  function OutputName(cloudName: string, forceLas: bool): string
  {
    if forceLas then WithoutLastFour(cloudName) + ".las" else cloudName
  }

  /** A building's point cloud, named by the footprint script after the OBJ
      stem, comes out as the same stem with "_points.las". */
  lemma OutputNameOfFootprintCloud(stem: string)
    ensures OutputName(Footprint.PointCloudName(stem + ".obj"), ForceLasOutput) == stem + "_points.las"
  {
    Footprint.PointCloudNameOfObj(stem);
    WithoutLastFourOfExtension(stem + "_points", ".ply");
    assert stem + "_points.ply" == (stem + "_points") + ".ply";
  }

  /** One building to process: its OBJ name, the output name and the LAS
      files to read its points from. */
  datatype Job = Job(building: string, output: string, sources: seq<string>)

  /** The job main makes for polygon line `t`. */
  function JobFor(lines: seq<BoundsLine>, records: seq<PolygonRecord>, t: nat): Job
    requires AllReadable(lines) && t < |records|
  {
    Job(records[t].objName, OutputName(records[t].cloudName, ForceLasOutput),
        SelectedFiles(lines, records[t].nodes, |lines|))
  }

  /** The jobs for the first `count` polygon lines: lines whose building is
      not on the work list are skipped. */
  function Jobs(lines: seq<BoundsLine>, records: seq<PolygonRecord>, buildings: seq<string>,
                count: nat): (r: seq<Job>)
    requires AllReadable(lines) && count <= |records|
    ensures |r| <= count
    ensures forall m :: 0 <= m < |r| ==> r[m].building in buildings
    decreases count
  {
    if count == 0 then []
    else
      var t := count - 1;
      Jobs(lines, records, buildings, t) + (if records[t].objName in buildings then [JobFor(lines, records, t)] else [])
  }

  /** A job is made exactly for the lines of listed buildings, and it is the
      job of that line. */
  lemma {:induction false} JobsExactly(lines: seq<BoundsLine>, records: seq<PolygonRecord>,
                                       buildings: seq<string>, count: nat)
    requires AllReadable(lines) && count <= |records|
    ensures forall job :: job in Jobs(lines, records, buildings, count) <==>
              exists t :: 0 <= t < count && records[t].objName in buildings && job == JobFor(lines, records, t)
    decreases count
  {
    if count > 0 {
      JobsExactly(lines, records, buildings, count - 1);
      var t := count - 1;
      if records[t].objName in buildings {
        assert records[t].objName in buildings && JobFor(lines, records, t) == JobFor(lines, records, t);
      }
    }
  }

  /** The building loop of main, without the file checks and the point
      processing. */
  method PlanBuildings(lines: seq<BoundsLine>, records: seq<PolygonRecord>, buildings: seq<string>)
    returns (jobs: seq<Job>)
    requires AllReadable(lines)
    ensures jobs == Jobs(lines, records, buildings, |records|)
  {
    jobs := [];
    var t := 0;
    while t < |records|
      invariant 0 <= t <= |records|
      invariant jobs == Jobs(lines, records, buildings, t)
    {
      var record := records[t];
      if record.objName in buildings {
        var output := record.cloudName;
        if ForceLasOutput {
          output := WithoutLastFour(output) + ".las";
        }
        var sources := SearchLasDataset(lines, record.nodes);
        jobs := jobs + [Job(record.objName, output, sources)];
      }
      t := t + 1;
    }
  }
}
