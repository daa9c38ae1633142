/** `WriteMesh` of Exercise-1/main.cpp, and what the file written for one
    back-projected frame contains. */
module MeshWriter {
  import opened Geometry
  import opened Grid
  import opened Vertices
  import opened BackProjection
  import opened Triangulation
  import opened OffFormat

  /** Triangulates the vertex grid with the 1 cm edge threshold, then, if the
      output file opens (`canOpen`, the outcome of opening the stream), writes
      the header, one line per vertex and one line per kept triangle, and
      prints the two face-list comment lines to standard output. If the file
      does not open, nothing is written or printed and the result is false.
      `file` is the sequence of lines the stream receives. */
  method WriteMesh(vertices: array<Vertex>, width: nat, height: nat, canOpen: bool)
    returns (ok: bool, file: seq<Line>, console: seq<string>)
    requires vertices.Length == Area(width, height)
    ensures ok == canOpen
    ensures ok ==> file == OffLines(vertices[..], Triangulate(vertices[..], width, height, EdgeThreshold))
    ensures ok ==> console == FaceListBanner
    ensures !ok ==> file == [] && console == []
  {
    var nVertices := width * height;
    AreaIsProduct(width, height);
    var triangles := CollectTriangles(vertices, width, height, EdgeThreshold);
    var nFaces := |triangles|;

    if !canOpen {
      return false, [], [];
    }

    var head := [HeaderLine, CommentLine, CountLine(nVertices, nFaces)];
    file := head;

    var i := 0;
    while i < nVertices
      invariant i <= nVertices
      invariant file == head + VertexLines(vertices[..i])
    {
      var position, c := vertices[i].position, vertices[i].color;
      var colorFields := [Int(c.r as nat), Int(c.g as nat), Int(c.b as nat), Int(c.a as nat)];
      if position.Minf? {
        file := file + [[Word("0.0"), Word("0.0"), Word("0.0")] + colorFields];
      } else {
        file := file + [[Coord(position.x), Coord(position.y), Coord(position.z)] + colorFields];
      }
      assert VertexLines(vertices[..i + 1]) == VertexLines(vertices[..i]) + [VertexLine(vertices[i])];
      i := i + 1;
    }
    assert vertices[..i] == vertices[..];

    console := FaceListBanner;

    var k := 0;
    while k < nFaces
      invariant k <= nFaces
      invariant file == head + VertexLines(vertices[..]) + FaceLines(triangles[..k])
    {
      var face := triangles[k];
      file := file + [[Int(3), Int(face.a), Int(face.b), Int(face.c)]];
      assert FaceLines(triangles[..k + 1]) == FaceLines(triangles[..k]) + [FaceLine(triangles[k])];
      k := k + 1;
    }
    assert triangles[..k] == triangles;

    ok := true;
  }

  /** The file written for one frame: the vertex grid back-projected from the
      frame and its triangulation. */
  function FrameFile(frame: Frame, cal: Calibration): seq<Line>
    requires frame.WellFormed() && cal.WellFormed()
  {
    var g := VertexGrid(frame, cal);
    OffLines(g, Triangulate(g, frame.width, frame.height, EdgeThreshold))
  }

  /** The header of a frame's file counts one vertex per pixel, whether or
      not its depth is missing, and as many faces as there are `3 i j k`
      lines, at most two per cell of the grid. */
  lemma FrameFileHeader(frame: Frame, cal: Calibration)
    requires frame.WellFormed() && cal.WellFormed()
    ensures var lines := FrameFile(frame, cal);
      var n := Area(frame.width, frame.height);
      && |lines| == 3 + n + CountFaceLines(lines)
      && lines[2] == [Int(n), Int(CountFaceLines(lines)), Int(0)]
      && CountFaceLines(lines) <= 2 * (CellSpan(frame.width) * CellSpan(frame.height))
  {
    var g := VertexGrid(frame, cal);
    var ts := Triangulate(g, frame.width, frame.height, EdgeThreshold);
    HeaderCountsMatch(g, ts);
    AllFaceLinesCounted(g, ts);
    TriangulateLength(g, frame.width, frame.height, EdgeThreshold);
  }

  /** The row of pixel (col, row) whose depth is missing reads
      `0.0 0.0 0.0 0 0 0 0`. */
  lemma FrameFileMissingRow(frame: Frame, cal: Calibration, row: nat, col: nat, fmt: real -> string)
    requires frame.WellFormed() && cal.WellFormed()
    requires row < frame.height && col < frame.width
    ensures Index(frame.width, row, col) < Area(frame.width, frame.height)
    ensures 3 + Index(frame.width, row, col) < |FrameFile(frame, cal)|
    ensures frame.depth[Index(frame.width, row, col)].MinfDepth? ==>
      Render(FrameFile(frame, cal)[3 + Index(frame.width, row, col)], fmt) == "0.0 0.0 0.0 0 0 0 0"
  {
    var g := VertexGrid(frame, cal);
    var ts := Triangulate(g, frame.width, frame.height, EdgeThreshold);
    var idx := Index(frame.width, row, col);
    VertexGridPixel(frame, cal, row, col);
    OffLinesLayout(g, ts);
    if frame.depth[idx].MinfDepth? {
      MissingVertexText(g[idx], fmt);
    }
  }

  /** The row of pixel (col, row) with a depth holds the pixel's world point
      and the four bytes of its colour. */
  lemma FrameFileMeasuredRow(frame: Frame, cal: Calibration, row: nat, col: nat)
    requires frame.WellFormed() && cal.WellFormed()
    requires row < frame.height && col < frame.width
    ensures Index(frame.width, row, col) < Area(frame.width, frame.height)
    ensures 3 + Index(frame.width, row, col) < |FrameFile(frame, cal)|
    ensures var idx := Index(frame.width, row, col);
      frame.depth[idx].Depth? ==>
        var p := WorldPoint(cal, col, row, frame.depth[idx].z);
        var c := ColorAt(frame.color, idx);
        FrameFile(frame, cal)[3 + idx]
          == [Coord(p.x), Coord(p.y), Coord(p.z), Int(c.r as nat), Int(c.g as nat), Int(c.b as nat), Int(c.a as nat)]
  {
    var g := VertexGrid(frame, cal);
    var ts := Triangulate(g, frame.width, frame.height, EdgeThreshold);
    VertexGridPixel(frame, cal, row, col);
    OffLinesLayout(g, ts);
  }

  /** The corners of every triangle kept for a frame are pixels with a
      measured depth. */
  lemma MeasuredCorners(frame: Frame, cal: Calibration, t: Triangle)
    requires frame.WellFormed() && cal.WellFormed()
    requires t in Triangulate(VertexGrid(frame, cal), frame.width, frame.height, EdgeThreshold)
    ensures var n := Area(frame.width, frame.height);
      t.a < n && t.b < n && t.c < n
    ensures frame.depth[t.a].Depth? && frame.depth[t.b].Depth? && frame.depth[t.c].Depth?
  {
    var g := VertexGrid(frame, cal);
    TriangulateSound(g, frame.width, frame.height, EdgeThreshold);
    assert IsValid(g[t.a]) && IsValid(g[t.b]) && IsValid(g[t.c]);
    VertexGridContents(frame, cal);
  }

  /** Face line `k` of a frame's file is the `k`-th kept triangle, and its
      three corners are pixels of the frame, all with a depth. */
  lemma FrameFileFaces(frame: Frame, cal: Calibration)
    requires frame.WellFormed() && cal.WellFormed()
    ensures var n := Area(frame.width, frame.height);
      var ts := Triangulate(VertexGrid(frame, cal), frame.width, frame.height, EdgeThreshold);
      var lines := FrameFile(frame, cal);
      && |lines| == 3 + n + |ts|
      && forall k :: 0 <= k < |ts| ==>
           && ts[k].a < n && ts[k].b < n && ts[k].c < n
           && frame.depth[ts[k].a].Depth? && frame.depth[ts[k].b].Depth? && frame.depth[ts[k].c].Depth?
           && lines[3 + n + k] == [Int(3), Int(ts[k].a), Int(ts[k].b), Int(ts[k].c)]
  {
    var g := VertexGrid(frame, cal);
    var n := Area(frame.width, frame.height);
    var ts := Triangulate(g, frame.width, frame.height, EdgeThreshold);
    HeaderCountsMatch(g, ts);
    forall k | 0 <= k < |ts|
      ensures && ts[k].a < n && ts[k].b < n && ts[k].c < n
              && frame.depth[ts[k].a].Depth? && frame.depth[ts[k].b].Depth? && frame.depth[ts[k].c].Depth?
              && FrameFile(frame, cal)[3 + n + k] == [Int(3), Int(ts[k].a), Int(ts[k].b), Int(ts[k].c)]
    {
      MeasuredCorners(frame, cal, ts[k]);
      OffFaceLine(g, ts, k);
    }
  }

  /** The number of face lines of a file is the length of its triangle list. */
  lemma AllFaceLinesCounted(vs: seq<Vertex>, ts: seq<Triangle>)
    ensures CountFaceLines(OffLines(vs, ts)) == |ts|
  {
    HeaderCountsMatch(vs, ts);
  }

  // ---------------------------------------------------------------------
  // Two-by-two frames

  const Identity3x3: Matrix := Identity(3)
  const Identity4x4: Matrix := Identity(4)

  function IdentityCalibration(): (cal: Calibration)
    ensures cal.WellFormed() && Rigid(cal)
  {
    Calibration(Identity3x3, Identity4x4, Identity4x4)
  }

  /** A corner of the square of side 1 mm in the plane z = 1 mm. */
  predicate OnMillimetreSquare(p: Position)
  {
    && p.Point? && p.z == 0.001 && p.w == 1.0
    && (p.x == 0.0 || p.x == 0.001) && (p.y == 0.0 || p.y == 0.001)
  }

  /** A coordinate difference of 0 or 1 mm squares to at most 1 mm^2. */
  lemma SmallOffset(d: real)
    requires d == 0.0 || d == 0.001 || d == -0.001
    ensures Sq(d) <= 0.000001
  {
  }

  /** The final sum, with the squares as plain numbers so that the solver
      stays in linear arithmetic. */
  lemma SumBelow(dx: real, dy: real, dz: real, dw: real, d: real, limit: real)
    requires dx <= 0.000001 && dy <= 0.000001 && dz == 0.0 && dw == 0.0
    requires d == dx + dy + dz + dw && limit == 0.0001
    ensures d < limit
  {
  }

  /** Any two corners of that square are closer than the 1 cm edge threshold. */
  lemma MillimetreApart(p: Position, q: Position)
    requires OnMillimetreSquare(p) && OnMillimetreSquare(q)
    ensures WithinThreshold(p, q, EdgeThreshold)
  {
    SmallOffset(p.x - q.x);
    SmallOffset(p.y - q.y);
    assert Sq(p.z - q.z) == 0.0 && Sq(p.w - q.w) == 0.0;
    assert Sq(EdgeThreshold) == 0.0001;
    assert SqDist(p, q) == Sq(p.x - q.x) + Sq(p.y - q.y) + Sq(p.z - q.z) + Sq(p.w - q.w);
    SumBelow(Sq(p.x - q.x), Sq(p.y - q.y), Sq(p.z - q.z), Sq(p.w - q.w), SqDist(p, q), Sq(EdgeThreshold));
  }

  /** With identity calibration, pixel (col, row) of a 2x2 frame at depth
      1 mm lands on the corner (col mm, row mm) of that square. */
  lemma PixelOnSquare(col: nat, row: nat)
    requires col < 2 && row < 2
    ensures OnMillimetreSquare(WorldPoint(IdentityCalibration(), col, row, 0.001))
  {
    IdentityWorldPoint(col, row, 0.001);
    assert col == 0 || col == 1;
    assert row == 0 || row == 1;
  }

  /** A 2x2 frame at depth 1 mm with identity calibration: its four points are
      1 mm or sqrt(2) mm apart, below the 1 cm threshold, and the mesh has
      exactly the faces (0,2,1) and (2,3,1). */
  lemma TwoByTwoFrame(color: seq<byte>)
    requires |color| == 16
    ensures var frame := Frame(2, 2, [Depth(0.001), Depth(0.001), Depth(0.001), Depth(0.001)], color);
      var g := VertexGrid(frame, IdentityCalibration());
      Triangulate(g, 2, 2, EdgeThreshold) == [Triangle(0, 2, 1), Triangle(2, 3, 1)]
  {
    var frame := Frame(2, 2, [Depth(0.001), Depth(0.001), Depth(0.001), Depth(0.001)], color);
    var g := VertexGrid(frame, IdentityCalibration());
    forall i | 0 <= i < 4
      ensures OnMillimetreSquare(g[i].position)
    {
      PixelOnSquare(i % 2, i / 2);
    }
    forall i, j | 0 <= i < 4 && 0 <= j < 4 && i != j
      ensures WithinThreshold(g[i].position, g[j].position, EdgeThreshold)
    {
      MillimetreApart(g[i].position, g[j].position);
    }
    TwoByTwo(g, EdgeThreshold);
  }

  /** The same frame with the depth of pixel 1 missing: both candidate
      triangles touch pixel 1, so the mesh has no face, and row 1 of the file
      reads `0.0 0.0 0.0 0 0 0 0`. */
  lemma TwoByTwoFrameWithHole(color: seq<byte>, fmt: real -> string)
    requires |color| == 16
    ensures var frame := Frame(2, 2, [Depth(0.001), MinfDepth, Depth(0.001), Depth(0.001)], color);
      var g := VertexGrid(frame, IdentityCalibration());
      && Triangulate(g, 2, 2, EdgeThreshold) == []
      && Render(FrameFile(frame, IdentityCalibration())[3 + Index(2, 0, 1)], fmt) == "0.0 0.0 0.0 0 0 0 0"
  {
    var frame := Frame(2, 2, [Depth(0.001), MinfDepth, Depth(0.001), Depth(0.001)], color);
    var g := VertexGrid(frame, IdentityCalibration());
    assert !IsValid(g[1]);
    TwoByTwoDiagonalMissing(g, EdgeThreshold);
    FrameFileMissingRow(frame, IdentityCalibration(), 0, 1, fmt);
  }
}
