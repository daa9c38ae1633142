/** Back-projection of a depth frame into a row-major grid of world-space
    vertices: the loop over all pixels in `main` of Exercise-1/main.cpp. */
module BackProjection {
  import opened Geometry
  import opened Grid
  import opened Vertices

  /** One depth sample: the sensor's `MINF` "no measurement" value, or a depth. */
  datatype DepthSample = MinfDepth | Depth(z: real)

  /** One frame as the sensor delivers it: a row-major depth map and a
      row-major RGBX colour map of four bytes per pixel, same extent. */
  datatype Frame = Frame(width: nat, height: nat, depth: seq<DepthSample>, color: seq<byte>)
  {
    predicate WellFormed()
    {
      |depth| == Area(width, height) && |color| == 4 * Area(width, height)
    }
  }

  /** The inverted intrinsics (3x3), inverted extrinsics (4x4) and inverted
      trajectory (4x4) of a frame, inverted once per frame by the caller. */
  datatype Calibration = Calibration(intrinsicsInv: Matrix, extrinsicsInv: Matrix, trajectoryInv: Matrix)
  {
    predicate WellFormed()
    {
      IsMatrix(intrinsicsInv, 3, 3) && IsMatrix(extrinsicsInv, 4, 4) && IsMatrix(trajectoryInv, 4, 4)
    }
  }

  /** The four bytes `colorMap[4*idx .. 4*idx+3]` as red, green, blue, alpha. */
  function ColorAt(color: seq<byte>, idx: nat): (c: Rgba)
    requires 4 * idx + 3 < |color|
    ensures [c.r, c.g, c.b, c.a] == color[4 * idx .. 4 * idx + 4]
  {
    Rgba(color[4 * idx], color[4 * idx + 1], color[4 * idx + 2], color[4 * idx + 3])
  }

  /** World-space position of pixel (col, row) at depth z: the image-plane
      point (col*z, row*z, z) through the inverted intrinsics, lifted with a
      homogeneous 1, then through the inverted extrinsics and the inverted
      trajectory. */
  function WorldPoint(cal: Calibration, col: nat, row: nat, z: real): (p: Position)
    requires cal.WellFormed()
    ensures p.Point?
  {
    var imagePlane := [col as real * z, row as real * z, z];
    var camera := MulVec(cal.intrinsicsInv, imagePlane);
    var sensor := MulVec(cal.extrinsicsInv, camera + [1.0]);
    var world := MulVec(cal.trajectoryInv, sensor);
    Point(world[0], world[1], world[2], world[3])
  }

  /** The vertex of one pixel: the `MINF` marker with a zero colour when the
      depth is missing, otherwise the world point with the pixel's colour. */
  function BackProjectPixel(cal: Calibration, col: nat, row: nat, sample: DepthSample, rgba: Rgba): (v: Vertex)
    requires cal.WellFormed()
    ensures v.position.Minf? <==> sample.MinfDepth?
    ensures sample.MinfDepth? ==> v.color == Black
    ensures sample.Depth? ==> v.color == rgba && v.position == WorldPoint(cal, col, row, sample.z)
  {
    match sample
    case MinfDepth => Vertex(Minf, Black)
    case Depth(z) => Vertex(WorldPoint(cal, col, row, z), rgba)
  }

  /** With identity calibration a pixel lands at (col*z, row*z, z, 1). */
  lemma IdentityWorldPoint(col: nat, row: nat, z: real)
    ensures WorldPoint(Calibration(Identity(3), Identity(4), Identity(4)), col, row, z)
            == Point(col as real * z, row as real * z, z, 1.0)
  {
    var imagePlane := [col as real * z, row as real * z, z];
    IdentityMulVec(imagePlane);
    IdentityMulVec(imagePlane + [1.0]);
  }

  /** The two 4x4 matrices have the last row (0, 0, 0, 1) of a rigid
      transform, so they keep the homogeneous coordinate. */
  predicate Rigid(cal: Calibration)
  {
    cal.WellFormed() && cal.extrinsicsInv[3] == UnitRow(4, 3) && cal.trajectoryInv[3] == UnitRow(4, 3)
  }

  /** Under a rigid calibration the fourth component of a world point is the
      homogeneous 1 the point was lifted with. */
  lemma WorldPointHomogeneous(cal: Calibration, col: nat, row: nat, z: real)
    requires Rigid(cal)
    ensures WorldPoint(cal, col, row, z).w == 1.0
  {
    var imagePlane := [col as real * z, row as real * z, z];
    var camera := MulVec(cal.intrinsicsInv, imagePlane);
    var sensor := MulVec(cal.extrinsicsInv, camera + [1.0]);
    DotUnitRow(4, 3, camera + [1.0]);
    DotUnitRow(4, 3, sensor);
  }

  /** Under a rigid calibration the 4-component distance of two world points
      is their 3-D Euclidean distance: the fourth components cancel. */
  lemma WorldPointDistance(cal: Calibration, col: nat, row: nat, z: real, col': nat, row': nat, z': real)
    requires Rigid(cal)
    ensures var p, q := WorldPoint(cal, col, row, z), WorldPoint(cal, col', row', z');
      SqDist(p, q) == Sq(p.x - q.x) + Sq(p.y - q.y) + Sq(p.z - q.z)
  {
    WorldPointHomogeneous(cal, col, row, z);
    WorldPointHomogeneous(cal, col', row', z');
  }

  /** The vertex stored at slot `idx`, for the pixel (idx % width, idx / width). */
  function VertexAt(frame: Frame, cal: Calibration, idx: nat): (v: Vertex)
    requires frame.WellFormed() && cal.WellFormed()
    requires idx < Area(frame.width, frame.height)
    ensures v.position.Minf? <==> frame.depth[idx].MinfDepth?
    ensures frame.depth[idx].MinfDepth? ==> v.color == Black
    ensures frame.depth[idx].Depth? ==> v.color == ColorAt(frame.color, idx)
  {
    SlotPixel(frame.width, frame.height, idx);
    BackProjectPixel(cal, idx % frame.width, idx / frame.width, frame.depth[idx], ColorAt(frame.color, idx))
  }

  /** The whole vertex grid of a frame: one vertex per pixel, whether or not
      its depth is missing, in row-major order. */
  function VertexGrid(frame: Frame, cal: Calibration): (g: seq<Vertex>)
    requires frame.WellFormed() && cal.WellFormed()
    ensures |g| == Area(frame.width, frame.height)
  {
    var n := Area(frame.width, frame.height);
    seq(n, i requires 0 <= i < n => VertexAt(frame, cal, i))
  }

  /** A slot of the grid is invalid exactly when its depth sample is `MINF`,
      and then its colour is zero; otherwise it carries the pixel's four colour
      bytes. (Its position is stated pixel by pixel in `VertexGridPixel`.) */
  lemma VertexGridContents(frame: Frame, cal: Calibration)
    requires frame.WellFormed() && cal.WellFormed()
    ensures var g := VertexGrid(frame, cal);
      && (forall i :: 0 <= i < |g| ==> (g[i].position.Minf? <==> frame.depth[i].MinfDepth?))
      && (forall i :: 0 <= i < |g| && frame.depth[i].MinfDepth? ==> g[i].color == Black)
      && (forall i :: 0 <= i < |g| && frame.depth[i].Depth? ==>
            g[i].color == ColorAt(frame.color, i))
  {
    var g := VertexGrid(frame, cal);
    forall i | 0 <= i < |g|
      ensures g[i].position.Minf? <==> frame.depth[i].MinfDepth?
      ensures frame.depth[i].MinfDepth? ==> g[i].color == Black
      ensures frame.depth[i].Depth? ==> g[i].color == ColorAt(frame.color, i)
    {
      SlotPixel(frame.width, frame.height, i);
      assert g[i] == VertexAt(frame, cal, i);
    }
  }

  /** Pixel (col, row) of the frame is back-projected into slot
      `row * width + col` of the grid, from its own depth sample and colour. */
  lemma VertexGridPixel(frame: Frame, cal: Calibration, row: nat, col: nat)
    requires frame.WellFormed() && cal.WellFormed()
    requires row < frame.height && col < frame.width
    ensures Index(frame.width, row, col) < |VertexGrid(frame, cal)|
    ensures var idx := Index(frame.width, row, col);
            VertexGrid(frame, cal)[idx] == BackProjectPixel(cal, col, row, frame.depth[idx], ColorAt(frame.color, idx))
  {
    IndexInRange(frame.width, frame.height, row, col);
    IndexDivMod(frame.width, row, col);
  }

  /** The slots of the pixels of columns before `x`, and of column `x` in
      rows before `y`, already hold their entry of `target`. */
  ghost predicate FilledUpTo(vs: seq<Vertex>, target: seq<Vertex>, width: nat, height: nat, x: nat, y: nat)
    requires |vs| == |target|
  {
    forall row: nat, col: nat ::
      row < height && col < width && (col < x || (col == x && row < y)) && Index(width, row, col) < |vs| ==>
        vs[Index(width, row, col)] == target[Index(width, row, col)]
  }

  lemma FillStep(vs: seq<Vertex>, target: seq<Vertex>, width: nat, height: nat, x: nat, y: nat)
    requires |vs| == |target| == Area(width, height)
    requires x < width && y < height
    requires FilledUpTo(vs, target, width, height, x, y)
    ensures Index(width, y, x) < |vs|
    ensures FilledUpTo(vs[Index(width, y, x) := target[Index(width, y, x)]], target, width, height, x, y + 1)
  {
    var idx := Index(width, y, x);
    IndexInRange(width, height, y, x);
    var vs' := vs[idx := target[idx]];
    forall row: nat, col: nat |
      row < height && col < width && (col < x || (col == x && row < y + 1)) && Index(width, row, col) < |vs'|
      ensures vs'[Index(width, row, col)] == target[Index(width, row, col)]
    {
      if Index(width, row, col) == idx {
        IndexInjective(width, row, col, y, x);
      }
    }
  }

  lemma ColumnDone(vs: seq<Vertex>, target: seq<Vertex>, width: nat, height: nat, x: nat)
    requires |vs| == |target|
    requires FilledUpTo(vs, target, width, height, x, height)
    ensures FilledUpTo(vs, target, width, height, x + 1, 0)
  {
  }

  lemma GridDone(vs: seq<Vertex>, target: seq<Vertex>, width: nat, height: nat)
    requires |vs| == |target| == Area(width, height)
    requires FilledUpTo(vs, target, width, height, width, 0)
    ensures vs == target
  {
    forall i | 0 <= i < |vs|
      ensures vs[i] == target[i]
    {
      SlotPixel(width, height, i);
      var row: nat, col: nat := i / width, i % width;
      assert Index(width, row, col) == i;
    }
  }

  /** Fills a freshly allocated width*height array pixel by pixel, columns in
      the outer loop and rows in the inner loop, each pixel at its row-major
      slot `y * width + x`. */
  method BackProject(frame: Frame, cal: Calibration) returns (vertices: array<Vertex>)
    requires frame.WellFormed() && cal.WellFormed()
    ensures fresh(vertices)
    ensures vertices[..] == VertexGrid(frame, cal)
  {
    var width, height := frame.width, frame.height;
    ghost var grid := VertexGrid(frame, cal);
    vertices := new Vertex[width * height];
    AreaIsProduct(width, height);
    var x := 0;
    while x < width
      invariant x <= width
      invariant FilledUpTo(vertices[..], grid, width, height, x, 0)
    {
      var y := 0;
      while y < height
        invariant y <= height
        invariant FilledUpTo(vertices[..], grid, width, height, x, y)
      {
        var idx := y * width + x;
        IndexIsProduct(width, y, x);
        FillStep(vertices[..], grid, width, height, x, y);
        VertexGridPixel(frame, cal, y, x);
        vertices[idx] := BackProjectPixel(cal, x, y, frame.depth[idx], ColorAt(frame.color, idx));
        y := y + 1;
      }
      ColumnDone(vertices[..], grid, width, height, x);
      x := x + 1;
    }
    GridDone(vertices[..], grid, width, height);
  }
}
