# Depth frame to COFF mesh

This project models the core of Exercise-1 of an RGB-D reconstruction course. Each depth frame is turned into a triangulated surface mesh and written as a COFF file (Geomview's OFF format with per-vertex colour). Every modelled operation is proved against a specification. The model has three parts:

- **Back-projection** (`BackProjection`). Every pixel `(x, y)` of a `width x height` depth map becomes one vertex, stored at the row-major slot `y * width + x`.
  - A pixel whose depth is the sensor's `MINF` marker gets the `MINF` position and the colour `0 0 0 0`.
  - Any other pixel gets the world point obtained from the image-plane point `(x*Z, y*Z, Z)`. That point goes through the inverted intrinsics, is lifted with a homogeneous `1`, then goes through the inverted extrinsics and the inverted trajectory. The vertex also gets the four colour bytes of the pixel.
  - The method `BackProject` fills a fresh array with the source's loop order: columns outside, rows inside. It is proved to produce exactly the grid `VertexGrid`.
- **Triangulation** (`Triangulation`, `Grid`, `Geometry`). `validateTriangle` tests three edges against a threshold, which is 1 cm in `WriteMesh`.
  - Each 2x2 cell proposes two candidate triangles: `(idx1, idx2, idx3)`, and `(idx2, idx4, idx3)`. The second one is validated as `(idx2, idx3, idx4)`.
  - The cell loops keep the candidates that pass. `CollectTriangles` (with `VisitRow` and `VisitCell`) is the loop. It is proved to return `Triangulate`, the scan-ordered filter of the candidate list.
  - Lemmas show that this list contains exactly the acceptable candidates of cells inside the grid, that it is strictly ordered, and that each kept triangle has three valid vertices that are slots of the array.
- **Writing the file** (`OffFormat`, `MeshWriter`). `WriteMesh` writes:
  - the `COFF` line, a comment line and the counts line `nVertices nFaces 0`;
  - one `x y z r g b a` line per vertex, or `0.0 0.0 0.0 r g b a` for a `MINF` vertex;
  - one `3 i j k` line per kept triangle.

  Along the way it prints two comment lines to standard output. A file that does not open makes it return false and write nothing. A line is modelled as its sequence of fields. `Render` joins the fields with spaces, and the text of a floating-point number is left as a parameter. A reader `ReadOff` is proved to invert the writer. For a back-projected frame, lemmas state the counts, the row of every pixel, and that every face line names three pixels with a measured depth.

For a `MINF` vertex `WriteMesh` writes the dummy point `0.0 0.0 0.0` followed by the colour stored with the vertex (`OffFormat.VertexLine`). The back-projection stores the colour `0 0 0 0` with every `MINF` position. So the row of a pixel whose depth is missing reads `0.0 0.0 0.0 0 0 0 0` (`MeshWriter.FrameFileMissingRow`).

Coordinates are real numbers. The four components of a position are all kept, as `Vector4f` keeps them, and the edge test uses the norm of the 4-component difference. When the inverted extrinsics and trajectory have the last row (0, 0, 0, 1) of a rigid transform, the fourth component of every world point is the homogeneous 1. The edge test is then the 3-D distance (`BackProjection.WorldPointDistance`).

## Model

| member | source | states |
|---|---|---|
| Geometry.SqDist | Exercise-1/main.cpp:20-22 | the squared 4-component distance is never negative and is zero between equal points |
| Geometry.WithinThreshold | Exercise-1/main.cpp:20-22 | an edge passes only when the threshold is positive: a zero or negative threshold accepts no edge |
| Triangulation.ValidateTriangle | Exercise-1/main.cpp:18-23 | an accepted triangle has three valid (non-`MINF`) vertices |
| Triangulation.ValidateAcceptable | Exercise-1/main.cpp:18-23 | `validateTriangle` accepts exactly when all three pairwise distances are strictly below the threshold, independently of the order the edges are tested |
| Triangulation.ValidateSwapLast | Exercise-1/main.cpp:18-23 | the verdict does not change when the last two corners are swapped, so validating (idx2, idx3, idx4) and storing (idx2, idx4, idx3) agree |
| Triangulation.ThresholdIsStrict | Exercise-1/main.cpp:18-23 | two valid vertices exactly `thr` apart make the triangle fail (strict `<`) |
| Triangulation.InvalidVertexRejected | Exercise-1/main.cpp:18-23 | a triangle with a `MINF` corner is rejected for every threshold |
| Geometry.WithinThresholdSymmetric | Exercise-1/main.cpp:20-22 | the edge test does not depend on the order of its two end points |
| Geometry.BoundaryRejected | Exercise-1/main.cpp:20-22 | a distance equal to the threshold does not pass |
| Triangulation.AcceptsAcceptable | Exercise-1/main.cpp:54-59 | testing a stored triangle (with a corner outside the array rejected) is equivalent to its being acceptable |
| Triangulation.Candidate | Exercise-1/main.cpp:49-59 | both candidates of a cell store idx3 as their third corner |
| Triangulation.CandidatesShareDiagonal | Exercise-1/main.cpp:49-59 | both candidates of a cell contain idx2 and idx3, the diagonal they share |
| Triangulation.Accepts | Exercise-1/main.cpp:54-59 | a triangle that passes has its three corners inside the array and three valid vertices |
| Triangulation.Triangulate | Exercise-1/main.cpp:43-63 | every triangle in the list passes `validateTriangle` on its corners in stored order |
| Triangulation.CellTests | Exercise-1/main.cpp:49-60 | the four corner slots of a cell are increasing and inside the array, and the cell's two tests append exactly the accepted candidates of that cell |
| Triangulation.VisitCell | Exercise-1/main.cpp:49-60 | the loop body computes `idx1..idx4` as products and appends the filtered candidates of cell (x, y) to the list |
| Triangulation.VisitRow | Exercise-1/main.cpp:48-61 | the inner loop appends the filtered candidates of every cell of row x, in column order |
| Triangulation.CollectTriangles | Exercise-1/main.cpp:43-63 | the cell loops return exactly `Triangulate`: the accepted candidates of all cells in scan order |
| Triangulation.RowCandidates | Exercise-1/main.cpp:48-60 | a row of `cols` cells proposes `2*cols` candidates |
| Triangulation.ScanCandidates | Exercise-1/main.cpp:47-62 | the scan proposes two candidates per cell of the `(height-1) x (width-1)` cells |
| Triangulation.Keep | Exercise-1/main.cpp:54-60 | filtering never lengthens the list |
| Triangulation.KeepAppend | Exercise-1/main.cpp:54-60 | filtering a concatenation filters each part, so the triangles are collected in candidate order |
| Triangulation.KeepSound | Exercise-1/main.cpp:54-60 | every kept triangle is a candidate that passes the test |
| Triangulation.KeepComplete | Exercise-1/main.cpp:54-60 | every candidate that passes the test is kept |
| Triangulation.KeepOrdered | Exercise-1/main.cpp:54-60 | filtering preserves scan order |
| Triangulation.ScanOrderedPairwise | Exercise-1/main.cpp:47-62 | scan order between neighbours orders the whole list, so no triangle appears twice |
| Triangulation.ScanCandidatesOrdered | Exercise-1/main.cpp:47-62 | the candidates come in scan order, each third corner within the scanned rows |
| Triangulation.ScanCandidateAt | Exercise-1/main.cpp:47-60 | the candidate of cell (row, col), first or second half, sits at position `2*(row*(width-1)+col)` (+1 for the second) |
| Triangulation.ScanCandidatesExactly | Exercise-1/main.cpp:47-60 | the scan proposes every candidate of every cell inside the grid and nothing else |
| Triangulation.CandidateInRange | Exercise-1/main.cpp:49-52 | the corners of a scanned cell are slots of the width*height array |
| Triangulation.TriangulateLength | Exercise-1/main.cpp:43-63 | `nFaces` is at most two per cell |
| Triangulation.TriangulateOrdered | Exercise-1/main.cpp:47-62 | the triangle list is strictly ordered by cell and, within a cell, first triangle before second |
| Triangulation.TriangulateSound | Exercise-1/main.cpp:47-62 | every triangle is the candidate of a cell inside the grid, acceptable, with corners inside the array and valid vertices |
| Triangulation.TriangulateComplete | Exercise-1/main.cpp:47-62 | every acceptable candidate of a cell inside the grid is in the list |
| Triangulation.TriangulateCharacterised | Exercise-1/main.cpp:43-63 | the list is exactly the acceptable candidates of the grid's cells, in scan order, at most two per cell |
| Triangulation.TwoByTwo | Exercise-1/main.cpp:47-62 | a 2x2 grid of mutually close valid vertices yields exactly (0,2,1) and (2,3,1) |
| Triangulation.TwoByTwoDiagonalMissing | Exercise-1/main.cpp:47-62 | in a 2x2 grid a missing vertex 1 or 2 removes both triangles |
| Triangulation.UnsignedPred | Exercise-1/main.cpp:47-48 | `n-1` on a 32-bit unsigned int is `n-1` for n > 0 and 4294967295 for n = 0 |
| Triangulation.ScannedAsWritten | Exercise-1/main.cpp:47-48 | for non-empty dimensions the loops as written visit exactly the cells inside the grid |
| Triangulation.AsWrittenEmptyFrameReadsPastEnd | Exercise-1/main.cpp:47-54 | with unsigned bounds, a 2x0 frame has its cell (0,0) visited and (0,2,1) validated against an array of 0 vertices |
| Triangulation.CellSpanMatchesWhenNonEmpty | Exercise-1/main.cpp:47-48 | the corrected bound equals `n-1` on unsigned ints for every non-empty dimension and differs only at 0 |
| Grid.IndexIsProduct | Exercise-1/main.cpp:49-52 | the row-by-row slot equals `row * width + col` |
| Grid.AreaIsProduct | Exercise-1/main.cpp:40 | the grid has `width * height` slots |
| Grid.IndexInRange | Exercise-1/main.cpp:163 | every pixel's slot is inside the width*height array |
| Grid.IndexDivMod | Exercise-1/main.cpp:163 | the slot gives back its pixel by division and remainder by the width |
| Grid.IndexInjective | Exercise-1/main.cpp:163 | two different pixels never share a slot |
| Grid.SlotPixel | Exercise-1/main.cpp:156-163 | every slot of the array is the slot of one pixel of the grid |
| Grid.CellCornersInRange | Exercise-1/main.cpp:49-52 | idx3 = idx1+1, idx2 = idx1+width, idx4 = idx2+1, all increasing and inside the array |
| BackProjection.ColorAt | Exercise-1/main.cpp:189-194 | the colour is bytes `4*idx .. 4*idx+3` of the colour map, in order |
| BackProjection.WorldPoint | Exercise-1/main.cpp:173-186 | a measured pixel always has a position (never `MINF`) |
| BackProjection.WorldPointHomogeneous | Exercise-1/main.cpp:177-184 | under a rigid calibration the fourth component of a world point is the homogeneous 1 it was lifted with |
| BackProjection.WorldPointDistance | Exercise-1/main.cpp:177-184 | under a rigid calibration the 4-component distance of two world points is their 3-D distance |
| BackProjection.IdentityWorldPoint | Exercise-1/main.cpp:173-186 | with identity matrices pixel (x, y) at depth Z lands at (x*Z, y*Z, Z, 1) |
| BackProjection.BackProjectPixel | Exercise-1/main.cpp:166-194 | the vertex is `MINF` exactly when the depth is `MINF`, with colour 0 0 0 0; otherwise it has the world point and the pixel's colour |
| BackProjection.VertexAt | Exercise-1/main.cpp:163-194 | the vertex of slot idx is `MINF` exactly when its depth is `MINF`, then with colour 0 0 0 0, otherwise with the colour bytes `4*idx .. 4*idx+3` |
| BackProjection.VertexGrid | Exercise-1/main.cpp:156 | the grid has one vertex per pixel, valid or not |
| BackProjection.VertexGridContents | Exercise-1/main.cpp:163-194 | slot i is invalid exactly when depth i is `MINF`, then with zero colour, otherwise with colour bytes `4i .. 4i+3` |
| BackProjection.VertexGridPixel | Exercise-1/main.cpp:161-194 | pixel (x, y) is back-projected into slot `y * width + x` from its own depth and colour |
| BackProjection.FillStep | Exercise-1/main.cpp:163-194 | writing one pixel's slot extends the filled region by that pixel and leaves the others as they were |
| BackProjection.GridDone | Exercise-1/main.cpp:161-197 | once every pixel's slot has been written, the array is the whole grid |
| BackProjection.BackProject | Exercise-1/main.cpp:156-197 | the loop over columns and rows fills a fresh array that equals `VertexGrid` |
| OffFormat.CountLine | Exercise-1/main.cpp:74 | the counts line has three fields, ends in the edge count 0, and is not a face line |
| OffFormat.VertexLine | Exercise-1/main.cpp:78-93 | a vertex line has seven fields and is not a face line; it starts with the word `0.0` exactly when the position is `MINF`; its last four fields are the stored colour bytes |
| OffFormat.FaceLine | Exercise-1/main.cpp:99-102 | a face line is a `3 i j k` line that reads back as its triangle |
| OffFormat.OffLines | Exercise-1/main.cpp:69-102 | the file has 3 + nVertices + nFaces lines: the `COFF` line, a comment, and the counts of vertices and triangles |
| OffFormat.FieldText | Exercise-1/main.cpp:74-101 | an integer's text reads back as the same integer, and a literal word is written verbatim |
| OffFormat.Render | Exercise-1/main.cpp:88-101 | a line's text begins with the text of its first field |
| OffFormat.VertexLines | Exercise-1/main.cpp:78-93 | one line per vertex |
| OffFormat.FaceLines | Exercise-1/main.cpp:99-102 | one line per triangle |
| OffFormat.ParseVertexLine | Exercise-1/main.cpp:78-93 | a vertex line reads back as its x, y, z (the origin for `MINF`) and its four colour bytes |
| OffFormat.RoundTrip | Exercise-1/main.cpp:69-102 | reading the written file gives one row per vertex in grid order and exactly the triangle list, in order and winding |
| OffFormat.HeaderCountsMatch | Exercise-1/main.cpp:74-102 | the counts line names the number of vertex lines, the number of `3 i j k` lines, and 0 edges |
| OffFormat.OffLinesLayout | Exercise-1/main.cpp:69-102 | line 3+i is vertex i and line 3+nVertices+k is face k |
| OffFormat.OffFaceLine | Exercise-1/main.cpp:99-102 | face k is written as `3 a b c` in stored order |
| OffFormat.NatTextRoundTrip | Exercise-1/main.cpp:74 | unsigned integers are written as decimal text that reads back as the same number, without leading zeros |
| OffFormat.MissingVertexText | Exercise-1/main.cpp:87-88 | the row of a `MINF` vertex with zero colour reads exactly `0.0 0.0 0.0 0 0 0 0` |
| OffFormat.RenderAppend | Exercise-1/main.cpp:88-91 | fields written one after another with single spaces: the text of two parts joined is their texts joined by a space |
| MeshWriter.WriteMesh | Exercise-1/main.cpp:26-108 | returns true exactly when the file opens; then the file is the header, the vertex lines and the face lines of `Triangulate` with the 1 cm threshold, and the two banner lines are printed; otherwise nothing is written or printed |
| MeshWriter.FrameFileHeader | Exercise-1/main.cpp:69-102 | a frame's file counts every pixel as a vertex and as many faces as it has face lines, at most two per cell |
| MeshWriter.FrameFileMissingRow | Exercise-1/main.cpp:87-88 | the row of a pixel whose depth is missing reads `0.0 0.0 0.0 0 0 0 0` |
| MeshWriter.FrameFileMeasuredRow | Exercise-1/main.cpp:90-91 | the row of a measured pixel holds its world point and its four colour bytes |
| MeshWriter.MeasuredCorners | Exercise-1/main.cpp:54-59 | every corner of a kept triangle is a pixel with a measured depth |
| MeshWriter.FrameFileFaces | Exercise-1/main.cpp:99-102 | face line k is the k-th kept triangle, with all three corners measured pixels of the frame |
| MeshWriter.AllFaceLinesCounted | Exercise-1/main.cpp:74 | the header's face count is the number of face lines |
| MeshWriter.MillimetreApart | Exercise-1/main.cpp:28 | points 1 mm or sqrt(2) mm apart pass the 1 cm threshold |
| MeshWriter.TwoByTwoFrame | Exercise-1/main.cpp:47-62 | a 2x2 frame at depth 1 mm, identity calibration, has exactly the faces (0,2,1) and (2,3,1) |
| MeshWriter.TwoByTwoFrameWithHole | Exercise-1/main.cpp:47-88 | the same frame with pixel 1 missing has no face, and its row 1 reads `0.0 0.0 0.0 0 0 0 0` |

## Left out

- Floating point. Depths, matrices and coordinates are reals, so single-precision rounding is not modelled. This includes the rounding of the `0.01f` literal (`Triangulation.EdgeThreshold` is exactly 0.01) and NaN behaviour beyond "a `MINF` position never passes the edge test".
- The decimal text of a float written by `operator<<` is the parameter `fmt` of `OffFormat.Render`. A coordinate is kept as a `Coord` field.
- Matrix inversion (`inverse()` of the intrinsics, extrinsics and trajectory). The three inverted matrices are the inputs of `BackProjection.Calibration`.
- The virtual sensor, reading the dataset, the frame loop of `main`, the output file name and its construction, and freeing the vertex array. These are I/O or outside the modelled core.
- Opening the output stream. Its outcome is the parameter `canOpen` of `MeshWriter.WriteMesh`. Flushing, `std::endl` against `"\n"`, and closing are not modelled.
- MeshWriter.WriteMesh: states the lines written and the lines printed to standard output. It does not state their interleaving in time.
- 32-bit integer overflow of `width * height`, `y * width + x` and the corner slots `idx1..idx4`. Integers are unbounded here. The model keeps only the unsigned wrap-around of `height-1` and `width-1`, which is the finding below.
- Triangulation.CollectTriangles: uses the bounds `x + 1 < height` and `y + 1 < width`, the corrected form of the unsigned `height-1` and `width-1`. The loops as written are modelled by `Triangulation.ScannedAsWritten`. For non-empty dimensions they agree (`Triangulation.CellSpanMatchesWhenNonEmpty`).

## Findings

| source | as written | input that shows it | evidently intended | confidence | as-written member | corrected member |
|---|---|---|---|---|---|---|
| Exercise-1/main.cpp:47-48 | the cell loops compare `int x` and `int y` with `height-1` and `width-1` computed on `unsigned int`, which wrap to 4294967295 when the dimension is 0 | width 2, height 0: cell (0,0) is visited and `validateTriangle` reads slots 0, 2 and 1 of an array of 0 vertices | no cell is visited when a dimension is 0, so the bounds are `x + 1 < height` and `y + 1 < width` | not executed | Triangulation.AsWrittenEmptyFrameReadsPastEnd | Triangulation.CollectTriangles |
