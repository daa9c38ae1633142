/** Grid triangulation with the edge-length filter: `validateTriangle` and the
    cell loop at the start of `WriteMesh` in Exercise-1/main.cpp. */
module Triangulation {
  import opened Geometry
  import opened Grid
  import opened Vertices

  /** Three vertex indices, in winding order (`Vector3i`). */
  datatype Triangle = Triangle(a: nat, b: nat, c: nat)

  function Corners(t: Triangle): seq<nat>
  {
    [t.a, t.b, t.c]
  }

  /** `edgeThreshold = 0.01f` (1 cm). The float literal's rounding is not modelled. */
  const EdgeThreshold: real := 0.01

  /** A triangle the mesh may contain, stated independently of the order in
      which the source tests its edges: its corners are slots of `vs`, and any
      two of its corners are valid vertices strictly closer than `thr`. */
  ghost predicate Acceptable(vs: seq<Vertex>, t: Triangle, thr: real)
  {
    (forall j :: 0 <= j < 3 ==> Corners(t)[j] < |vs|) &&
    (forall j, k :: 0 <= j < k < 3 ==>
       WithinThreshold(vs[Corners(t)[j]].position, vs[Corners(t)[k]].position, thr))
  }

  /** `validateTriangle`: the edges (1,3), (1,2) and (2,3) are each shorter
      than `thr`. */
  function ValidateTriangle(vs: seq<Vertex>, idx1: nat, idx2: nat, idx3: nat, thr: real): (ok: bool)
    requires idx1 < |vs| && idx2 < |vs| && idx3 < |vs|
    ensures ok ==> IsValid(vs[idx1]) && IsValid(vs[idx2]) && IsValid(vs[idx3])
  {
    WithinThreshold(vs[idx1].position, vs[idx3].position, thr)
    && WithinThreshold(vs[idx1].position, vs[idx2].position, thr)
    && WithinThreshold(vs[idx2].position, vs[idx3].position, thr)
  }

  /** `validateTriangle` accepts exactly the acceptable triangles. */
  lemma ValidateAcceptable(vs: seq<Vertex>, idx1: nat, idx2: nat, idx3: nat, thr: real)
    requires idx1 < |vs| && idx2 < |vs| && idx3 < |vs|
    ensures ValidateTriangle(vs, idx1, idx2, idx3, thr) <==> Acceptable(vs, Triangle(idx1, idx2, idx3), thr)
  {
    var t := Triangle(idx1, idx2, idx3);
    assert Corners(t)[0] == idx1 && Corners(t)[1] == idx2 && Corners(t)[2] == idx3;
  }

  /** Validating a vertex set does not depend on the order its corners are
      listed in: swapping the last two corners gives the same verdict. The
      source validates a cell's second triangle as (idx2, idx3, idx4) and
      stores it as (idx2, idx4, idx3). */
  lemma ValidateSwapLast(vs: seq<Vertex>, i: nat, j: nat, k: nat, thr: real)
    requires i < |vs| && j < |vs| && k < |vs|
    ensures ValidateTriangle(vs, i, j, k, thr) == ValidateTriangle(vs, i, k, j, thr)
  {
    WithinThresholdSymmetric(vs[j].position, vs[k].position, thr);
  }

  /** The two candidate triangles of the cell whose top-left pixel is
      (row, col): (idx1, idx2, idx3) and (idx2, idx4, idx3), where idx2 is the
      pixel below idx1, idx3 the one to its right and idx4 the diagonal one. */
  function Candidate(width: nat, row: nat, col: nat, second: bool): (t: Triangle)
    ensures t.c == Index(width, row, col + 1)
  {
    var idx1 := Index(width, row, col);
    var idx2 := Index(width, row + 1, col);
    var idx3 := Index(width, row, col + 1);
    var idx4 := Index(width, row + 1, col + 1);
    if second then Triangle(idx2, idx4, idx3) else Triangle(idx1, idx2, idx3)
  }

  /** Both candidates of a cell contain its diagonal from idx2 (below the
      top-left pixel) to idx3 (right of it). */
  lemma CandidatesShareDiagonal(width: nat, row: nat, col: nat, second: bool)
    ensures var t := Candidate(width, row, col, second);
      Index(width, row + 1, col) in Corners(t) && Index(width, row, col + 1) in Corners(t)
  {
  }

  /** The two candidates of a cell, first then second. */
  function CellCandidates(width: nat, row: nat, col: nat): seq<Triangle>
  {
    [Candidate(width, row, col, false), Candidate(width, row, col, true)]
  }

  /** The candidates of the first `cols` cells of cell row `row`. */
  function RowCandidates(width: nat, row: nat, cols: nat): (cs: seq<Triangle>)
    ensures |cs| == 2 * cols
  {
    if cols == 0 then []
    else RowCandidates(width, row, cols - 1) + CellCandidates(width, row, cols - 1)
  }

  /** The candidates of the first `rows` cell rows, in the order the cell
      loops propose them: rows in the outer loop, columns in the inner one. */
  function ScanCandidates(width: nat, rows: nat): (cs: seq<Triangle>)
    ensures |cs| == 2 * Area(CellSpan(width), rows)
  {
    if rows == 0 then []
    else ScanCandidates(width, rows - 1) + RowCandidates(width, rows - 1, CellSpan(width))
  }

  /** `validateTriangle` on a triangle's corners in the order they are
      stored; a corner outside `vs` is never accepted. */
  predicate Accepts(vs: seq<Vertex>, t: Triangle, thr: real)
    ensures Accepts(vs, t, thr) ==>
      t.a < |vs| && t.b < |vs| && t.c < |vs| && IsValid(vs[t.a]) && IsValid(vs[t.b]) && IsValid(vs[t.c])
  {
    t.a < |vs| && t.b < |vs| && t.c < |vs| && ValidateTriangle(vs, t.a, t.b, t.c, thr)
  }

  lemma AcceptsAcceptable(vs: seq<Vertex>, t: Triangle, thr: real)
    ensures Accepts(vs, t, thr) <==> Acceptable(vs, t, thr)
  {
    assert Corners(t)[0] == t.a && Corners(t)[1] == t.b && Corners(t)[2] == t.c;
    if t.a < |vs| && t.b < |vs| && t.c < |vs| {
      ValidateAcceptable(vs, t.a, t.b, t.c, thr);
    }
  }

  /** The candidates of `cs` that `validateTriangle` accepts, in their order. */
  function Keep(vs: seq<Vertex>, cs: seq<Triangle>, thr: real): (ts: seq<Triangle>)
    ensures |ts| <= |cs|
  {
    if cs == [] then []
    else Keep(vs, cs[..|cs| - 1], thr) + (if Accepts(vs, cs[|cs| - 1], thr) then [cs[|cs| - 1]] else [])
  }

  /** The triangle list `WriteMesh` builds: the accepted candidates of every
      cell of the grid, in scan order. */
  function Triangulate(vs: seq<Vertex>, width: nat, height: nat, thr: real): (ts: seq<Triangle>)
    ensures forall t :: t in ts ==> Accepts(vs, t, thr)
  {
    KeepSound(vs, ScanCandidates(width, CellSpan(height)), thr);
    Keep(vs, ScanCandidates(width, CellSpan(height)), thr)
  }

  // ---------------------------------------------------------------------
  // Filtering

  /** Filtering a concatenation filters each part. */
  lemma {:induction false} KeepAppend(vs: seq<Vertex>, xs: seq<Triangle>, ys: seq<Triangle>, thr: real)
    ensures Keep(vs, xs + ys, thr) == Keep(vs, xs, thr) + Keep(vs, ys, thr)
    decreases |ys|
  {
    if ys == [] {
      assert xs + ys == xs;
    } else {
      var init := ys[..|ys| - 1];
      KeepAppend(vs, xs, init, thr);
      assert (xs + ys)[..|xs + ys| - 1] == xs + init;
      assert (xs + ys)[|xs + ys| - 1] == ys[|ys| - 1];
    }
  }

  /** One cell's step: its first candidate is kept if accepted, then its
      second. */
  lemma KeepPair(vs: seq<Vertex>, cs: seq<Triangle>, first: Triangle, second: Triangle, thr: real)
    ensures Keep(vs, cs + [first, second], thr)
            == Keep(vs, cs, thr) + (if Accepts(vs, first, thr) then [first] else [])
               + (if Accepts(vs, second, thr) then [second] else [])
  {
    KeepAppend(vs, cs, [first, second], thr);
    assert [first, second][..1] == [first];
    assert [first][..0] == [];
  }

  /** Every kept triangle is an accepted member of the candidates. */
  lemma {:induction false} KeepSound(vs: seq<Vertex>, cs: seq<Triangle>, thr: real)
    ensures forall t :: t in Keep(vs, cs, thr) ==> t in cs && Accepts(vs, t, thr)
  {
    if cs != [] {
      var init := cs[..|cs| - 1];
      KeepSound(vs, init, thr);
      assert cs == init + [cs[|cs| - 1]];
    }
  }

  /** Every accepted candidate is kept. */
  lemma {:induction false} KeepComplete(vs: seq<Vertex>, cs: seq<Triangle>, thr: real)
    ensures forall t :: t in cs && Accepts(vs, t, thr) ==> t in Keep(vs, cs, thr)
  {
    if cs != [] {
      var init := cs[..|cs| - 1];
      KeepComplete(vs, init, thr);
      assert cs == init + [cs[|cs| - 1]];
    }
  }

  // ---------------------------------------------------------------------
  // Scan order

  /** The scan-order relation: a triangle with a smaller third corner comes
      first, and of the two triangles of a cell (which share the third
      corner) the one with the smaller first corner comes first. */
  predicate Before(s: Triangle, t: Triangle)
  {
    s.c < t.c || (s.c == t.c && s.a < t.a)
  }

  /** Each triangle of the list comes before the next one. */
  ghost predicate ScanOrdered(ts: seq<Triangle>)
  {
    forall j :: 0 < j < |ts| ==> Before(ts[j - 1], ts[j])
  }

  /** The third corners of `ts` lie in the range `lo < c <= hi`. */
  ghost predicate ThirdCornersWithin(ts: seq<Triangle>, lo: int, hi: int)
  {
    forall j :: 0 <= j < |ts| ==> lo < ts[j].c <= hi
  }

  lemma BeforeTransitive(r: Triangle, s: Triangle, t: Triangle)
    requires Before(r, s) && Before(s, t)
    ensures Before(r, t)
  {
  }

  /** Ordering neighbours orders the whole list: every triangle comes before
      every later one, so no triangle occurs twice. */
  lemma {:induction false} ScanOrderedPairwise(ts: seq<Triangle>)
    requires ScanOrdered(ts)
    ensures forall j, k :: 0 <= j < k < |ts| ==> Before(ts[j], ts[k]) && ts[j] != ts[k]
  {
    forall j, k | 0 <= j < k < |ts|
      ensures Before(ts[j], ts[k])
    {
      BeforeUpTo(ts, j, k);
    }
  }

  lemma {:induction false} BeforeUpTo(ts: seq<Triangle>, j: nat, k: nat)
    requires ScanOrdered(ts)
    requires j < k < |ts|
    ensures Before(ts[j], ts[k])
    decreases k - j
  {
    if j + 1 < k {
      BeforeUpTo(ts, j, k - 1);
      BeforeTransitive(ts[j], ts[k - 1], ts[k]);
    }
  }

  /** Two ordered lists whose third corners lie in consecutive ranges
      concatenate to an ordered list over the joined range. */
  lemma ConcatOrdered(xs: seq<Triangle>, ys: seq<Triangle>, lo: int, mid: int, hi: int)
    requires ScanOrdered(xs) && ScanOrdered(ys)
    requires ThirdCornersWithin(xs, lo, mid) && ThirdCornersWithin(ys, mid, hi)
    requires lo <= mid <= hi
    ensures ScanOrdered(xs + ys) && ThirdCornersWithin(xs + ys, lo, hi)
  {
    var zs := xs + ys;
    forall j | 0 < j < |zs|
      ensures Before(zs[j - 1], zs[j])
    {
      if j < |xs| {
        assert zs[j - 1] == xs[j - 1] && zs[j] == xs[j];
      } else if j == |xs| {
        assert zs[j - 1] == xs[|xs| - 1] && zs[j] == ys[0];
      } else {
        assert zs[j - 1] == ys[j - 1 - |xs|] && zs[j] == ys[j - |xs|];
      }
    }
    forall j | 0 <= j < |zs|
      ensures lo < zs[j].c <= hi
    {
      if j < |xs| {
        assert zs[j] == xs[j];
      } else {
        assert zs[j] == ys[j - |xs|];
      }
    }
  }

  lemma AppendOrdered(xs: seq<Triangle>, t: Triangle)
    requires ScanOrdered(xs)
    requires |xs| > 0 ==> Before(xs[|xs| - 1], t)
    ensures ScanOrdered(xs + [t])
  {
    var zs := xs + [t];
    forall j | 0 < j < |zs|
      ensures Before(zs[j - 1], zs[j])
    {
      if j < |xs| {
        assert zs[j - 1] == xs[j - 1] && zs[j] == xs[j];
      }
    }
  }

  /** Filtering keeps the order of the candidates. */
  lemma {:induction false} KeepOrdered(vs: seq<Vertex>, cs: seq<Triangle>, thr: real)
    requires ScanOrdered(cs)
    ensures ScanOrdered(Keep(vs, cs, thr))
  {
    if cs != [] {
      var init, last := cs[..|cs| - 1], cs[|cs| - 1];
      assert ScanOrdered(init) by {
        forall j | 0 < j < |init|
          ensures Before(init[j - 1], init[j])
        {
          assert init[j - 1] == cs[j - 1] && init[j] == cs[j];
        }
      }
      KeepOrdered(vs, init, thr);
      var ks := Keep(vs, init, thr);
      if Accepts(vs, last, thr) && |ks| > 0 {
        KeepSound(vs, init, thr);
        assert ks[|ks| - 1] in init;
        var i :| 0 <= i < |init| && init[i] == ks[|ks| - 1];
        BeforeUpTo(cs, i, |cs| - 1);
        AppendOrdered(ks, last);
      } else if Accepts(vs, last, thr) {
        AppendOrdered(ks, last);
      }
    }
  }

  lemma WithinWeaken(ts: seq<Triangle>, lo: int, hi: int, hi': int)
    requires ThirdCornersWithin(ts, lo, hi) && hi <= hi'
    ensures ThirdCornersWithin(ts, lo, hi')
  {
  }

  /** A row's candidates are in scan order: the cells of a row have
      increasing third corners, and within a cell the first candidate comes
      before the second. */
  lemma {:induction false} RowCandidatesOrdered(width: nat, row: nat, cols: nat)
    requires cols <= CellSpan(width)
    ensures var cs := RowCandidates(width, row, cols);
      ScanOrdered(cs) && ThirdCornersWithin(cs, Index(width, row, 0), Index(width, row, cols))
  {
    if cols > 0 {
      var col := cols - 1;
      RowCandidatesOrdered(width, row, col);
      IndexOffset(width, row, col);
      IndexOffset(width, row, cols);
      assert Index(width, row + 1, col) == Index(width, row, col) + width;
      var pair := CellCandidates(width, row, col);
      assert ScanOrdered(pair);
      ConcatOrdered(RowCandidates(width, row, col), pair, Index(width, row, 0), Index(width, row, col), Index(width, row, cols));
    }
  }

  /** All candidates are in scan order. */
  lemma {:induction false} ScanCandidatesOrdered(width: nat, rows: nat)
    ensures var cs := ScanCandidates(width, rows);
      ScanOrdered(cs) && ThirdCornersWithin(cs, -1, Index(width, rows, 0))
  {
    if rows > 0 {
      var xs := ScanCandidates(width, rows - 1);
      var ys := RowCandidates(width, rows - 1, CellSpan(width));
      ScanCandidatesOrdered(width, rows - 1);
      RowCandidatesOrdered(width, rows - 1, CellSpan(width));
      IndexOffset(width, rows - 1, CellSpan(width));
      WithinWeaken(ys, Index(width, rows - 1, 0), Index(width, rows - 1, CellSpan(width)), Index(width, rows, 0));
      ConcatOrdered(xs, ys, -1, Index(width, rows - 1, 0), Index(width, rows, 0));
    }
  }

  // ---------------------------------------------------------------------
  // Which candidates are proposed

  /** The cell and half a candidate is proposed for. */
  datatype CellHalf = CellHalf(row: nat, col: nat, second: bool)

  predicate InScan(width: nat, height: nat, h: CellHalf)
  {
    h.row < CellSpan(height) && h.col < CellSpan(width)
  }

  /** Where the scan proposes a candidate: two per cell, cells in row-major
      order over the `CellSpan(width)` cells of a row. */
  function CandidateSlot(width: nat, h: CellHalf): nat
  {
    2 * Index(CellSpan(width), h.row, h.col) + (if h.second then 1 else 0)
  }

  lemma {:induction false} RowCandidateAt(width: nat, row: nat, cols: nat, col: nat, second: bool)
    requires col < cols
    ensures 2 * col + (if second then 1 else 0) < 2 * cols
    ensures RowCandidates(width, row, cols)[2 * col + (if second then 1 else 0)] == Candidate(width, row, col, second)
  {
    if col < cols - 1 {
      RowCandidateAt(width, row, cols - 1, col, second);
    }
  }

  lemma IndexRowStart(width: nat, row: nat)
    ensures Index(width, row, 0) == Area(width, row)
  {
  }

  /** The candidate of a scanned cell and half sits at its `CandidateSlot`. */
  lemma {:induction false} ScanCandidateAt(width: nat, rows: nat, h: CellHalf)
    requires h.row < rows && h.col < CellSpan(width)
    ensures CandidateSlot(width, h) < |ScanCandidates(width, rows)|
    ensures ScanCandidates(width, rows)[CandidateSlot(width, h)] == Candidate(width, h.row, h.col, h.second)
  {
    var span := CellSpan(width);
    var p := CandidateSlot(width, h);
    var prefix, last := ScanCandidates(width, rows - 1), RowCandidates(width, rows - 1, span);
    assert ScanCandidates(width, rows) == prefix + last;
    if h.row == rows - 1 {
      LastRowCandidateAt(width, rows, h);
    } else {
      ScanCandidateAt(width, rows - 1, h);
      IndexInRange(span, rows - 1, h.row, h.col);
      assert (prefix + last)[p] == prefix[p];
    }
  }

  lemma LastRowCandidateAt(width: nat, rows: nat, h: CellHalf)
    requires h.row == rows - 1 && h.col < CellSpan(width)
    ensures CandidateSlot(width, h) < |ScanCandidates(width, rows)|
    ensures ScanCandidates(width, rows)[CandidateSlot(width, h)] == Candidate(width, h.row, h.col, h.second)
  {
    var span := CellSpan(width);
    var p := CandidateSlot(width, h);
    var b := if h.second then 1 else 0;
    var prefix, last := ScanCandidates(width, rows - 1), RowCandidates(width, rows - 1, span);
    assert ScanCandidates(width, rows) == prefix + last;
    IndexOffset(span, h.row, h.col);
    IndexRowStart(span, h.row);
    RowCandidateAt(width, h.row, span, h.col, h.second);
    assert p == |prefix| + (2 * h.col + b);
    assert (prefix + last)[p] == last[2 * h.col + b];
  }

  /** Every position of the scan holds the candidate of a scanned cell. */
  lemma ScanCandidateCell(width: nat, rows: nat, p: nat)
    requires p < |ScanCandidates(width, rows)|
    ensures exists h: CellHalf :: h.row < rows && h.col < CellSpan(width)
              && ScanCandidates(width, rows)[p] == Candidate(width, h.row, h.col, h.second)
  {
    var span := CellSpan(width);
    var q := p / 2;
    SlotPixel(span, rows, q);
    var h := CellHalf(q / span, q % span, p % 2 == 1);
    ScanCandidateAt(width, rows, h);
    assert CandidateSlot(width, h) == p;
  }

  /** A triangle is the candidate of a cell and half inside the scanned range. */
  ghost predicate FromScannedCell(width: nat, height: nat, t: Triangle)
  {
    exists h: CellHalf :: InScan(width, height, h) && t == Candidate(width, h.row, h.col, h.second)
  }

  /** The scan proposes exactly the candidates of the cells in range. */
  lemma ScanCandidatesExactly(width: nat, height: nat)
    ensures forall t :: t in ScanCandidates(width, CellSpan(height)) ==> FromScannedCell(width, height, t)
    ensures forall h: CellHalf :: InScan(width, height, h) ==>
              Candidate(width, h.row, h.col, h.second) in ScanCandidates(width, CellSpan(height))
  {
    var cs := ScanCandidates(width, CellSpan(height));
    forall t | t in cs
      ensures FromScannedCell(width, height, t)
    {
      var p :| 0 <= p < |cs| && cs[p] == t;
      ScanCandidateCell(width, CellSpan(height), p);
    }
    forall h: CellHalf | InScan(width, height, h)
      ensures Candidate(width, h.row, h.col, h.second) in cs
    {
      ScanCandidateAt(width, CellSpan(height), h);
    }
  }

  /** The corners of a scanned candidate are slots of the vertex array. */
  lemma CandidateInRange(width: nat, height: nat, h: CellHalf)
    requires InScan(width, height, h)
    ensures var t := Candidate(width, h.row, h.col, h.second);
      t.a < Area(width, height) && t.b < Area(width, height) && t.c < Area(width, height)
  {
    CellCornersInRange(width, height, h.row, h.col);
  }

  // ---------------------------------------------------------------------
  // What the triangle list is

  /** There are at most two triangles per cell. */
  lemma TriangulateLength(vs: seq<Vertex>, width: nat, height: nat, thr: real)
    ensures |Triangulate(vs, width, height, thr)| <= 2 * (CellSpan(width) * CellSpan(height))
  {
    AreaIsProduct(CellSpan(width), CellSpan(height));
  }

  /** The list is strictly ordered by cell (row-major) and, within a cell,
      first triangle before second. */
  lemma TriangulateOrdered(vs: seq<Vertex>, width: nat, height: nat, thr: real)
    ensures ScanOrdered(Triangulate(vs, width, height, thr))
  {
    ScanCandidatesOrdered(width, CellSpan(height));
    KeepOrdered(vs, ScanCandidates(width, CellSpan(height)), thr);
  }

  /** Every triangle of the list is the candidate of a cell inside the grid
      whose three pairwise distances are below the threshold, so its indices
      are slots of the vertex array and its vertices are valid. */
  lemma TriangulateSound(vs: seq<Vertex>, width: nat, height: nat, thr: real)
    requires |vs| == Area(width, height)
    ensures var ts := Triangulate(vs, width, height, thr);
      forall t :: t in ts ==>
        && FromScannedCell(width, height, t) && Acceptable(vs, t, thr)
        && t.a < Area(width, height) && t.b < Area(width, height) && t.c < Area(width, height)
        && IsValid(vs[t.a]) && IsValid(vs[t.b]) && IsValid(vs[t.c])
  {
    var cs := ScanCandidates(width, CellSpan(height));
    ScanCandidatesExactly(width, height);
    KeepSound(vs, cs, thr);
    forall t | t in Triangulate(vs, width, height, thr)
      ensures FromScannedCell(width, height, t) && Acceptable(vs, t, thr)
    {
      AcceptsAcceptable(vs, t, thr);
    }
  }

  /** Every acceptable candidate of a cell inside the grid is in the list. */
  lemma TriangulateComplete(vs: seq<Vertex>, width: nat, height: nat, thr: real)
    ensures forall h: CellHalf :: InScan(width, height, h) && Acceptable(vs, Candidate(width, h.row, h.col, h.second), thr) ==>
              Candidate(width, h.row, h.col, h.second) in Triangulate(vs, width, height, thr)
  {
    var cs := ScanCandidates(width, CellSpan(height));
    ScanCandidatesExactly(width, height);
    KeepComplete(vs, cs, thr);
    forall h: CellHalf | InScan(width, height, h) && Acceptable(vs, Candidate(width, h.row, h.col, h.second), thr)
      ensures Candidate(width, h.row, h.col, h.second) in Triangulate(vs, width, height, thr)
    {
      AcceptsAcceptable(vs, Candidate(width, h.row, h.col, h.second), thr);
    }
  }

  /** The triangle list is exactly the acceptable candidates of the cells
      inside the grid, in scan order, at most two per cell. */
  lemma TriangulateCharacterised(vs: seq<Vertex>, width: nat, height: nat, thr: real)
    requires |vs| == Area(width, height)
    ensures var ts := Triangulate(vs, width, height, thr);
      && |ts| <= 2 * (CellSpan(width) * CellSpan(height))
      && ScanOrdered(ts)
      && (forall t :: t in ts ==> FromScannedCell(width, height, t) && Acceptable(vs, t, thr))
      && (forall h: CellHalf :: InScan(width, height, h) && Acceptable(vs, Candidate(width, h.row, h.col, h.second), thr) ==>
            Candidate(width, h.row, h.col, h.second) in ts)
  {
    TriangulateLength(vs, width, height, thr);
    TriangulateOrdered(vs, width, height, thr);
    TriangulateSound(vs, width, height, thr);
    TriangulateComplete(vs, width, height, thr);
  }

  /** A distance exactly at the threshold rejects a triangle, even when all
      three of its vertices are valid. */
  lemma ThresholdIsStrict(vs: seq<Vertex>, i: nat, j: nat, k: nat, thr: real)
    requires i < |vs| && j < |vs| && k < |vs|
    requires IsValid(vs[i]) && IsValid(vs[j]) && 0.0 <= thr
    requires SqDist(vs[i].position, vs[j].position) == Sq(thr)
    ensures !ValidateTriangle(vs, i, j, k, thr)
  {
  }

  /** A triangle touching a vertex whose position is the `MINF` marker is
      never accepted, whatever the threshold. */
  lemma InvalidVertexRejected(vs: seq<Vertex>, i: nat, j: nat, k: nat, thr: real)
    requires i < |vs| && j < |vs| && k < |vs|
    requires !IsValid(vs[i]) || !IsValid(vs[j]) || !IsValid(vs[k])
    ensures !ValidateTriangle(vs, i, j, k, thr)
  {
  }

  /** The only cell of a 2x2 grid proposes (0,2,1) and then (2,3,1). */
  lemma TwoByTwoCandidates()
    ensures ScanCandidates(2, CellSpan(2)) == [Triangle(0, 2, 1), Triangle(2, 3, 1)]
  {
    assert CellCandidates(2, 0, 0) == [Triangle(0, 2, 1), Triangle(2, 3, 1)];
    assert RowCandidates(2, 0, 1) == [] + [Triangle(0, 2, 1), Triangle(2, 3, 1)];
  }

  /** A 2x2 grid whose four vertices are valid and pairwise closer than the
      threshold yields exactly the triangles (0,2,1) and (2,3,1). */
  lemma TwoByTwo(vs: seq<Vertex>, thr: real)
    requires |vs| == 4
    requires forall i, j :: 0 <= i < 4 && 0 <= j < 4 && i != j ==> WithinThreshold(vs[i].position, vs[j].position, thr)
    ensures Triangulate(vs, 2, 2, thr) == [Triangle(0, 2, 1), Triangle(2, 3, 1)]
  {
    TwoByTwoCandidates();
    KeepPair(vs, [], Triangle(0, 2, 1), Triangle(2, 3, 1), thr);
    assert [] + [Triangle(0, 2, 1), Triangle(2, 3, 1)] == [Triangle(0, 2, 1), Triangle(2, 3, 1)];
    assert Accepts(vs, Triangle(0, 2, 1), thr);
    assert Accepts(vs, Triangle(2, 3, 1), thr);
  }

  /** Both triangles of a cell share the diagonal from its lower-left to its
      upper-right corner: in a 2x2 grid a missing vertex 1 or 2 leaves no
      triangle at all. */
  lemma TwoByTwoDiagonalMissing(vs: seq<Vertex>, thr: real)
    requires |vs| == 4
    requires !IsValid(vs[1]) || !IsValid(vs[2])
    ensures Triangulate(vs, 2, 2, thr) == []
  {
    TwoByTwoCandidates();
    KeepPair(vs, [], Triangle(0, 2, 1), Triangle(2, 3, 1), thr);
    assert [] + [Triangle(0, 2, 1), Triangle(2, 3, 1)] == [Triangle(0, 2, 1), Triangle(2, 3, 1)];
    InvalidVertexRejected(vs, 0, 2, 1, thr);
    InvalidVertexRejected(vs, 2, 3, 1, thr);
  }

  // ---------------------------------------------------------------------
  // The loop bounds as written

  /** `n - 1` on a 32-bit `unsigned int`: the bounds `height-1` and `width-1`
      of the cell loops wrap around to 4294967295 when the dimension is 0. */
  function UnsignedPred(n: nat): (m: nat)
    requires n < 0x1_0000_0000
    ensures m < 0x1_0000_0000
    ensures n > 0 ==> m == n - 1
    ensures n == 0 ==> m == 0xFFFF_FFFF
  {
    (n - 1) % 0x1_0000_0000
  }

  /** Whether the loops as written visit the cell (row, col). */
  predicate ScannedAsWritten(width: nat, height: nat, row: nat, col: nat)
    requires width < 0x1_0000_0000 && height < 0x1_0000_0000
    ensures 0 < width && 0 < height ==>
      (ScannedAsWritten(width, height, row, col) <==> InScan(width, height, CellHalf(row, col, false)))
  {
    row < UnsignedPred(height) && col < UnsignedPred(width)
  }

  /** For a frame of height 0 and width 2 the loops as written visit cell
      (0, 0) and validate its first candidate (0, 2, 1), none of whose
      corners is a slot of the array of 0 vertices. */
  lemma AsWrittenEmptyFrameReadsPastEnd()
    ensures UnsignedPred(0) == 0xFFFF_FFFF
    ensures ScannedAsWritten(2, 0, 0, 0)
    ensures Candidate(2, 0, 0, false) == Triangle(0, 2, 1)
    ensures Area(2, 0) == 0
  {
  }

  /** For every dimension of at least one pixel the corrected bound agrees
      with the one written; only an empty dimension differs. */
  lemma CellSpanMatchesWhenNonEmpty(n: nat)
    requires 1 <= n < 0x1_0000_0000
    ensures CellSpan(n) == UnsignedPred(n)
    ensures CellSpan(0) == 0 != UnsignedPred(0)
  {
  }

  // ---------------------------------------------------------------------
  // The loop

  /** Appending one cell's filtered candidates to what the row has kept so
      far gives what the row keeps with that cell included. */
  lemma KeepNextCell(vs: seq<Vertex>, width: nat, row: nat, col: nat, thr: real, prefix: seq<Triangle>)
    ensures (prefix + Keep(vs, RowCandidates(width, row, col), thr)) + Keep(vs, CellCandidates(width, row, col), thr)
            == prefix + Keep(vs, RowCandidates(width, row, col + 1), thr)
  {
    var kept, cell := Keep(vs, RowCandidates(width, row, col), thr), Keep(vs, CellCandidates(width, row, col), thr);
    KeepAppend(vs, RowCandidates(width, row, col), CellCandidates(width, row, col), thr);
    assert (prefix + kept) + cell == prefix + (kept + cell);
  }

  lemma KeepNextRow(vs: seq<Vertex>, width: nat, rows: nat, thr: real)
    ensures Keep(vs, ScanCandidates(width, rows + 1), thr)
            == Keep(vs, ScanCandidates(width, rows), thr) + Keep(vs, RowCandidates(width, rows, CellSpan(width)), thr)
  {
    KeepAppend(vs, ScanCandidates(width, rows), RowCandidates(width, rows, CellSpan(width)), thr);
  }

  /** The two tests the loop makes for cell (row, col), on its corners in
      the order the loop passes them, keep exactly the cell's accepted
      candidates. */
  lemma CellTests(vs: seq<Vertex>, width: nat, height: nat, row: nat, col: nat, thr: real)
    requires |vs| == Area(width, height)
    requires row < CellSpan(height) && col < CellSpan(width)
    ensures Index(width, row, col) < Index(width, row, col + 1) < Index(width, row + 1, col)
    ensures Index(width, row + 1, col) < Index(width, row + 1, col + 1) < |vs|
    ensures var idx1, idx2 := Index(width, row, col), Index(width, row + 1, col);
      var idx3, idx4 := Index(width, row, col + 1), Index(width, row + 1, col + 1);
      Keep(vs, CellCandidates(width, row, col), thr)
      == (if ValidateTriangle(vs, idx1, idx2, idx3, thr) then [Triangle(idx1, idx2, idx3)] else [])
         + (if ValidateTriangle(vs, idx2, idx3, idx4, thr) then [Triangle(idx2, idx4, idx3)] else [])
  {
    CellCornersInRange(width, height, row, col);
    ValidateSwapLast(vs, Index(width, row + 1, col), Index(width, row, col + 1), Index(width, row + 1, col + 1), thr);
    KeepPair(vs, [], Candidate(width, row, col, false), Candidate(width, row, col, true), thr);
    assert [] + CellCandidates(width, row, col) == CellCandidates(width, row, col);
  }

  /** The body of the cell loops for cell (x, y): the corner slots computed
      as the source computes them, and the two tests, appending the cell's
      accepted candidates to `triangles`. */
  method VisitCell(vertices: array<Vertex>, width: nat, height: nat, x: nat, y: nat, thr: real, triangles: seq<Triangle>)
    returns (result: seq<Triangle>)
    requires vertices.Length == Area(width, height)
    requires x < CellSpan(height) && y < CellSpan(width)
    ensures result == triangles + Keep(vertices[..], CellCandidates(width, x, y), thr)
  {
    var idx1 := x * width + y;
    var idx2 := (x + 1) * width + y;
    var idx3 := x * width + y + 1;
    var idx4 := (x + 1) * width + y + 1;
    IndexIsProduct(width, x, y);
    IndexIsProduct(width, x + 1, y);
    IndexIsProduct(width, x, y + 1);
    IndexIsProduct(width, x + 1, y + 1);
    CellTests(vertices[..], width, height, x, y, thr);
    result := triangles;
    if ValidateTriangle(vertices[..], idx1, idx2, idx3, thr) {
      result := result + [Triangle(idx1, idx2, idx3)];
    }
    if ValidateTriangle(vertices[..], idx2, idx3, idx4, thr) {
      result := result + [Triangle(idx2, idx4, idx3)];
    }
  }

  /** The inner cell loop of `WriteMesh` for cell row `x`: columns
      `y + 1 < width`, the source's `y < width-1` without the unsigned
      wrap-around at 0. */
  method VisitRow(vertices: array<Vertex>, width: nat, height: nat, x: nat, thr: real, triangles: seq<Triangle>)
    returns (result: seq<Triangle>)
    requires vertices.Length == Area(width, height)
    requires x < CellSpan(height)
    ensures result == triangles + Keep(vertices[..], RowCandidates(width, x, CellSpan(width)), thr)
  {
    ghost var vs := vertices[..];
    result := triangles;
    var y := 0;
    while y + 1 < width
      invariant y <= CellSpan(width)
      invariant result == triangles + Keep(vs, RowCandidates(width, x, y), thr)
    {
      result := VisitCell(vertices, width, height, x, y, thr, result);
      KeepNextCell(vs, width, x, y, thr, triangles);
      y := y + 1;
    }
    assert y == CellSpan(width);
  }

  /** The cell loops of `WriteMesh`: rows in the outer loop (the source's
      `x < height-1`, here `x + 1 < height` without the unsigned wrap-around
      at 0) and columns in the inner one, each cell proposing its first and
      then its second triangle and keeping those `validateTriangle` accepts. */
  method CollectTriangles(vertices: array<Vertex>, width: nat, height: nat, thr: real)
    returns (triangles: seq<Triangle>)
    requires vertices.Length == Area(width, height)
    ensures triangles == Triangulate(vertices[..], width, height, thr)
  {
    triangles := [];
    var x := 0;
    while x + 1 < height
      invariant x <= CellSpan(height)
      invariant triangles == Keep(vertices[..], ScanCandidates(width, x), thr)
    {
      triangles := VisitRow(vertices, width, height, x, thr, triangles);
      KeepNextRow(vertices[..], width, x, thr);
      x := x + 1;
    }
  }
}
