/** The COFF variant of the Geomview OFF format as `WriteMesh` in
    Exercise-1/main.cpp lays it out: a `COFF` line, a comment line, the line
    `nVertices nFaces 0`, one `x y z r g b a` line per vertex and one
    `3 i j k` line per triangle. A line is kept as its whitespace-separated
    fields; `Render` turns it into text. */
module OffFormat {
  import opened Geometry
  import opened Vertices
  import opened Triangulation

  datatype Option<T> = None | Some(value: T)
  {
    predicate IsFailure() { None? }

    function PropagateFailure<U>(): Option<U>
      requires None?
    {
      None
    }

    function Extract(): T
      requires Some?
    {
      value
    }
  }

  /** One field of a line: a literal word, an unsigned integer, or a
      floating-point coordinate (whose decimal text is not modelled). */
  datatype Field = Word(s: string) | Int(n: nat) | Coord(x: real)

  type Line = seq<Field>

  const HeaderLine: Line := [Word("COFF")]

  const CommentLine: Line := [Word("# numVertices numFaces numEdges")]

  /** `nVertices nFaces 0`: the edge count is always written as 0. */
  function CountLine(nVertices: nat, nFaces: nat): (line: Line)
    ensures |line| == 3 && line[2] == Int(0) && !IsFaceLine(line)
  {
    [Int(nVertices), Int(nFaces), Int(0)]
  }

  /** A vertex whose position is the `MINF` marker is written at the dummy
      point `0.0 0.0 0.0`; every vertex is followed by its stored colour. The
      fourth (homogeneous) coordinate is not written. */
  function VertexLine(v: Vertex): (line: Line)
    ensures |line| == 7 && !IsFaceLine(line)
    ensures v.position.Minf? <==> line[0] == Word("0.0")
    ensures line[3..] == [Int(v.color.r as nat), Int(v.color.g as nat), Int(v.color.b as nat), Int(v.color.a as nat)]
  {
    var c := v.color;
    (if v.position.Minf? then [Word("0.0"), Word("0.0"), Word("0.0")]
     else [Coord(v.position.x), Coord(v.position.y), Coord(v.position.z)])
    + [Int(c.r as nat), Int(c.g as nat), Int(c.b as nat), Int(c.a as nat)]
  }

  function FaceLine(t: Triangle): (line: Line)
    ensures IsFaceLine(line) && ParseFace(line) == Some(t)
  {
    [Int(3), Int(t.a), Int(t.b), Int(t.c)]
  }

  function VertexLines(vs: seq<Vertex>): (lines: seq<Line>)
    ensures |lines| == |vs|
  {
    seq(|vs|, i requires 0 <= i < |vs| => VertexLine(vs[i]))
  }

  function FaceLines(ts: seq<Triangle>): (lines: seq<Line>)
    ensures |lines| == |ts|
  {
    seq(|ts|, k requires 0 <= k < |ts| => FaceLine(ts[k]))
  }

  /** The whole file for a vertex array and a triangle list. */
  function OffLines(vs: seq<Vertex>, ts: seq<Triangle>): (lines: seq<Line>)
    ensures |lines| == 3 + |vs| + |ts|
    ensures lines[0] == HeaderLine && IsComment(lines[1]) && lines[2] == CountLine(|vs|, |ts|)
  {
    [HeaderLine, CommentLine, CountLine(|vs|, |ts|)] + VertexLines(vs) + FaceLines(ts)
  }

  // ---------------------------------------------------------------------
  // Reading a file back

  /** What a reader of the file learns about one vertex. */
  datatype VertexRow = VertexRow(x: real, y: real, z: real, color: Rgba)

  /** The row the file holds for a vertex: its first three coordinates, or
      the origin for a `MINF` vertex, and its stored colour. */
  function Written(v: Vertex): VertexRow
  {
    if v.position.Minf? then VertexRow(0.0, 0.0, 0.0, v.color)
    else VertexRow(v.position.x, v.position.y, v.position.z, v.color)
  }

  datatype OffMesh = OffMesh(vertices: seq<VertexRow>, faces: seq<Triangle>)

  function ParseCoord(f: Field): Option<real>
  {
    match f
    case Coord(x) => Some(x)
    case Word(s) => if s == "0.0" then Some(0.0) else None
    case Int(_) => None
  }

  function ParseColor(f: Field): Option<byte>
  {
    match f
    case Int(n) => if n < 256 then Some(n as byte) else None
    case _ => None
  }

  function ParseVertexRow(line: Line): Option<VertexRow>
  {
    if |line| != 7 then None
    else
      var x :- ParseCoord(line[0]);
      var y :- ParseCoord(line[1]);
      var z :- ParseCoord(line[2]);
      var r :- ParseColor(line[3]);
      var g :- ParseColor(line[4]);
      var b :- ParseColor(line[5]);
      var a :- ParseColor(line[6]);
      Some(VertexRow(x, y, z, Rgba(r, g, b, a)))
  }

  predicate IsFaceLine(line: Line)
  {
    |line| == 4 && line[0] == Int(3) && line[1].Int? && line[2].Int? && line[3].Int?
  }

  function ParseFace(line: Line): Option<Triangle>
  {
    if IsFaceLine(line) then Some(Triangle(line[1].n, line[2].n, line[3].n)) else None
  }

  function ReadRows(lines: seq<Line>): Option<seq<VertexRow>>
  {
    if lines == [] then Some([])
    else
      var row :- ParseVertexRow(lines[0]);
      var rest :- ReadRows(lines[1..]);
      Some([row] + rest)
  }

  function ReadFaces(lines: seq<Line>): Option<seq<Triangle>>
  {
    if lines == [] then Some([])
    else
      var face :- ParseFace(lines[0]);
      var rest :- ReadFaces(lines[1..]);
      Some([face] + rest)
  }

  predicate IsComment(line: Line)
  {
    |line| == 1 && line[0].Word? && |line[0].s| > 0 && line[0].s[0] == '#'
  }

  /** A reader for the layout above: the header, a comment, the three counts
      (edge count 0), then exactly as many vertex rows and face lines as the
      counts announce. */
  function ReadOff(lines: seq<Line>): Option<OffMesh>
  {
    if |lines| < 3 || lines[0] != HeaderLine || !IsComment(lines[1]) then None
    else
      var counts := lines[2];
      if |counts| != 3 || !counts[0].Int? || !counts[1].Int? || counts[2] != Int(0) then None
      else
        var nv, nf := counts[0].n, counts[1].n;
        if |lines| != 3 + nv + nf then None
        else
          var rows :- ReadRows(lines[3 .. 3 + nv]);
          var faces :- ReadFaces(lines[3 + nv ..]);
          Some(OffMesh(rows, faces))
  }

  /** The rows a reader gets back for a vertex array. */
  function WrittenRows(vs: seq<Vertex>): (rows: seq<VertexRow>)
    ensures |rows| == |vs|
  {
    seq(|vs|, i requires 0 <= i < |vs| => Written(vs[i]))
  }

  /** Each vertex line parses back to the row written for its vertex. */
  lemma ParseVertexLine(v: Vertex)
    ensures ParseVertexRow(VertexLine(v)) == Some(Written(v))
  {
    var c := v.color;
    assert (c.r as nat) as byte == c.r && (c.g as nat) as byte == c.g;
    assert (c.b as nat) as byte == c.b && (c.a as nat) as byte == c.a;
  }

  lemma {:induction false} ReadVertexLines(vs: seq<Vertex>)
    ensures ReadRows(VertexLines(vs)) == Some(WrittenRows(vs))
  {
    if vs == [] {
      assert VertexLines(vs) == [];
      assert WrittenRows(vs) == [];
    } else {
      var lines := VertexLines(vs);
      ReadVertexLines(vs[1..]);
      assert lines[1..] == VertexLines(vs[1..]);
      ParseVertexLine(vs[0]);
      assert lines[0] == VertexLine(vs[0]);
      assert WrittenRows(vs) == [Written(vs[0])] + WrittenRows(vs[1..]);
    }
  }

  lemma {:induction false} ReadFaceLines(ts: seq<Triangle>)
    ensures ReadFaces(FaceLines(ts)) == Some(ts)
  {
    if ts == [] {
      assert FaceLines(ts) == [];
    } else {
      ReadFaceLines(ts[1..]);
      assert FaceLines(ts)[1..] == FaceLines(ts[1..]);
      assert ts == [ts[0]] + ts[1..];
    }
  }

  /** Reading a written file gives back one row per vertex, in grid order,
      and exactly the triangle list, in its order and winding. */
  lemma RoundTrip(vs: seq<Vertex>, ts: seq<Triangle>)
    ensures ReadOff(OffLines(vs, ts)) == Some(OffMesh(WrittenRows(vs), ts))
  {
    var lines := OffLines(vs, ts);
    assert lines[3 .. 3 + |vs|] == VertexLines(vs);
    assert lines[3 + |vs| ..] == FaceLines(ts);
    assert IsComment(lines[1]);
    ReadVertexLines(vs);
    ReadFaceLines(ts);
  }

  // ---------------------------------------------------------------------
  // Counting the face lines

  function CountFaceLines(lines: seq<Line>): nat
  {
    if lines == [] then 0
    else (if IsFaceLine(lines[0]) then 1 else 0) + CountFaceLines(lines[1..])
  }

  lemma {:induction false} CountFaceLinesAppend(xs: seq<Line>, ys: seq<Line>)
    ensures CountFaceLines(xs + ys) == CountFaceLines(xs) + CountFaceLines(ys)
  {
    if xs == [] {
      assert xs + ys == ys;
    } else {
      assert (xs + ys)[0] == xs[0];
      assert (xs + ys)[1..] == xs[1..] + ys;
      CountFaceLinesAppend(xs[1..], ys);
    }
  }

  lemma {:induction false} NoFaceLines(lines: seq<Line>)
    requires forall i :: 0 <= i < |lines| ==> !IsFaceLine(lines[i])
    ensures CountFaceLines(lines) == 0
  {
    if lines != [] {
      NoFaceLines(lines[1..]);
    }
  }

  lemma {:induction false} AllFaceLines(ts: seq<Triangle>)
    ensures CountFaceLines(FaceLines(ts)) == |ts|
  {
    if ts != [] {
      assert FaceLines(ts)[1..] == FaceLines(ts[1..]);
      AllFaceLines(ts[1..]);
    }
  }

  /** The face count in the header equals the number of `3 i j k` lines in
      the file, the vertex count is the number of vertices, and the edge count
      is 0. */
  lemma HeaderCountsMatch(vs: seq<Vertex>, ts: seq<Triangle>)
    ensures var lines := OffLines(vs, ts);
      && lines[2] == [Int(|vs|), Int(CountFaceLines(lines)), Int(0)]
      && |lines| == 3 + |vs| + CountFaceLines(lines)
  {
    var head := [HeaderLine, CommentLine, CountLine(|vs|, |ts|)];
    CountFaceLinesAppend(head + VertexLines(vs), FaceLines(ts));
    CountFaceLinesAppend(head, VertexLines(vs));
    NoFaceLines(VertexLines(vs));
    AllFaceLines(ts);
    NoFaceLines(head);
  }

  /** Line `3 + i` of the file is vertex `i`, and line `3 + |vs| + k` is face `k`. */
  lemma OffLinesLayout(vs: seq<Vertex>, ts: seq<Triangle>)
    ensures |OffLines(vs, ts)| == 3 + |vs| + |ts|
    ensures forall j :: 3 <= j < 3 + |vs| ==> OffLines(vs, ts)[j] == VertexLine(vs[j - 3])
    ensures forall j :: 3 + |vs| <= j < 3 + |vs| + |ts| ==> OffLines(vs, ts)[j] == FaceLine(ts[j - 3 - |vs|])
  {
  }

  /** Face `k` of the list is line `3 + |vs| + k` of the file. */
  lemma OffFaceLine(vs: seq<Vertex>, ts: seq<Triangle>, k: nat)
    requires k < |ts|
    ensures 3 + |vs| + k < |OffLines(vs, ts)|
    ensures OffLines(vs, ts)[3 + |vs| + k] == [Int(3), Int(ts[k].a), Int(ts[k].b), Int(ts[k].c)]
  {
    var head := [HeaderLine, CommentLine, CountLine(|vs|, |ts|)] + VertexLines(vs);
    assert OffLines(vs, ts) == head + FaceLines(ts);
    assert |head| == 3 + |vs|;
    assert (head + FaceLines(ts))[3 + |vs| + k] == FaceLines(ts)[k];
  }

  // ---------------------------------------------------------------------
  // Text

  function DigitChar(d: nat): (c: char)
    requires d < 10
    ensures '0' <= c <= '9' && c as int - '0' as int == d
  {
    ('0' as int + d) as char
  }

  /** Decimal text of an unsigned integer, as `operator<<` writes it. */
  function NatText(n: nat): (s: string)
    ensures |s| > 0
    ensures forall i :: 0 <= i < |s| ==> '0' <= s[i] <= '9'
  {
    if n < 10 then [DigitChar(n)] else NatText(n / 10) + [DigitChar(n % 10)]
  }

  function DigitsValue(s: string): nat
    requires forall i :: 0 <= i < |s| ==> '0' <= s[i] <= '9'
  {
    if s == [] then 0 else 10 * DigitsValue(s[..|s| - 1]) + (s[|s| - 1] as int - '0' as int)
  }

  /** Reads a decimal integer token. */
  function ParseNat(s: string): Option<nat>
  {
    if s != [] && forall i :: 0 <= i < |s| ==> '0' <= s[i] <= '9' then Some(DigitsValue(s)) else None
  }

  /** Integers are written exactly, without leading zeros: reading the text
      back gives the same number. */
  lemma {:induction false} NatTextRoundTrip(n: nat)
    ensures ParseNat(NatText(n)) == Some(n)
    ensures NatText(n)[0] == '0' ==> n == 0
  {
    var s := NatText(n);
    if n < 10 {
      assert s[..0] == [];
    } else {
      NatTextRoundTrip(n / 10);
      assert s[..|s| - 1] == NatText(n / 10);
      assert DigitsValue(NatText(n / 10)) == n / 10;
      assert DigitsValue(s) == 10 * (n / 10) + n % 10;
    }
  }

  function FieldText(f: Field, fmt: real -> string): (s: string)
    ensures f.Int? ==> ParseNat(s) == Some(f.n)
    ensures f.Word? ==> s == f.s
  {
    match f
    case Word(s) => s
    case Int(n) => NatTextRoundTrip(n); NatText(n)
    case Coord(x) => fmt(x)
  }

  /** The text of a line: its fields separated by single spaces. `fmt` is
      the stream's formatting of a float, which is not modelled. */
  function Render(line: Line, fmt: real -> string): (s: string)
    ensures line != [] ==> FieldText(line[0], fmt) <= s
  {
    if |line| == 0 then ""
    else if |line| == 1 then FieldText(line[0], fmt)
    else FieldText(line[0], fmt) + " " + Render(line[1..], fmt)
  }

  /** The lines `WriteMesh` prints to standard output, not to the file. */
  const FaceListBanner: seq<string> := ["# list of faces", "# nVerticesPerFace idx0 idx1 idx2 ..."]

  /** The row of a `MINF` vertex with a zero colour reads exactly
      `0.0 0.0 0.0 0 0 0 0`, whatever the float formatting. */
  lemma MissingVertexText(v: Vertex, fmt: real -> string)
    requires v.position.Minf? && v.color == Black
    ensures Render(VertexLine(v), fmt) == "0.0 0.0 0.0 0 0 0 0"
  {
    assert VertexLine(v) == MissingLine;
    MissingLineText(fmt);
  }

  /** The fields of the row of a `MINF` vertex with a zero colour. */
  const MissingLine: Line := [Word("0.0"), Word("0.0"), Word("0.0"), Int(0), Int(0), Int(0), Int(0)]

  lemma MissingLineText(fmt: real -> string)
    ensures Render(MissingLine, fmt) == "0.0 0.0 0.0 0 0 0 0"
  {
    var origin := Word("0.0");
    var zeros := [Int(0), Int(0), Int(0), Int(0)];
    OriginText(fmt);
    ZeroColourText(fmt);
    assert MissingLine == [origin, origin, origin] + zeros;
    RenderAppend([origin, origin, origin], zeros, fmt);
    JoinedText();
  }

  /** The origin's text and the zero colour's text joined by a space. */
  lemma JoinedText()
    ensures "0.0 0.0 0.0" + " " + "0 0 0 0" == "0.0 0.0 0.0 0 0 0 0"
  {
  }

  /** Three `0.0` words read `0.0 0.0 0.0`. */
  lemma OriginText(fmt: real -> string)
    ensures Render([Word("0.0"), Word("0.0"), Word("0.0")], fmt) == "0.0 0.0 0.0"
  {
    var origin := Word("0.0");
    assert Render([origin], fmt) == "0.0";
    RenderStep(origin, [origin], "0.0", fmt);
    assert [origin] + [origin] == [origin, origin];
    RenderStep(origin, [origin, origin], "0.0 0.0", fmt);
    assert [origin] + [origin, origin] == [origin, origin, origin];
  }

  /** Four zero colour bytes read `0 0 0 0`. */
  lemma ZeroColourText(fmt: real -> string)
    ensures Render([Int(0), Int(0), Int(0), Int(0)], fmt) == "0 0 0 0"
  {
    var zero := Int(0);
    assert FieldText(zero, fmt) == "0" by { assert NatText(0) == [DigitChar(0)]; }
    assert Render([zero], fmt) == "0";
    RenderStep(zero, [zero], "0", fmt);
    assert [zero] + [zero] == [zero, zero];
    RenderStep(zero, [zero, zero], "0 0", fmt);
    assert [zero] + [zero, zero] == [zero, zero, zero];
    RenderStep(zero, [zero, zero, zero], "0 0 0", fmt);
    assert [zero] + [zero, zero, zero] == [zero, zero, zero, zero];
  }

  /** The text of two non-empty lines put end to end is their texts joined
      by a space. */
  lemma {:induction false} RenderAppend(a: Line, b: Line, fmt: real -> string)
    requires a != [] && b != []
    ensures Render(a + b, fmt) == Render(a, fmt) + " " + Render(b, fmt)
  {
    assert (a + b)[0] == a[0];
    assert (a + b)[1..] == a[1..] + b;
    if |a| > 1 {
      RenderAppend(a[1..], b, fmt);
    }
  }

  /** Prepending a field to a non-empty line puts its text and a space in
      front of the line's text. */
  lemma RenderStep(f: Field, rest: Line, text: string, fmt: real -> string)
    requires rest != [] && Render(rest, fmt) == text
    ensures Render([f] + rest, fmt) == FieldText(f, fmt) + " " + text
  {
    assert ([f] + rest)[1..] == rest;
  }
}
