/** The `Vertex` record of Exercise-1/main.cpp: a homogeneous position (or the
    `MINF` marker) and an RGBA colour of four unsigned bytes. */
module Vertices {
  import opened Geometry

  /** An `unsigned char`. */
  newtype byte = b: int | 0 <= b < 256

  datatype Rgba = Rgba(r: byte, g: byte, b: byte, a: byte)

  /** The colour stored with a vertex whose depth is missing. */
  const Black: Rgba := Rgba(0, 0, 0, 0)

  datatype Vertex = Vertex(position: Position, color: Rgba)

  /** A vertex the mesh can use: its position is not the `MINF` marker. */
  predicate IsValid(v: Vertex)
  {
    v.position.Point?
  }
}
