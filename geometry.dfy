/** Real-valued 3D points and spheres: the value types the rasterizer works on.
    Floating-point coordinates are modelled as exact reals. */
module Geometry {

  /** A point (or vector) in world space. */
  datatype Point = Point(x: real, y: real, z: real)

  /** A sphere: its radius and the position of its centre. */
  datatype Sphere = Sphere(radius: real, pos: Point)

  /** Builds a point from its three coordinates. */
  function At(x: real, y: real, z: real): Point
  {
    Point(x, y, z)
  }

  /** Componentwise sum of two points. */
  function Add(a: Point, b: Point): Point
  {
    Point(a.x + b.x, a.y + b.y, a.z + b.z)
  }

  /** Scalar product of two vectors. */
  function Dot(a: Point, b: Point): real
  {
    a.x * b.x + a.y * b.y + a.z * b.z
  }
}
