/**
 * Two-component vectors over exact reals, standing in for glam's `Vec2`
 * (which is two `f32`s). Only the operations the core uses are defined.
 */
module Vectors {

  datatype Vec2 = Vec2(x: real, y: real)

  function Add(a: Vec2, b: Vec2): Vec2 { Vec2(a.x + b.x, a.y + b.y) }

  function Sub(a: Vec2, b: Vec2): Vec2 { Vec2(a.x - b.x, a.y - b.y) }

  /** `k * a`, glam's `f32 * Vec2`. */
  function Scale(k: real, a: Vec2): Vec2 { Vec2(k * a.x, k * a.y) }

  function Dot(a: Vec2, b: Vec2): real { a.x * b.x + a.y * b.y }

  function LengthSquared(a: Vec2): real { Dot(a, a) }

  /** The z component of the 3D cross product; zero exactly when `a` and `b` are parallel. */
  function Cross(a: Vec2, b: Vec2): real { a.x * b.y - a.y * b.x }
}
