/**
 * The engine-side values that the game logic reads: entity handles,
 * vectors and transforms. Floating-point `f32` values are modelled as `real`.
 */
module Ecs {
  import opened RealArith

  /** A stable entity handle, as handed out by the entity registry. */
  type Entity = nat

  /** A grid coordinate `(x, y)`; `y` grows downwards (top-left origin). */
  type Coord = (int, int)

  datatype Vec3 = Vec3(x: real, y: real, z: real)
  {
    function Plus(o: Vec3): Vec3 { Vec3(x + o.x, y + o.y, z + o.z) }

    function Minus(o: Vec3): Vec3 { Vec3(x - o.x, y - o.y, z - o.z) }

    function Scale(k: real): Vec3 { Vec3(x * k, y * k, z * k) }
  }

  /** A 2D velocity as reported by the physics engine. */
  datatype Vec2 = Vec2(x: real, y: real)
  {
    /** The squared length; the square root the source takes is squared again before use. */
    function LengthSquared(): real { Square(x) + Square(y) }
  }

  /** A player entity and its world translation, one row of a player query. */
  datatype PlayerPose = PlayerPose(entity: Entity, translation: Vec3)

  /** Only the translation of a transform is read by the modelled code (rotation is never used). */
  datatype Transform = Transform(translation: Vec3)
}
