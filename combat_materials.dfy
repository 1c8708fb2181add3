/**
 * The projectile material table and projectile physics of the current
 * combat code (src/gameplay/structures_combat.rs). Table values are
 * expressed per square game unit by dividing by the square of the unit
 * scale (game units per metre); sizes are multiplied by it.
 */
module CombatMaterials {
  import opened Ecs
  import opened RealArith

  /** Game units per metre; a positive constant of the game's configuration. */
  type UnitScale = r: real | r > 0.0 witness 1.0

  /** Pi at single precision: the exact value of `std::f32::consts::PI`. */
  const Pi: real := 3.1415927410125732421875

  datatype ProjectileMaterialType = Ballistic | Explosive | Energy

  datatype MaterialProperties = MaterialProperties(yieldStrength: real, density: real, thickness: real, damageThreshold: real)

  /**
   * The material table. All values are non-negative and every material has
   * a damage threshold; only ballistic projectiles have a yield strength,
   * and only energy projectiles have no density.
   */
  function Properties(m: ProjectileMaterialType, unitScale: UnitScale): (p: MaterialProperties)
    ensures p.yieldStrength >= 0.0 && p.density >= 0.0 && p.thickness >= 0.0 && p.damageThreshold > 0.0
    ensures p.yieldStrength == 0.0 <==> m != Ballistic
    ensures p.density == 0.0 <==> m == Energy
  {
    var perArea := Square(unitScale);
    SquarePositive(unitScale);
    match m
    case Ballistic => MaterialProperties(250000.0 / perArea, 7850.0 / perArea, 0.01, 30000.0 / perArea)
    case Explosive => MaterialProperties(0.0 / perArea, 1600.0 / perArea, 0.02, 50000.0 / perArea)
    case Energy => MaterialProperties(0.0 / perArea, 0.0, 0.0, 100000.0 / perArea)
  }

  /** The projectile diameter in game units; every material has a positive one. */
  function Size(m: ProjectileMaterialType, unitScale: UnitScale): (d: real)
    ensures d > 0.0
  {
    match m
    case Ballistic => 0.120 * unitScale
    case Energy => 0.05 * unitScale
    case Explosive => 0.3 * unitScale
  }

  datatype ProjectilePhysics = ProjectilePhysics(
    structuralPoints: real,
    mass: real,
    size: real,
    area: real,
    materialType: ProjectileMaterialType)

  /** The area of a disc of the given diameter. */
  function DiscArea(diameter: real): real
  {
    Mul(Pi, Square(diameter / 2.0))
  }

  /** A disc of non-zero diameter has a positive area. */
  lemma DiscAreaPositive(diameter: real)
    requires diameter != 0.0
    ensures DiscArea(diameter) > 0.0
  {
    SquarePositive(diameter / 2.0);
    MulPositive(Pi, Square(diameter / 2.0));
  }

  /**
   * A projectile of material `m`: a disc as wide as the material's size,
   * whose mass is its density times its area, and whose structural points
   * are its yield strength times its mass. Only ballistic projectiles have
   * structural points and only energy projectiles are massless.
   */
  function Create(m: ProjectileMaterialType, unitScale: UnitScale): (pp: ProjectilePhysics)
    ensures pp.materialType == m && pp.size == Size(m, unitScale)
    ensures pp.area == DiscArea(pp.size) && pp.area > 0.0
    ensures pp.mass == Mul(Properties(m, unitScale).density, pp.area)
    ensures pp.mass >= 0.0 && (pp.mass == 0.0 <==> m == Energy)
    ensures pp.structuralPoints == Mul(Properties(m, unitScale).yieldStrength, pp.mass)
    ensures pp.structuralPoints >= 0.0 && (pp.structuralPoints == 0.0 <==> m != Ballistic)
  {
    var diameter := Size(m, unitScale);
    var area := DiscArea(diameter);
    var props := Properties(m, unitScale);
    var mass := Mul(props.density, area);
    var structuralPoints := Mul(Mul(props.yieldStrength, area), props.density);
    DiscAreaPositive(diameter);
    MulNonNegative(props.density, area);
    MulZeroIff(props.density, area);
    MulRegroup(props.yieldStrength, area, props.density);
    MulNonNegative(props.yieldStrength, mass);
    MulZero(props.yieldStrength, mass);
    assert m == Ballistic ==> Mul(props.yieldStrength, mass) > 0.0 by {
      if m == Ballistic { MulPositive(props.yieldStrength, mass); }
    }
    ProjectilePhysics(structuralPoints, mass, diameter, area, m)
  }

  /** Mass per unit of area, with the area computed from the diameter. */
  function Density(pp: ProjectilePhysics): (d: real)
    requires pp.size != 0.0
    ensures Mul(d, DiscArea(pp.size)) == pp.mass
  {
    DiscAreaPositive(pp.size);
    DivideThenMultiply(pp.mass, DiscArea(pp.size));
    pp.mass / DiscArea(pp.size)
  }

  /** The impulse that gives the projectile `velocityMps` metres per second along `direction`. */
  function ImpulseForce(pp: ProjectilePhysics, velocityMps: real, direction: Vec3, unitScale: UnitScale): Vec3
  {
    direction.Scale(pp.mass * (velocityMps * unitScale))
  }

  /** Round trip: the density recovered from a created projectile is its material's density. */
  lemma DensityOfCreate(m: ProjectileMaterialType, unitScale: UnitScale)
    ensures Create(m, unitScale).size != 0.0
    ensures Density(Create(m, unitScale)) == Properties(m, unitScale).density
  {
    var pp := Create(m, unitScale);
    MulCancel(Density(pp), Properties(m, unitScale).density, pp.area);
  }

  /** The impulse is linear in the requested speed, and zero for a zero speed. */
  lemma ImpulseLinear(pp: ProjectilePhysics, v1: real, v2: real, direction: Vec3, unitScale: UnitScale)
    ensures ImpulseForce(pp, v1 + v2, direction, unitScale)
            == ImpulseForce(pp, v1, direction, unitScale).Plus(ImpulseForce(pp, v2, direction, unitScale))
    ensures ImpulseForce(pp, 0.0, direction, unitScale) == Vec3(0.0, 0.0, 0.0)
  {
    var k1 := pp.mass * (v1 * unitScale);
    var k2 := pp.mass * (v2 * unitScale);
    assert pp.mass * ((v1 + v2) * unitScale) == k1 + k2;
    assert direction.x * (k1 + k2) == direction.x * k1 + direction.x * k2;
    assert direction.y * (k1 + k2) == direction.y * k1 + direction.y * k2;
    assert direction.z * (k1 + k2) == direction.z * k1 + direction.z * k2;
  }
}
