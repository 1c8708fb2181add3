/**
 * The older combat code (src/structures_combat.rs): a fixed material table
 * of strength and density, projectiles sized in metres and scaled to game
 * units, and a hit system in which the damage is the kinetic energy of the
 * projectile divided by the strength of the module's material. A module is
 * despawned when its structural points fall to zero or below, and the
 * projectile of every processed hit is despawned.
 */
module LegacyCombat {
  import opened Wrappers
  import opened Ecs
  import opened RealArith
  import CombatMaterials
  import CombatHits

  type UnitScale = CombatMaterials.UnitScale

  /** The same three projectile kinds as the current code. */
  type ProjectileMaterialType = CombatMaterials.ProjectileMaterialType

  datatype MaterialProperties = MaterialProperties(strength: real, density: real)

  /** The material table; every strength and density is positive. */
  function Properties(m: ProjectileMaterialType): (p: MaterialProperties)
    ensures p.strength > 0.0 && p.density > 0.0
  {
    match m
    case Ballistic => MaterialProperties(300.0, 28.0)
    case Explosive => MaterialProperties(100.0, 2000.0)
    case Energy => MaterialProperties(500.0, 1000.0)
  }

  /** The projectile diameter in metres; every material has a positive one. */
  function Size(m: ProjectileMaterialType): (d: real)
    ensures d > 0.0
  {
    match m
    case Ballistic => 1.0
    case Energy => 0.5
    case Explosive => 0.25
  }

  /**
   * The impulse that gives `mass` a speed of `velocityMps` metres per
   * second, in game units; the material does not enter into it.
   */
  function ImpulseWithVelocity(m: ProjectileMaterialType, velocityMps: real, mass: real, unitScale: UnitScale): real
  {
    mass * (velocityMps * unitScale)
  }

  /** The impulse is linear in the speed and in the mass, and zero when either is. */
  lemma ImpulseBilinear(m: ProjectileMaterialType, v1: real, v2: real, mass1: real, mass2: real, unitScale: UnitScale)
    ensures ImpulseWithVelocity(m, v1 + v2, mass1, unitScale)
            == ImpulseWithVelocity(m, v1, mass1, unitScale) + ImpulseWithVelocity(m, v2, mass1, unitScale)
    ensures ImpulseWithVelocity(m, v1, mass1 + mass2, unitScale)
            == ImpulseWithVelocity(m, v1, mass1, unitScale) + ImpulseWithVelocity(m, v1, mass2, unitScale)
    ensures ImpulseWithVelocity(m, 0.0, mass1, unitScale) == 0.0 && ImpulseWithVelocity(m, v1, 0.0, unitScale) == 0.0
  {
    assert mass1 * ((v1 + v2) * unitScale) == mass1 * (v1 * unitScale) + mass1 * (v2 * unitScale);
    assert (mass1 + mass2) * (v1 * unitScale) == mass1 * (v1 * unitScale) + mass2 * (v1 * unitScale);
  }

  datatype ProjectilePhysics = ProjectilePhysics(structuralPoints: real, mass: real, size: real, materialType: ProjectileMaterialType)

  /**
   * A projectile of material `m`: its mass is its density times the area of
   * a disc of its diameter in metres, its structural points are its
   * strength times that mass, and its size is the diameter in game units.
   * The scaling factor is accepted and not used.
   */
  function Create(m: ProjectileMaterialType, scalingFactor: real, unitScale: UnitScale): (pp: ProjectilePhysics)
    ensures pp.materialType == m
    ensures pp.mass == Mul(Properties(m).density, CombatMaterials.DiscArea(Size(m))) && pp.mass > 0.0
    ensures pp.structuralPoints == Mul(Properties(m).strength, pp.mass) && pp.structuralPoints > 0.0
    ensures pp.size == Mul(Size(m), unitScale) && pp.size > 0.0
  {
    var diameter := Size(m);
    var area := CombatMaterials.DiscArea(diameter);
    var props := Properties(m);
    var mass := Mul(props.density, area);
    CombatMaterials.DiscAreaPositive(diameter);
    MulPositive(props.density, area);
    MulRegroup(props.strength, area, props.density);
    MulPositive(props.strength, mass);
    MulPositive(diameter, unitScale);
    ProjectilePhysics(Mul(Mul(props.strength, area), props.density), mass, Mul(diameter, unitScale), m)
  }

  /** The density a projectile's debug report gives: its mass over the area of its diameter in metres. */
  function ReportedDensity(pp: ProjectilePhysics, unitScale: UnitScale): real
    requires pp.size != 0.0
  {
    var area := Mul(CombatMaterials.Pi, Square((pp.size / 2.0) / unitScale));
    SquarePositive((pp.size / 2.0) / unitScale);
    MulPositive(CombatMaterials.Pi, Square((pp.size / 2.0) / unitScale));
    pp.mass / area
  }

  /** Round trip: the density reported for a created projectile is its material's density. */
  lemma ReportedDensityOfCreate(m: ProjectileMaterialType, scalingFactor: real, unitScale: UnitScale)
    ensures Create(m, scalingFactor, unitScale).size != 0.0
    ensures ReportedDensity(Create(m, scalingFactor, unitScale), unitScale) == Properties(m).density
  {
    var pp := Create(m, scalingFactor, unitScale);
    MultiplyThenDivide(Size(m), unitScale);
    assert (pp.size / 2.0) / unitScale == Size(m) / 2.0;
    CombatMaterials.DiscAreaPositive(Size(m));
    MultiplyThenDivide(Properties(m).density, CombatMaterials.DiscArea(Size(m)));
  }

  /** The kinetic energy, from the velocity converted to metres per second. */
  function KineticEnergy(mass: real, velocity: Vec2, unitScale: UnitScale): (ke: real)
    ensures mass >= 0.0 ==> ke >= 0.0
    ensures mass == 0.0 || velocity == Vec2(0.0, 0.0) ==> ke == 0.0
  {
    var scaled := Vec2(velocity.x / unitScale, velocity.y / unitScale);
    SquareNonNegative(scaled.x);
    SquareNonNegative(scaled.y);
    MulZero(mass, scaled.LengthSquared());
    if mass >= 0.0 then
      MulNonNegative(mass, scaled.LengthSquared());
      Mul(mass, scaled.LengthSquared()) / 2.0
    else
      Mul(mass, scaled.LengthSquared()) / 2.0
  }

  /** Both versions of the combat code compute the same kinetic energy. */
  lemma KineticEnergyAgrees(mass: real, velocity: Vec2, unitScale: UnitScale)
    ensures KineticEnergy(mass, velocity, unitScale) == CombatHits.KineticEnergy(mass, velocity, unitScale)
  {
    SquareQuotient(velocity.x, unitScale);
    SquareQuotient(velocity.y, unitScale);
    SquarePositive(unitScale);
    var scaled := Vec2(velocity.x / unitScale, velocity.y / unitScale);
    assert scaled.LengthSquared() == velocity.LengthSquared() / Square(unitScale);
  }

  /** The damage: the energy the module's strength must absorb, so that damage times strength is the energy. */
  function Damage(kineticEnergy: real, strength: real): (damage: real)
    requires strength != 0.0
    ensures Mul(damage, strength) == kineticEnergy
    ensures kineticEnergy >= 0.0 && strength > 0.0 ==> damage >= 0.0
  {
    DivideThenMultiply(kineticEnergy, strength);
    kineticEnergy / strength
  }

  datatype ProjectileBody = ProjectileBody(velocity: Vec2, physics: ProjectilePhysics)

  /** A module's material: the strength of its material type and its remaining structural points. */
  class ModuleMaterial {
    const strength: real
    var structuralPoints: real

    constructor (strength: real, structuralPoints: real)
      ensures this.strength == strength && this.structuralPoints == structuralPoints
    {
      this.strength := strength;
      this.structuralPoints := structuralPoints;
    }
  }

  /** The modules to despawn and the projectiles to despawn, each in order. */
  datatype Outcome = Outcome(despawnedModules: seq<Entity>, despawnedProjectiles: seq<Entity>)

  /** Module materials the damage formula can divide by. */
  ghost predicate DivisibleMaterials(materials: map<Entity, ModuleMaterial>) {
    forall e :: e in materials ==> materials[e].strength != 0.0
  }

  /**
   * Whether a collision is processed: it pairs a projectile with a module,
   * and both have their physics. The `materials` map stands for the rows of
   * `module_physics_query`, that is, the modules that carry both a
   * `ModuleMaterial` and a `Mass` component.
   */
  predicate Processes(collision: (Entity, Entity), projectiles: set<Entity>, modules: set<Entity>,
                      bodies: map<Entity, ProjectileBody>, materials: map<Entity, ModuleMaterial>)
  {
    match CombatHits.HitOf(collision, projectiles, modules)
    case None => false
    case Some(hit) => hit.projectileEntity in bodies && hit.moduleEntity in materials
  }

  /** The damage a processed collision does. */
  function CollisionDamage(hit: CombatHits.StructureHitEvent, bodies: map<Entity, ProjectileBody>,
                           materials: map<Entity, ModuleMaterial>, unitScale: UnitScale): real
    requires hit.projectileEntity in bodies && hit.moduleEntity in materials
    requires DivisibleMaterials(materials)
  {
    var body := bodies[hit.projectileEntity];
    Damage(KineticEnergy(body.physics.mass, body.velocity, unitScale), materials[hit.moduleEntity].strength)
  }

  /** The collisions in order, from the structural points `points` of the module materials. */
  function Resolve(collisions: seq<(Entity, Entity)>, projectiles: set<Entity>, modules: set<Entity>,
                   bodies: map<Entity, ProjectileBody>, materials: map<Entity, ModuleMaterial>,
                   points: map<Entity, real>, unitScale: UnitScale)
    : (r: (map<Entity, real>, Outcome))
    requires DivisibleMaterials(materials) && points.Keys == materials.Keys
    ensures r.0.Keys == points.Keys
  {
    if collisions == [] then (points, Outcome([], []))
    else
      var (before, outcome) := Resolve(collisions[..|collisions| - 1], projectiles, modules, bodies, materials, points, unitScale);
      var collision := collisions[|collisions| - 1];
      if !Processes(collision, projectiles, modules, bodies, materials) then (before, outcome)
      else
        var hit := CombatHits.HitOf(collision, projectiles, modules).value;
        var after := before[hit.moduleEntity] - CollisionDamage(hit, bodies, materials, unitScale);
        (before[hit.moduleEntity := after],
         Outcome(outcome.despawnedModules + (if after <= 0.0 then [hit.moduleEntity] else []),
                 outcome.despawnedProjectiles + [hit.projectileEntity]))
  }

  /** No two entities share one material component. */
  ghost predicate Injective(materials: map<Entity, ModuleMaterial>) {
    forall a, b :: a in materials && b in materials && a != b ==> materials[a] != materials[b]
  }

  /** The structural points of every module material. */
  function Points(materials: map<Entity, ModuleMaterial>): (points: map<Entity, real>)
    reads materials.Values
    ensures points.Keys == materials.Keys
  {
    map e | e in materials :: materials[e].structuralPoints
  }

  method ProjectileHitSystem(collisions: seq<(Entity, Entity)>, projectiles: set<Entity>, modules: set<Entity>,
                             bodies: map<Entity, ProjectileBody>, materials: map<Entity, ModuleMaterial>,
                             unitScale: UnitScale)
    returns (outcome: Outcome)
    requires DivisibleMaterials(materials) && Injective(materials)
    modifies materials.Values
    ensures (Points(materials), outcome)
            == Resolve(collisions, projectiles, modules, bodies, materials, old(Points(materials)), unitScale)
  {
    ghost var points0 := Points(materials);
    outcome := Outcome([], []);
    for i := 0 to |collisions|
      invariant (Points(materials), outcome) == Resolve(collisions[..i], projectiles, modules, bodies, materials, points0, unitScale)
    {
      assert collisions[..i + 1][..i] == collisions[..i];
      var (entity1, entity2) := collisions[i];
      assert collisions[..i + 1][i] == (entity1, entity2);
      ghost var step := Resolve(collisions[..i + 1], projectiles, modules, bodies, materials, points0, unitScale);
      ghost var processed := false;
      var projectileEntity := CombatHits.FindMatchingEntity(entity1, entity2, projectiles);
      if projectileEntity.Some? {
        var moduleEntity := CombatHits.FindMatchingEntity(entity1, entity2, modules);
        if moduleEntity.Some? {
          if projectileEntity.value in bodies && moduleEntity.value in materials {
            var hit := CombatHits.StructureHitEvent(projectileEntity.value, moduleEntity.value);
            assert CombatHits.HitOf((entity1, entity2), projectiles, modules) == Some(hit);
            processed := true;
            var body := bodies[projectileEntity.value];
            var material := materials[moduleEntity.value];
            var kineticEnergy := KineticEnergy(body.physics.mass, body.velocity, unitScale);
            var damage := Damage(kineticEnergy, material.strength);
            ghost var before := Points(materials);
            assert damage == CollisionDamage(hit, bodies, materials, unitScale);
            material.structuralPoints := material.structuralPoints - damage;
            assert Points(materials) == before[moduleEntity.value := before[moduleEntity.value] - damage];
            if material.structuralPoints <= 0.0 {
              outcome := outcome.(despawnedModules := outcome.despawnedModules + [moduleEntity.value]);
            }
            outcome := outcome.(despawnedProjectiles := outcome.despawnedProjectiles + [projectileEntity.value]);
            assert step.0 == Points(materials);
            assert step.1 == outcome;
          }
        }
      }
      if !processed {
        assert step == (Points(materials), outcome);
      }
    }
    assert collisions[..|collisions|] == collisions;
  }

  /** Module materials with a positive strength. */
  ghost predicate StrongMaterials(materials: map<Entity, ModuleMaterial>) {
    forall e :: e in materials ==> materials[e].strength > 0.0
  }

  /** Projectiles whose mass is not negative, as every created projectile's is. */
  ghost predicate MassiveProjectiles(bodies: map<Entity, ProjectileBody>) {
    forall p :: p in bodies ==> bodies[p].physics.mass >= 0.0
  }

  lemma CollisionDamageNonNegative(hit: CombatHits.StructureHitEvent, bodies: map<Entity, ProjectileBody>,
                                   materials: map<Entity, ModuleMaterial>, unitScale: UnitScale)
    requires hit.projectileEntity in bodies && hit.moduleEntity in materials
    requires DivisibleMaterials(materials) && StrongMaterials(materials) && MassiveProjectiles(bodies)
    ensures CollisionDamage(hit, bodies, materials, unitScale) >= 0.0
  {
    assert bodies[hit.projectileEntity].physics.mass >= 0.0;
    assert materials[hit.moduleEntity].strength > 0.0;
  }

  /** With positive strengths and non-negative masses, structural points never increase. */
  lemma {:induction false} PointsNeverIncrease(collisions: seq<(Entity, Entity)>, projectiles: set<Entity>, modules: set<Entity>,
                                               bodies: map<Entity, ProjectileBody>, materials: map<Entity, ModuleMaterial>,
                                               points: map<Entity, real>, unitScale: UnitScale)
    requires DivisibleMaterials(materials) && StrongMaterials(materials) && MassiveProjectiles(bodies)
    requires points.Keys == materials.Keys
    ensures CombatHits.NoneRise(points, Resolve(collisions, projectiles, modules, bodies, materials, points, unitScale).0)
  {
    if collisions != [] {
      var prefix := collisions[..|collisions| - 1];
      PointsNeverIncrease(prefix, projectiles, modules, bodies, materials, points, unitScale);
      var collision := collisions[|collisions| - 1];
      if Processes(collision, projectiles, modules, bodies, materials) {
        CollisionDamageNonNegative(CombatHits.HitOf(collision, projectiles, modules).value, bodies, materials, unitScale);
      }
    }
  }

  /** The hits of the processed collisions, in order. */
  function ProcessedHits(collisions: seq<(Entity, Entity)>, projectiles: set<Entity>, modules: set<Entity>,
                         bodies: map<Entity, ProjectileBody>, materials: map<Entity, ModuleMaterial>)
    : seq<CombatHits.StructureHitEvent>
  {
    if collisions == [] then []
    else
      var earlier := ProcessedHits(collisions[..|collisions| - 1], projectiles, modules, bodies, materials);
      var collision := collisions[|collisions| - 1];
      if Processes(collision, projectiles, modules, bodies, materials)
      then earlier + [CombatHits.HitOf(collision, projectiles, modules).value]
      else earlier
  }

  /**
   * The projectiles despawned are those of the processed hits, in order;
   * every despawned module ends at or below zero points; and the module of
   * every processed hit that ends there is despawned.
   */
  ghost predicate DespawnsExactly(hits: seq<CombatHits.StructureHitEvent>, after: map<Entity, real>, outcome: Outcome) {
    && |outcome.despawnedProjectiles| == |hits|
    && (forall i :: 0 <= i < |hits| ==> outcome.despawnedProjectiles[i] == hits[i].projectileEntity)
    && (forall i :: 0 <= i < |hits| ==> hits[i].moduleEntity in after)
    && (forall j :: 0 <= j < |outcome.despawnedModules| ==>
          outcome.despawnedModules[j] in after && after[outcome.despawnedModules[j]] <= 0.0)
    && (forall i :: 0 <= i < |hits| && after[hits[i].moduleEntity] <= 0.0 ==> hits[i].moduleEntity in outcome.despawnedModules)
  }

  /**
   * Every processed hit despawns its projectile, and a module is despawned
   * exactly when its points after the hits are at or below zero.
   */
  lemma {:induction false} DespawnRules(collisions: seq<(Entity, Entity)>, projectiles: set<Entity>, modules: set<Entity>,
                                        bodies: map<Entity, ProjectileBody>, materials: map<Entity, ModuleMaterial>,
                                        points: map<Entity, real>, unitScale: UnitScale)
    requires DivisibleMaterials(materials) && StrongMaterials(materials) && MassiveProjectiles(bodies)
    requires points.Keys == materials.Keys
    ensures DespawnsExactly(ProcessedHits(collisions, projectiles, modules, bodies, materials),
                            Resolve(collisions, projectiles, modules, bodies, materials, points, unitScale).0,
                            Resolve(collisions, projectiles, modules, bodies, materials, points, unitScale).1)
  {
    if collisions != [] {
      var prefix := collisions[..|collisions| - 1];
      DespawnRules(prefix, projectiles, modules, bodies, materials, points, unitScale);
      var collision := collisions[|collisions| - 1];
      if Processes(collision, projectiles, modules, bodies, materials) {
        var hit := CombatHits.HitOf(collision, projectiles, modules).value;
        var (before, outcome) := Resolve(prefix, projectiles, modules, bodies, materials, points, unitScale);
        var r := Resolve(collisions, projectiles, modules, bodies, materials, points, unitScale);
        var hits := ProcessedHits(collisions, projectiles, modules, bodies, materials);
        var earlier := ProcessedHits(prefix, projectiles, modules, bodies, materials);
        assert hits == earlier + [hit];
        CollisionDamageNonNegative(hit, bodies, materials, unitScale);
        assert forall e :: e in before ==> r.0[e] <= before[e];
        assert r.1.despawnedModules[..|outcome.despawnedModules|] == outcome.despawnedModules;
        forall i | 0 <= i < |hits| && r.0[hits[i].moduleEntity] <= 0.0
          ensures hits[i].moduleEntity in r.1.despawnedModules
        {
          if hits[i].moduleEntity == hit.moduleEntity {
            assert r.0[hit.moduleEntity] <= 0.0;
          } else {
            assert hits[i] == earlier[i];
          }
        }
      }
    }
  }

  /** The total damage the processed collisions among `collisions` do to module `e`. */
  function DamageTo(e: Entity, collisions: seq<(Entity, Entity)>, projectiles: set<Entity>, modules: set<Entity>,
                    bodies: map<Entity, ProjectileBody>, materials: map<Entity, ModuleMaterial>, unitScale: UnitScale): real
    requires DivisibleMaterials(materials)
  {
    if collisions == [] then 0.0
    else
      var collision := collisions[|collisions| - 1];
      DamageTo(e, collisions[..|collisions| - 1], projectiles, modules, bodies, materials, unitScale)
      + (if Processes(collision, projectiles, modules, bodies, materials)
            && CombatHits.HitOf(collision, projectiles, modules).value.moduleEntity == e
         then CollisionDamage(CombatHits.HitOf(collision, projectiles, modules).value, bodies, materials, unitScale)
         else 0.0)
  }

  /**
   * The module despawns the collisions call for, collision by collision: a
   * processed collision despawns its module exactly when the module's
   * starting points less all damage done to it up to and including that
   * collision are at or below zero; any other collision despawns no module.
   */
  function ModuleDespawnsOf(collisions: seq<(Entity, Entity)>, projectiles: set<Entity>, modules: set<Entity>,
                            bodies: map<Entity, ProjectileBody>, materials: map<Entity, ModuleMaterial>,
                            points: map<Entity, real>, unitScale: UnitScale): seq<Entity>
    requires DivisibleMaterials(materials) && points.Keys == materials.Keys
  {
    if collisions == [] then []
    else
      var collision := collisions[|collisions| - 1];
      var earlier := ModuleDespawnsOf(collisions[..|collisions| - 1], projectiles, modules, bodies, materials, points, unitScale);
      if Processes(collision, projectiles, modules, bodies, materials) then
        var m := CombatHits.HitOf(collision, projectiles, modules).value.moduleEntity;
        earlier + (if points[m] - DamageTo(m, collisions, projectiles, modules, bodies, materials, unitScale) <= 0.0 then [m] else [])
      else earlier
  }

  /** After the collisions, every module has its starting points less the total damage done to it. */
  lemma {:induction false} PointsAfterCollisions(collisions: seq<(Entity, Entity)>, projectiles: set<Entity>, modules: set<Entity>,
                                                 bodies: map<Entity, ProjectileBody>, materials: map<Entity, ModuleMaterial>,
                                                 points: map<Entity, real>, unitScale: UnitScale)
    requires DivisibleMaterials(materials) && points.Keys == materials.Keys
    ensures forall e :: e in points ==>
              Resolve(collisions, projectiles, modules, bodies, materials, points, unitScale).0[e]
              == points[e] - DamageTo(e, collisions, projectiles, modules, bodies, materials, unitScale)
  {
    if collisions != [] {
      PointsAfterCollisions(collisions[..|collisions| - 1], projectiles, modules, bodies, materials, points, unitScale);
    }
  }

  /**
   * The modules despawned are exactly those the collisions call for, in
   * order: one despawn per collision that leaves its module at or below
   * zero points, and none otherwise.
   */
  lemma {:induction false} DespawnPerHit(collisions: seq<(Entity, Entity)>, projectiles: set<Entity>, modules: set<Entity>,
                                         bodies: map<Entity, ProjectileBody>, materials: map<Entity, ModuleMaterial>,
                                         points: map<Entity, real>, unitScale: UnitScale)
    requires DivisibleMaterials(materials) && points.Keys == materials.Keys
    ensures Resolve(collisions, projectiles, modules, bodies, materials, points, unitScale).1.despawnedModules
            == ModuleDespawnsOf(collisions, projectiles, modules, bodies, materials, points, unitScale)
  {
    if collisions != [] {
      var prefix := collisions[..|collisions| - 1];
      DespawnPerHit(prefix, projectiles, modules, bodies, materials, points, unitScale);
      PointsAfterCollisions(prefix, projectiles, modules, bodies, materials, points, unitScale);
    }
  }
}
