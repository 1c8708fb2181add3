/**
 * Hit detection and damage of the current combat code
 * (src/gameplay/structures_combat.rs): collision pairs become hit events
 * when one side is a projectile and one a module, and every hit whose
 * module, projectile and module material exist costs the module structural
 * points, announces the damage, announces the destruction when the points
 * reach zero, and despawns the projectile.
 */
module CombatHits {
  import opened Wrappers
  import opened Ecs
  import opened RealArith
  import opened CombatMaterials
  import Modules

  /**
   * The first of the two colliding entities that carries the queried
   * component, else the second, else none.
   */
  function FindMatchingEntity(entity1: Entity, entity2: Entity, matches: set<Entity>): (r: Option<Entity>)
    ensures entity1 in matches ==> r == Some(entity1)
    ensures entity1 !in matches && entity2 in matches ==> r == Some(entity2)
    ensures r.None? <==> entity1 !in matches && entity2 !in matches
    ensures r.Some? ==> r.value in matches && (r.value == entity1 || r.value == entity2)
  {
    if entity1 in matches then Some(entity1)
    else if entity2 in matches then Some(entity2)
    else None
  }

  datatype StructureHitEvent = StructureHitEvent(projectileEntity: Entity, moduleEntity: Entity)

  /** The hit a collision pair announces, if one side is a projectile and one side a module. */
  function HitOf(collision: (Entity, Entity), projectiles: set<Entity>, modules: set<Entity>): (r: Option<StructureHitEvent>)
    ensures r.Some? <==> (collision.0 in projectiles || collision.1 in projectiles)
                         && (collision.0 in modules || collision.1 in modules)
    ensures r.Some? ==> r.value.projectileEntity in projectiles && r.value.moduleEntity in modules
  {
    match FindMatchingEntity(collision.0, collision.1, projectiles)
    case None => None
    case Some(projectileEntity) =>
      match FindMatchingEntity(collision.0, collision.1, modules)
      case None => None
      case Some(moduleEntity) => Some(StructureHitEvent(projectileEntity, moduleEntity))
  }

  /** The hits of a sequence of collisions, in order. */
  function HitsOf(collisions: seq<(Entity, Entity)>, projectiles: set<Entity>, modules: set<Entity>): seq<StructureHitEvent>
  {
    if collisions == [] then []
    else
      var earlier := HitsOf(collisions[..|collisions| - 1], projectiles, modules);
      match HitOf(collisions[|collisions| - 1], projectiles, modules)
      case None => earlier
      case Some(hit) => earlier + [hit]
  }

  method DetectStructureHits(collisions: seq<(Entity, Entity)>, projectiles: set<Entity>, modules: set<Entity>)
    returns (events: seq<StructureHitEvent>)
    ensures events == HitsOf(collisions, projectiles, modules)
  {
    events := [];
    for i := 0 to |collisions|
      invariant events == HitsOf(collisions[..i], projectiles, modules)
    {
      assert collisions[..i + 1][..i] == collisions[..i];
      var (entity1, entity2) := collisions[i];
      var projectileEntity := FindMatchingEntity(entity1, entity2, projectiles);
      if projectileEntity.Some? {
        var moduleEntity := FindMatchingEntity(entity1, entity2, modules);
        if moduleEntity.Some? {
          events := events + [StructureHitEvent(projectileEntity.value, moduleEntity.value)];
        }
      }
    }
    assert collisions[..|collisions|] == collisions;
  }

  /**
   * Every hit comes from one collision pair, names a projectile and a
   * module of that pair, and every pair with a projectile side and a module
   * side announces a hit.
   */
  lemma {:induction false} HitsOfExact(collisions: seq<(Entity, Entity)>, projectiles: set<Entity>, modules: set<Entity>)
    ensures forall i :: 0 <= i < |HitsOf(collisions, projectiles, modules)| ==>
              HitsOf(collisions, projectiles, modules)[i].projectileEntity in projectiles
              && HitsOf(collisions, projectiles, modules)[i].moduleEntity in modules
              && exists k :: 0 <= k < |collisions| && HitOf(collisions[k], projectiles, modules) == Some(HitsOf(collisions, projectiles, modules)[i])
    ensures forall k :: 0 <= k < |collisions| && HitOf(collisions[k], projectiles, modules).Some? ==>
              exists i :: 0 <= i < |HitsOf(collisions, projectiles, modules)| && Some(HitsOf(collisions, projectiles, modules)[i]) == HitOf(collisions[k], projectiles, modules)
    ensures |HitsOf(collisions, projectiles, modules)| <= |collisions|
  {
    if collisions != [] {
      var n := |collisions| - 1;
      var prefix := collisions[..n];
      HitsOfExact(prefix, projectiles, modules);
      var earlier := HitsOf(prefix, projectiles, modules);
      var all := HitsOf(collisions, projectiles, modules);
      assert forall k :: 0 <= k < n ==> prefix[k] == collisions[k];
      assert forall i :: 0 <= i < |earlier| ==> all[i] == earlier[i];
      forall k | 0 <= k < |collisions| && HitOf(collisions[k], projectiles, modules).Some?
        ensures exists i :: 0 <= i < |all| && Some(all[i]) == HitOf(collisions[k], projectiles, modules)
      {
        if k < n {
          assert HitOf(prefix[k], projectiles, modules).Some?;
          var i :| 0 <= i < |earlier| && Some(earlier[i]) == HitOf(prefix[k], projectiles, modules);
          assert all[i] == earlier[i];
        } else {
          assert Some(all[|all| - 1]) == HitOf(collisions[k], projectiles, modules);
        }
      }
      forall i | 0 <= i < |all|
        ensures exists k :: 0 <= k < |collisions| && HitOf(collisions[k], projectiles, modules) == Some(all[i])
      {
        if i < |earlier| {
          var k :| 0 <= k < |prefix| && HitOf(prefix[k], projectiles, modules) == Some(earlier[i]);
          assert collisions[k] == prefix[k];
        } else {
          assert HitOf(collisions[n], projectiles, modules) == Some(all[i]);
        }
      }
    }
  }

  datatype ModuleTookDamageEvent = ModuleTookDamageEvent(moduleEntity: Entity, damage: real)

  datatype ModuleDestroyedEvent = ModuleDestroyedEvent(destroyedEntity: Entity, innerGridPos: Coord)

  /** The physics-query row of a projectile: its velocity and its physics component. */
  datatype ProjectileBody = ProjectileBody(velocity: Vec2, physics: ProjectilePhysics)

  /** The `ModuleMaterial` component of a module: its material's properties and its remaining points. */
  class ModuleMaterial {
    const properties: MaterialProperties
    var structuralPoints: real

    constructor (properties: MaterialProperties, structuralPoints: real)
      ensures this.properties == properties && this.structuralPoints == structuralPoints
    {
      this.properties := properties;
      this.structuralPoints := structuralPoints;
    }
  }

  /** The kinetic energy, in joules, of a mass moving at the velocity (game units per second). */
  function KineticEnergy(mass: real, velocity: Vec2, unitScale: UnitScale): (ke: real)
    ensures mass >= 0.0 ==> ke >= 0.0
    ensures mass == 0.0 || velocity == Vec2(0.0, 0.0) ==> ke == 0.0
  {
    SquarePositive(unitScale);
    var speedSquared := velocity.LengthSquared() / Square(unitScale);
    SquareNonNegative(velocity.x);
    SquareNonNegative(velocity.y);
    QuotientNonNegative(velocity.LengthSquared(), Square(unitScale));
    MulZero(mass, speedSquared);
    if mass >= 0.0 then
      MulNonNegative(mass, speedSquared);
      0.5 * Mul(mass, speedSquared)
    else
      0.5 * Mul(mass, speedSquared)
  }

  /**
   * The damage a projectile of the given kinetic energy and material does
   * to a module material. It is zero for a projectile without yield
   * strength or density, and never negative for non-negative inputs.
   */
  function Damage(kineticEnergy: real, projectile: MaterialProperties, target: MaterialProperties): (damage: real)
    requires target.density != 0.0 && target.yieldStrength != 0.0
    ensures projectile.yieldStrength == 0.0 || projectile.density == 0.0 || kineticEnergy == 0.0 ==> damage == 0.0
    ensures (kineticEnergy >= 0.0 && projectile.density >= 0.0 && projectile.yieldStrength >= 0.0
             && target.density > 0.0 && target.yieldStrength > 0.0) ==> damage >= 0.0
  {
    var densityFactor := projectile.density / target.density;
    var hardnessFactor := projectile.yieldStrength / target.yieldStrength;
    var raw := Mul(Mul(kineticEnergy, densityFactor), hardnessFactor);
    MulZero(kineticEnergy, densityFactor);
    MulZero(Mul(kineticEnergy, densityFactor), hardnessFactor);
    if kineticEnergy >= 0.0 && projectile.density >= 0.0 && projectile.yieldStrength >= 0.0
       && target.density > 0.0 && target.yieldStrength > 0.0 then
      QuotientNonNegative(projectile.density, target.density);
      QuotientNonNegative(projectile.yieldStrength, target.yieldStrength);
      MulNonNegative(kineticEnergy, densityFactor);
      MulNonNegative(Mul(kineticEnergy, densityFactor), hardnessFactor);
      QuotientNonNegative(raw, target.yieldStrength);
      raw / target.yieldStrength
    else
      raw / target.yieldStrength
  }

  /** The events and despawns of a sequence of hits. */
  datatype HitOutcome = HitOutcome(damaged: seq<ModuleTookDamageEvent>, destroyed: seq<ModuleDestroyedEvent>, despawned: seq<Entity>)

  /** Module materials the damage formula can divide by. */
  ghost predicate DivisibleMaterials(materials: map<Entity, ModuleMaterial>) {
    forall e :: e in materials ==> materials[e].properties.density != 0.0 && materials[e].properties.yieldStrength != 0.0
  }

  /** Whether a hit is resolved: its module, projectile and module material all exist. */
  predicate Resolves(hit: StructureHitEvent, modules: map<Entity, Modules.Module>, projectiles: map<Entity, ProjectileBody>,
                     materials: map<Entity, ModuleMaterial>)
  {
    hit.moduleEntity in modules && hit.projectileEntity in projectiles && hit.moduleEntity in materials
  }

  /** The damage a resolved hit does. */
  function HitDamage(hit: StructureHitEvent, projectiles: map<Entity, ProjectileBody>, materials: map<Entity, ModuleMaterial>,
                     unitScale: UnitScale): real
    requires hit.projectileEntity in projectiles && hit.moduleEntity in materials
    requires DivisibleMaterials(materials)
  {
    var body := projectiles[hit.projectileEntity];
    Damage(KineticEnergy(body.physics.mass, body.velocity, unitScale),
           Properties(body.physics.materialType, unitScale),
           materials[hit.moduleEntity].properties)
  }

  /**
   * The hits in order, from the structural points `points` of the module
   * materials: the points after every hit and what the hits announce and
   * despawn.
   */
  function ResolveHits(hits: seq<StructureHitEvent>, modules: map<Entity, Modules.Module>, projectiles: map<Entity, ProjectileBody>,
                       materials: map<Entity, ModuleMaterial>, points: map<Entity, real>, unitScale: UnitScale)
    : (r: (map<Entity, real>, HitOutcome))
    requires DivisibleMaterials(materials) && points.Keys == materials.Keys
    ensures r.0.Keys == points.Keys
  {
    if hits == [] then (points, HitOutcome([], [], []))
    else
      var (before, outcome) := ResolveHits(hits[..|hits| - 1], modules, projectiles, materials, points, unitScale);
      var hit := hits[|hits| - 1];
      if !Resolves(hit, modules, projectiles, materials) then (before, outcome)
      else
        var damage := HitDamage(hit, projectiles, materials, unitScale);
        var after := before[hit.moduleEntity] - damage;
        var destroyed := if after <= 0.0 then [ModuleDestroyedEvent(hit.moduleEntity, modules[hit.moduleEntity].innerGridPos)] else [];
        (before[hit.moduleEntity := after],
         HitOutcome(outcome.damaged + [ModuleTookDamageEvent(hit.moduleEntity, damage)],
                    outcome.destroyed + destroyed,
                    outcome.despawned + [hit.projectileEntity]))
  }

  /** No two entities share one material component. */
  ghost predicate Injective(materials: map<Entity, ModuleMaterial>) {
    forall a, b :: a in materials && b in materials && a != b ==> materials[a] != materials[b]
  }

  /** The structural points of every module material. */
  function Points(materials: map<Entity, ModuleMaterial>): (points: map<Entity, real>)
    reads materials.Values
    ensures points.Keys == materials.Keys
  {
    map e | e in materials :: materials[e].structuralPoints
  }

  method ProjectileHitSystem(hits: seq<StructureHitEvent>, modules: map<Entity, Modules.Module>,
                             projectiles: map<Entity, ProjectileBody>, materials: map<Entity, ModuleMaterial>,
                             unitScale: UnitScale)
    returns (outcome: HitOutcome)
    requires DivisibleMaterials(materials) && Injective(materials)
    modifies materials.Values
    ensures (Points(materials), outcome) == ResolveHits(hits, modules, projectiles, materials, old(Points(materials)), unitScale)
  {
    ghost var points0 := Points(materials);
    outcome := HitOutcome([], [], []);
    for i := 0 to |hits|
      invariant (Points(materials), outcome) == ResolveHits(hits[..i], modules, projectiles, materials, points0, unitScale)
    {
      assert hits[..i + 1][..i] == hits[..i];
      var hit := hits[i];
      assert hits[..i + 1][i] == hit;
      ghost var step := ResolveHits(hits[..i + 1], modules, projectiles, materials, points0, unitScale);
      if !Resolves(hit, modules, projectiles, materials) {
        assert step == (Points(materials), outcome);
      }
      if hit.moduleEntity in modules && hit.projectileEntity in projectiles && hit.moduleEntity in materials {
        var hitModule := modules[hit.moduleEntity];
        var body := projectiles[hit.projectileEntity];
        var material := materials[hit.moduleEntity];
        var kineticEnergy := KineticEnergy(body.physics.mass, body.velocity, unitScale);
        var damage := Damage(kineticEnergy, Properties(body.physics.materialType, unitScale), material.properties);
        ghost var before := Points(materials);
        assert damage == HitDamage(hit, projectiles, materials, unitScale);
        material.structuralPoints := material.structuralPoints - damage;
        assert Points(materials) == before[hit.moduleEntity := before[hit.moduleEntity] - damage];
        outcome := outcome.(damaged := outcome.damaged + [ModuleTookDamageEvent(hit.moduleEntity, damage)]);
        if material.structuralPoints <= 0.0 {
          outcome := outcome.(destroyed := outcome.destroyed + [ModuleDestroyedEvent(hit.moduleEntity, hitModule.innerGridPos)]);
        }
        outcome := outcome.(despawned := outcome.despawned + [hit.projectileEntity]);
        assert step.0 == Points(materials);
        assert step.1.damaged == outcome.damaged;
        assert step.1.destroyed == outcome.destroyed;
        assert step.1.despawned == outcome.despawned;
      }
    }
    assert hits[..|hits|] == hits;
  }

  /** Module materials with positive density and yield strength. */
  ghost predicate PositiveMaterials(materials: map<Entity, ModuleMaterial>) {
    forall e :: e in materials ==> materials[e].properties.density > 0.0 && materials[e].properties.yieldStrength > 0.0
  }

  /** Projectiles whose mass is not negative, as every created projectile's is. */
  ghost predicate MassiveProjectiles(projectiles: map<Entity, ProjectileBody>) {
    forall p :: p in projectiles ==> projectiles[p].physics.mass >= 0.0
  }

  /** No module's points are above what they were. */
  ghost predicate NoneRise(points: map<Entity, real>, after: map<Entity, real>) {
    forall e :: e in points && e in after ==> after[e] <= points[e]
  }

  /** Every announced damage is non-negative. */
  ghost predicate DamagesNonNegative(outcome: HitOutcome) {
    forall i :: 0 <= i < |outcome.damaged| ==> outcome.damaged[i].damage >= 0.0
  }

  /**
   * Every damaged module has points; every module announced destroyed ends
   * at or below zero points; and every damaged module that ends there was
   * announced destroyed.
   */
  ghost predicate DestroyedExactlyDepleted(after: map<Entity, real>, outcome: HitOutcome) {
    && (forall i :: 0 <= i < |outcome.damaged| ==> outcome.damaged[i].moduleEntity in after)
    && (forall j :: 0 <= j < |outcome.destroyed| ==>
          outcome.destroyed[j].destroyedEntity in after && after[outcome.destroyed[j].destroyedEntity] <= 0.0)
    && (forall i :: 0 <= i < |outcome.damaged| && after[outcome.damaged[i].moduleEntity] <= 0.0 ==>
          exists j :: 0 <= j < |outcome.destroyed| && outcome.destroyed[j].destroyedEntity == outcome.damaged[i].moduleEntity)
  }

  /** The hits that are resolved, in order. */
  function ResolvedHits(hits: seq<StructureHitEvent>, modules: map<Entity, Modules.Module>, projectiles: map<Entity, ProjectileBody>,
                        materials: map<Entity, ModuleMaterial>): seq<StructureHitEvent>
  {
    if hits == [] then []
    else
      var earlier := ResolvedHits(hits[..|hits| - 1], modules, projectiles, materials);
      if Resolves(hits[|hits| - 1], modules, projectiles, materials) then earlier + [hits[|hits| - 1]] else earlier
  }

  /**
   * Every resolved hit, and no other, announces damage to its module and
   * despawns its projectile, whatever the outcome; at most one destruction
   * is announced per resolved hit.
   */
  lemma {:induction false} EveryResolvedHitAnswered(hits: seq<StructureHitEvent>, modules: map<Entity, Modules.Module>,
                                                    projectiles: map<Entity, ProjectileBody>, materials: map<Entity, ModuleMaterial>,
                                                    points: map<Entity, real>, unitScale: UnitScale)
    requires DivisibleMaterials(materials) && points.Keys == materials.Keys
    ensures var outcome := ResolveHits(hits, modules, projectiles, materials, points, unitScale).1;
            var resolved := ResolvedHits(hits, modules, projectiles, materials);
            && |outcome.damaged| == |resolved| == |outcome.despawned|
            && |outcome.destroyed| <= |resolved|
            && (forall i :: 0 <= i < |resolved| ==>
                  outcome.damaged[i].moduleEntity == resolved[i].moduleEntity
                  && outcome.despawned[i] == resolved[i].projectileEntity)
  {
    if hits != [] {
      EveryResolvedHitAnswered(hits[..|hits| - 1], modules, projectiles, materials, points, unitScale);
    }
  }

  /**
   * With positive module materials and projectiles of non-negative mass,
   * every damage is non-negative, so structural points never increase.
   */
  lemma {:induction false} PointsNeverIncrease(hits: seq<StructureHitEvent>, modules: map<Entity, Modules.Module>,
                                               projectiles: map<Entity, ProjectileBody>, materials: map<Entity, ModuleMaterial>,
                                               points: map<Entity, real>, unitScale: UnitScale)
    requires DivisibleMaterials(materials) && PositiveMaterials(materials) && MassiveProjectiles(projectiles)
    requires points.Keys == materials.Keys
    ensures NoneRise(points, ResolveHits(hits, modules, projectiles, materials, points, unitScale).0)
    ensures DamagesNonNegative(ResolveHits(hits, modules, projectiles, materials, points, unitScale).1)
  {
    if hits != [] {
      var prefix := hits[..|hits| - 1];
      PointsNeverIncrease(prefix, modules, projectiles, materials, points, unitScale);
      var hit := hits[|hits| - 1];
      if Resolves(hit, modules, projectiles, materials) {
        HitDamageNonNegative(hit, projectiles, materials, unitScale);
        var (before, outcome) := ResolveHits(prefix, modules, projectiles, materials, points, unitScale);
        var r := ResolveHits(hits, modules, projectiles, materials, points, unitScale);
        assert r.1.damaged == outcome.damaged + [ModuleTookDamageEvent(hit.moduleEntity, HitDamage(hit, projectiles, materials, unitScale))];
        forall i | 0 <= i < |r.1.damaged| ensures r.1.damaged[i].damage >= 0.0 {
          if i < |outcome.damaged| {
            assert r.1.damaged[i] == outcome.damaged[i];
          }
        }
      }
    }
  }

  lemma HitDamageNonNegative(hit: StructureHitEvent, projectiles: map<Entity, ProjectileBody>, materials: map<Entity, ModuleMaterial>,
                             unitScale: UnitScale)
    requires hit.projectileEntity in projectiles && hit.moduleEntity in materials
    requires DivisibleMaterials(materials) && PositiveMaterials(materials) && MassiveProjectiles(projectiles)
    ensures HitDamage(hit, projectiles, materials, unitScale) >= 0.0
  {
    var body := projectiles[hit.projectileEntity];
    assert body.physics.mass >= 0.0;
    assert materials[hit.moduleEntity].properties.density > 0.0;
  }

  /**
   * A destruction is announced for a module exactly when its points end at
   * or below zero: every announced module ends there, and every damaged
   * module that ends there was announced.
   */
  lemma {:induction false} DestroyedIffDepleted(hits: seq<StructureHitEvent>, modules: map<Entity, Modules.Module>,
                                                projectiles: map<Entity, ProjectileBody>, materials: map<Entity, ModuleMaterial>,
                                                points: map<Entity, real>, unitScale: UnitScale)
    requires DivisibleMaterials(materials) && PositiveMaterials(materials) && MassiveProjectiles(projectiles)
    requires points.Keys == materials.Keys
    ensures DestroyedExactlyDepleted(ResolveHits(hits, modules, projectiles, materials, points, unitScale).0,
                                     ResolveHits(hits, modules, projectiles, materials, points, unitScale).1)
  {
    if hits != [] {
      var prefix := hits[..|hits| - 1];
      DestroyedIffDepleted(prefix, modules, projectiles, materials, points, unitScale);
      PointsNeverIncrease(prefix, modules, projectiles, materials, points, unitScale);
      var hit := hits[|hits| - 1];
      var (before, outcome) := ResolveHits(prefix, modules, projectiles, materials, points, unitScale);
      var r := ResolveHits(hits, modules, projectiles, materials, points, unitScale);
      assert forall e :: e in materials ==> e in before;
      if Resolves(hit, modules, projectiles, materials) {
        var m := hit.moduleEntity;
        HitDamageNonNegative(hit, projectiles, materials, unitScale);
        assert forall e :: e in before ==> r.0[e] <= before[e];
        assert forall j :: 0 <= j < |outcome.destroyed| ==> r.1.destroyed[j] == outcome.destroyed[j];
        assert r.1.damaged == outcome.damaged + [ModuleTookDamageEvent(m, HitDamage(hit, projectiles, materials, unitScale))];
        assert r.1.destroyed[..|outcome.destroyed|] == outcome.destroyed;
        forall i | 0 <= i < |r.1.damaged| && r.0[r.1.damaged[i].moduleEntity] <= 0.0
          ensures exists j :: 0 <= j < |r.1.destroyed| && r.1.destroyed[j].destroyedEntity == r.1.damaged[i].moduleEntity
        {
          var e := r.1.damaged[i].moduleEntity;
          if e == m {
            assert r.0[m] <= 0.0;
            assert r.1.destroyed[|r.1.destroyed| - 1].destroyedEntity == m;
          } else {
            assert i < |outcome.damaged| && outcome.damaged[i] == r.1.damaged[i];
            assert before[e] == r.0[e];
            var j :| 0 <= j < |outcome.destroyed| && outcome.destroyed[j].destroyedEntity == e;
            assert r.1.destroyed[j] == outcome.destroyed[j];
          }
        }
      }
    }
  }

  /** The total damage the resolved hits among `hits` do to module `e`. */
  function DamageTo(e: Entity, hits: seq<StructureHitEvent>, modules: map<Entity, Modules.Module>,
                    projectiles: map<Entity, ProjectileBody>, materials: map<Entity, ModuleMaterial>, unitScale: UnitScale): real
    requires DivisibleMaterials(materials)
  {
    if hits == [] then 0.0
    else
      var hit := hits[|hits| - 1];
      DamageTo(e, hits[..|hits| - 1], modules, projectiles, materials, unitScale)
      + (if Resolves(hit, modules, projectiles, materials) && hit.moduleEntity == e
         then HitDamage(hit, projectiles, materials, unitScale) else 0.0)
  }

  /**
   * The destructions the hits call for, hit by hit: a resolved hit announces
   * its module, with the module's inner grid position, exactly when the
   * module's starting points less all damage done to it up to and including
   * that hit are at or below zero; any other hit announces nothing.
   */
  function DestructionsOf(hits: seq<StructureHitEvent>, modules: map<Entity, Modules.Module>,
                          projectiles: map<Entity, ProjectileBody>, materials: map<Entity, ModuleMaterial>,
                          points: map<Entity, real>, unitScale: UnitScale): seq<ModuleDestroyedEvent>
    requires DivisibleMaterials(materials) && points.Keys == materials.Keys
  {
    if hits == [] then []
    else
      var hit := hits[|hits| - 1];
      DestructionsOf(hits[..|hits| - 1], modules, projectiles, materials, points, unitScale)
      + (if Resolves(hit, modules, projectiles, materials)
            && points[hit.moduleEntity] - DamageTo(hit.moduleEntity, hits, modules, projectiles, materials, unitScale) <= 0.0
         then [ModuleDestroyedEvent(hit.moduleEntity, modules[hit.moduleEntity].innerGridPos)]
         else [])
  }

  /** After the hits, every module has its starting points less the total damage done to it. */
  lemma {:induction false} PointsAfterHits(hits: seq<StructureHitEvent>, modules: map<Entity, Modules.Module>,
                                           projectiles: map<Entity, ProjectileBody>, materials: map<Entity, ModuleMaterial>,
                                           points: map<Entity, real>, unitScale: UnitScale)
    requires DivisibleMaterials(materials) && points.Keys == materials.Keys
    ensures forall e :: e in points ==>
              ResolveHits(hits, modules, projectiles, materials, points, unitScale).0[e]
              == points[e] - DamageTo(e, hits, modules, projectiles, materials, unitScale)
  {
    if hits != [] {
      var prefix := hits[..|hits| - 1];
      PointsAfterHits(prefix, modules, projectiles, materials, points, unitScale);
    }
  }

  /**
   * The destroyed events sent are exactly the destructions the hits call
   * for, in order: one per hit that leaves its module at or below zero
   * points, carrying that module's inner grid position, and none otherwise.
   */
  lemma {:induction false} DestroyedPerHit(hits: seq<StructureHitEvent>, modules: map<Entity, Modules.Module>,
                                           projectiles: map<Entity, ProjectileBody>, materials: map<Entity, ModuleMaterial>,
                                           points: map<Entity, real>, unitScale: UnitScale)
    requires DivisibleMaterials(materials) && points.Keys == materials.Keys
    ensures ResolveHits(hits, modules, projectiles, materials, points, unitScale).1.destroyed
            == DestructionsOf(hits, modules, projectiles, materials, points, unitScale)
  {
    if hits != [] {
      var prefix := hits[..|hits| - 1];
      DestroyedPerHit(prefix, modules, projectiles, materials, points, unitScale);
      PointsAfterHits(prefix, modules, projectiles, materials, points, unitScale);
    }
  }

  /**
   * Explosive and energy projectiles have no yield strength, so hits by
   * them do no damage and leave every module's points as they were.
   */
  lemma {:induction false} NonBallisticHitsHarmless(hits: seq<StructureHitEvent>, modules: map<Entity, Modules.Module>,
                                                    projectiles: map<Entity, ProjectileBody>, materials: map<Entity, ModuleMaterial>,
                                                    points: map<Entity, real>, unitScale: UnitScale)
    requires DivisibleMaterials(materials) && points.Keys == materials.Keys
    requires forall p :: p in projectiles ==> projectiles[p].physics.materialType != Ballistic
    ensures var r := ResolveHits(hits, modules, projectiles, materials, points, unitScale);
            && r.0 == points
            && (forall i :: 0 <= i < |r.1.damaged| ==> r.1.damaged[i].damage == 0.0)
  {
    if hits != [] {
      NonBallisticHitsHarmless(hits[..|hits| - 1], modules, projectiles, materials, points, unitScale);
      var hit := hits[|hits| - 1];
      if Resolves(hit, modules, projectiles, materials) {
        var (before, _) := ResolveHits(hits[..|hits| - 1], modules, projectiles, materials, points, unitScale);
        assert HitDamage(hit, projectiles, materials, unitScale) == 0.0;
        assert before[hit.moduleEntity := before[hit.moduleEntity] - 0.0] == before;
      }
    }
  }
}
