# Structures, grids and combat of a 2D space game, in Dafny

This project models the core game logic of a Bevy (Rust) game. Players walk
around spaceship "structures" built from modules on a square grid. They take
control of a structure from its command center and shoot projectiles that
damage and destroy modules. A ship whose hull is breached depressurizes.

The model covers these parts:

- **Level grid** (`grid.dfy`, module `Grids`, from `src/grid.rs`).
  - The `Grid` resource: width, height, cell size and a map from cell
    coordinates to cells. Each cell holds an occupying entity, a colour and
    environment properties.
  - Its mutators, modelled as methods on a Dafny class.
  - World↔grid coordinate conversion.
  - Building the level grid from its text rows.
  - The `detect_grid_updates` system, which moves the player between cells
    and announces every change of cell.
- **Structure frame** (`structures.dfy`, module `Structures`, from
  `src/structures.rs`). The coordinate helpers of a `Structure`: positions
  relative to the structure's transform, shifted by half a cell to the
  grid origin, and bounds checks. Also the `PlayerResource`, and the
  structure entity, with the player that controls it.
- **Structure layout** (`layout.dfy`, module `StructureLayout`). How a
  structure is built from its character rows. `E`, `W` and `C` give an
  engine, a wall and a command center; every other character gives
  nothing. Each spawned module sits at the centre of its cell.
- **Inside/outside tracking** (`tracking.dfy`, module `StructureTracking`).
  The `detect_player_inside_structure_system` that maintains
  `PlayerResource.insideStructure` and announces enter/exit events.
- **Command-center control** (`control.dfy`, module `StructureControl`).
  A player standing on a command center's cell toggles control with the
  space bar. This updates the module's connected player, the structure's
  `ControlledByPlayer` marker and the resource's controlling flag, and
  emits TakeControl/ReleaseControl events.
- **Projectile materials** (`combat_materials.dfy`, module
  `CombatMaterials`, from `src/gameplay/structures_combat.rs`). The
  material table, projectile sizes, and the projectile physics built from
  them: area, mass and structural points. Also density and impulse.
- **Hits** (`combat_hits.dfy`, module `CombatHits`). Two steps:
  - turning collisions into projectile→module hits;
  - resolving each hit into kinetic energy and damage, which lowers the
    module's structural points and emits damage and destroyed events.
    The projectile is despawned.
- **Destruction** (`combat_destruction.dfy`, module `CombatDestruction`).
  - A destroyed module empties its cell, re-checks the hull's
    pressurization and is despawned.
  - When a neighbouring room opens up, the structure depressurizes. The
    modules next to exposed cells are then released from the structure
    and their cells emptied.
- **Legacy combat** (`legacy_combat.dfy`, module `LegacyCombat`, from
  `src/structures_combat.rs`). The older version of the combat code, with
  its own material table. It computes damage as kinetic energy over
  strength and despawns destroyed modules directly.

Shared pieces:

- `ecs.dfy` holds entities, vectors and transforms.
- `modules.dfy` holds the `Module` component from `src/modules.rs:9-21`. That
  file declares neither the `Cannon` module type nor the `entity_connected`
  field. The model adds both from where the code uses them:
  `src/structures.rs:329` and `src/structures_combat.rs:267`.
- `wrappers.dfy` holds `Option`/`Result`.
- `real_arith.dfy` holds lemmas about products and quotients of reals.

The game's `f32` arithmetic is modelled by exact `real` arithmetic.
`UNIT_SCALE` (game units per metre) is a positive parameter, because the
repository defines it twice: as 1.0 in `src/lib.rs:30` and as 10.0 in
`src/configs/config.rs:7`. Every ECS system is modelled as one pass over its
query results in query order. Events read become an input sequence, and
events written become an output sequence. Deferred `Commands` such as
despawn and parent removal become output lists. They do not change the
queries for the rest of the pass.

Three behaviours of the structure loader that the model keeps as the code
has them:

- Structure layouts know only `E`, `W` and `C`. A `!` character is skipped
  like any other unknown character, so no cannon is spawned.
- The only layout that fails to load is the empty one, where the code
  indexes row 0. Rows of unequal length are not rejected. The grid width is
  the length of the first row in UTF-8 bytes (a string's `len`), while
  module columns count characters, so the two agree only for ASCII rows.
- A structure is always placed at the fixed translation (500, 200, 1). It is
  not placed at a position supplied with the layout.

## Model

| member | source | states |
|---|---|---|
| Grids.EnvironmentFromChar | src/grid.rs:43-53 | `S` gives InsideShip, `P` PlanetSurface and `W` Wall, each if and only if; every other character, `#` included, gives OuterSpace |
| Grids.NewCells | src/grid.rs:94-100 | the cell map has exactly the keys of the width × height rectangle, each a default grey cell with no entity |
| Grids.Grid.constructor | src/grid.rs:94-107 | a new grid keeps its width, height and cell size and holds exactly the default cells of its rectangle |
| Grids.Grid.InsertNew | src/grid.rs:109-111 | the cell at (x, y) is replaced, or added, by a grey default cell holding the entity; no other cell changes |
| Grids.Grid.Get | src/grid.rs:113-115 | a cell is returned exactly when the key is present, and it is the stored cell |
| Grids.Grid.ClearCell | src/grid.rs:121-123 | the key is removed and nothing else; a following get finds nothing |
| Grids.WithEntity | src/grid.rs:125-135 | setting a cell's entity keeps the key set, changes only that cell's entity when the cell exists, and leaves every other cell as it was |
| Grids.Grid.RemoveEntityFromCell | src/grid.rs:125-129 | the cell's entity is cleared if the cell exists; otherwise the grid is unchanged |
| Grids.Grid.InsertEntityInCell | src/grid.rs:131-135 | the cell's entity is set if the cell exists; a missing cell is not created |
| Grids.Moved | src/grid.rs:137-140 | after a move the target cell holds the entity; the old cell, if it is a different cell, holds none; colours and properties are kept; other cells are untouched |
| Grids.Grid.UpdateEntityPosition | src/grid.rs:137-140 | the grid becomes the moved grid: clear at the old cell, then set at the new one |
| Grids.CellIndex | src/grid.rs:142-150 | the floor of offset / cell size: the offset lies in [n·size, (n+1)·size) |
| Grids.GridRoundTrip | src/grid.rs:142-161 | converting a cell to its world centre and back gives the same cell, for every cell and grid |
| Grids.WorldToGridContains | src/grid.rs:142-161 | every world position lies within half a cell of the centre of the cell it converts to |
| Grids.WithColor | src/grid.rs:163-167 | colouring changes only the colour of an existing cell and nothing else |
| Grids.Grid.ColorCell | src/grid.rs:163-167 | the grid becomes the recoloured grid; missing cells are not created |
| Grids.GetOutsideRectangle | src/grid.rs:94-115 | on a fresh grid, get finds nothing exactly outside the rectangle, and every cell it finds is empty |
| Grids.LevelCells | src/grid.rs:186-204 | the level's cells are exactly the characters of its rows, each a grey cell whose environment is that character's |
| Grids.DetectGridUpdates | src/grid.rs:268-295 | the stored position and the events sent are the cell changes of the players in order; the grid is the old grid with each announced move applied |
| Grids.GridChangesChain | src/grid.rs:275-294 | every event changes cell; consecutive events chain (new cell = next old cell); the first starts at the stored position; the stored position ends at the last player's cell |
| Grids.GridChangeIffCellDiffers | src/grid.rs:277-293 | for one player an event is sent, and the position updated, exactly when the player's cell differs from the stored one |
| Structures.Structure.GetRelativePosition | src/structures.rs:71-73 | adding the structure's translation back to the relative position gives the world position |
| Structures.Structure.AdjustForGridOrigin | src/structures.rs:76-82 | the adjusted position is the relative one shifted by half a cell right and half a cell down |
| Structures.Structure.WorldToGrid | src/structures.rs:85-94 | the returned cell is the one whose (shifted) square contains the position relative to the structure |
| Structures.Structure.IsWorldPositionWithinGrid | src/structures.rs:97-109 | a position is within the structure exactly when its cell is within the grid's bounds |
| Structures.BoundsAreFreshKeys | src/structures.rs:112-114 | on a freshly built grid, the bounds check holds exactly for the keys of the cell map |
| Structures.Structure.GridToWorldPosition | src/structures.rs:117-127 | the position is the structure's translation plus the cell's grid-frame corner; its z is twice the structure's z |
| Structures.StructureRoundTrip | src/structures.rs:85-127 | converting a cell to a world position and back through the structure's transform gives the same cell |
| Structures.TranslationInvariance | src/structures.rs:71-109 | moving the player and the structure by the same vector changes neither the player's cell nor the inside test |
| Structures.WithinGridIsRectangle | src/structures.rs:97-114 | the inside test holds exactly for positions in the axis-aligned rectangle the grid covers around the structure's translation |
| StructureLayout.ModuleTypeOf | src/structures.rs:169-217 | `E` gives Engine, `W` Wall and `C` CommandCenter, each if and only if; every other character spawns nothing |
| StructureLayout.SpawnAtModuleChars | src/structures.rs:163-218 | a spawn exists exactly for a module character; it has that type and grid position, lies at depth 1 (at -1 for a command center), and only a command center is interactable |
| StructureLayout.RowSpawnsExact | src/structures.rs:162-221 | a row's spawns lie in that row, each is the spawn its character calls for, they are ordered left to right, and every module character in the row is spawned |
| StructureLayout.LayoutSpawnsFromLayout | src/structures.rs:161-221 | every spawn comes from a module character of the layout at its grid position |
| StructureLayout.LayoutSpawnsOrdered | src/structures.rs:161-221 | spawns are in row-major order, so no two share a cell |
| StructureLayout.LayoutSpawnsComplete | src/structures.rs:161-221 | every module character of the layout is spawned at its position |
| StructureLayout.SpawnSitsInItsCell | src/structures.rs:163-166 | a spawn's translation is the centre of its cell, and converting it back gives that cell |
| StructureLayout.Utf8Length | src/structures.rs:146 | a row's byte length, which sizes the grid, is never less than its number of characters |
| StructureLayout.Utf8LengthIsCountIffAscii | src/structures.rs:146 | a row's byte length equals its number of characters exactly when every character is ASCII |
| StructureLayout.RectangularLayoutInBounds | src/structures.rs:146-157 | when every row has as many characters as the first, every spawn is within the bounds of the grid built from the first row's byte length |
| StructureLayout.SpawnModules | src/structures.rs:161-221 | the spawns made are the layout's, row by row and left to right, and each makes one grid insert with its coordinates as (y, x) |
| StructureLayout.SetupStructure | src/structures.rs:143-237 | loading fails exactly for an empty layout; otherwise the grid is as wide as the first row's byte length and as high as the row count, the spawns are those of the layout, each spawn records a grid insertion, and the structure sits at (500, 200, 1) |
| StructureTracking.InsideStep | src/structures.rs:265-277 | on the grid the resource names the structure, announcing an entry only if it did not already name it; off the grid the resource is cleared, announcing an exit only if it named this structure; an event is sent exactly when the resource changes |
| StructureTracking.DetectPlayerInsideStructure | src/structures.rs:257-280 | the resource and the events are those of the players × structures pass in query order; the controlling flag is untouched |
| StructureTracking.StablePassIsQuiet | src/structures.rs:263-279 | if the resource already agrees with the player's position on every structure, a pass changes nothing and announces nothing |
| StructureTracking.PassStabilizes | src/structures.rs:263-279 | with distinct structures of which at most one is under the player, one pass leaves the resource agreeing with the player's position |
| StructureTracking.RepeatedPassIsQuiet | src/structures.rs:257-280 | under the same conditions, a second pass for a player who has not moved is silent and changes nothing |
| StructureControl.TakeThenRelease | src/structures.rs:327-361 | space on a free command center takes control: connected, controlling, and a TakeControl event; a second space releases it with a ReleaseControl event and restores the free state |
| StructureControl.HeldByAnotherIsUntouched | src/structures.rs:327-362 | when another player holds the command center, no number of actions changes anything or sends an event |
| StructureControl.ReadActionsToggles | src/structures.rs:327-362 | one event per space press; the connection flips with the parity of the presses; after any press the controlling flag and the structure's marker agree with the connection |
| StructureControl.FirstInChildrenFinds | src/structures.rs:321-325 | the chosen child is one of the children and a command center at the player's cell; none is chosen exactly when no child qualifies |
| StructureControl.FirstInStructuresFinds | src/structures.rs:312-325 | the chosen structure contains the player's cell and a qualifying command center; none is chosen exactly when no structure and child qualify |
| StructureControl.ControlTargetQualifies | src/structures.rs:311-325 | the chosen triple passes every test in front of the input loop; none is chosen exactly when no triple does |
| StructureControl.ReadInputs | src/structures.rs:327-362 | the command center, structure marker, resource flag and events are those of reading every action in order |
| StructureControl.ScanChildren | src/structures.rs:321-367 | scanning a structure's children extends the progress of the pass: the reader is drained at the first qualifying command center, and later ones see no actions |
| StructureControl.ScanStructures | src/structures.rs:312-370 | scanning the structures for one player extends the progress of the pass in the same way |
| StructureControl.ControlCommandCenter | src/structures.rs:301-372 | the first qualifying (player, structure, command center) receives all the actions; nothing else changes; with no such triple nothing changes and nothing is sent |
| CombatMaterials.Properties | src/gameplay/structures_combat.rs:40-61 | all values are non-negative and every damage threshold is positive; only Ballistic has a yield strength; only Energy has no density |
| CombatMaterials.Size | src/gameplay/structures_combat.rs:63-69 | every material has a positive diameter in game units |
| CombatMaterials.DiscAreaPositive | src/gameplay/structures_combat.rs:97-100 | a disc of non-zero diameter has a positive area |
| CombatMaterials.Create | src/gameplay/structures_combat.rs:94-115 | size is the material's diameter; area is that disc's area; mass is density × area; structural points are yield strength × mass; points are zero exactly for non-ballistic projectiles and mass exactly for energy projectiles |
| CombatMaterials.Density | src/gameplay/structures_combat.rs:117-123 | the density times the disc area of the size gives back the mass |
| CombatMaterials.DensityOfCreate | src/gameplay/structures_combat.rs:94-123 | the density recovered from a created projectile is its material's density |
| CombatMaterials.ImpulseLinear | src/gameplay/structures_combat.rs:125-131 | the impulse is additive in the requested speed and zero at speed zero |
| CombatHits.FindMatchingEntity | src/gameplay/structures_combat.rs:151-163 | the first entity is preferred when it matches, then the second; nothing is found exactly when neither matches |
| CombatHits.HitOf | src/gameplay/structures_combat.rs:298-304 | a collision yields a hit exactly when one side is a projectile and one a module; the hit names a projectile and a module |
| CombatHits.DetectStructureHits | src/gameplay/structures_combat.rs:292-305 | the events sent are the hits of the collisions, in order |
| CombatHits.HitsOfExact | src/gameplay/structures_combat.rs:292-305 | every hit comes from some collision, every hitting collision produces a hit, and there are no more hits than collisions |
| CombatHits.KineticEnergy | src/gameplay/structures_combat.rs:324-327 | kinetic energy is non-negative for a non-negative mass, and zero for no mass or no velocity |
| CombatHits.Damage | src/gameplay/structures_combat.rs:330-340 | damage is zero when the projectile has no yield strength, no density or no energy; it is non-negative for non-negative inputs and a positive target |
| CombatHits.ProjectileHitSystem | src/gameplay/structures_combat.rs:308-379 | the modules' structural points and the events sent are those of resolving the hits in order |
| CombatHits.EveryResolvedHitAnswered | src/gameplay/structures_combat.rs:317-374 | every resolved hit sends exactly one damage event and despawns exactly its projectile, in the order of the hits; at most that many modules are destroyed |
| CombatHits.HitDamageNonNegative | src/gameplay/structures_combat.rs:324-340 | with positive module materials and non-negative projectile masses, every hit does non-negative damage |
| CombatHits.PointsNeverIncrease | src/gameplay/structures_combat.rs:324-344 | under the same conditions no module's structural points rise and every damage sent is non-negative |
| CombatHits.PointsAfterHits | src/gameplay/structures_combat.rs:317-344 | after the hits every module has its starting points less the total damage the resolved hits did to it |
| CombatHits.DestroyedPerHit | src/gameplay/structures_combat.rs:363-372 | the destroyed events are exactly one per resolved hit that leaves its module at or below zero points counting all damage up to that hit, in hit order, each carrying the module's inner grid position; no other hit sends one |
| CombatHits.DestroyedIffDepleted | src/gameplay/structures_combat.rs:343-372 | looking only at the final points, under positive materials and non-negative masses: every module announced destroyed ends at or below zero, and every damaged module that ends there was announced |
| CombatHits.NonBallisticHitsHarmless | src/gameplay/structures_combat.rs:48-59 | explosive and energy projectiles have no yield strength, so their hits do zero damage and leave every module's points unchanged |
| CombatDestruction.EmptiedAt | src/gameplay/structures_combat.rs:235-237 | the destroyed module's cell becomes empty if present; no other cell changes and no cell is added |
| CombatDestruction.AnyExposed | src/gameplay/structures_combat.rs:243-256 | the search reports a breach exactly when some adjacent cell is outside the exposed set and is an empty cell of the grid |
| CombatDestruction.DestroyModule | src/gameplay/structures_combat.rs:235-262 | the cell is emptied; the exposed set becomes the pressurization check of the new grid; a depressurization is announced exactly when a neighbour outside the old exposed set is now an empty room |
| CombatDestruction.HandleModuleDestroyed | src/gameplay/structures_combat.rs:220-269 | the structures' hulls, the announcements and the despawns are those of destroying the modules in event order |
| CombatDestruction.DestroyedCellsStayEmpty | src/gameplay/structures_combat.rs:228-262 | a cell once empty stays empty, and the cell of every handled destroyed module ends empty |
| CombatDestruction.DestroyedModulesDespawned | src/gameplay/structures_combat.rs:228-266 | a module is despawned exactly when it was destroyed and its parent is a pressurized structure; only such structures are depressurized, at most once per despawned module |
| CombatDestruction.EmptyNeighboursExact | src/gameplay/structures_combat.rs:186-211 | exactly the cells of the children next to an exposed cell are emptied, and exactly those children are released |
| CombatDestruction.Depressurize | src/gameplay/structures_combat.rs:183-215 | the released children are those next to the exposed cells known before the pass; their cells are emptied; the exposed set becomes the check of the new grid |
| CombatDestruction.DepressurizeStructure | src/gameplay/structures_combat.rs:180-216 | the structure's hull and released modules are those of depressurizing it |
| CombatDestruction.HandleDepressurization | src/gameplay/structures_combat.rs:172-218 | every structure named by an event, in order, is depressurized; other structures are unchanged |
| LegacyCombat.Properties | src/structures_combat.rs:36-51 | every legacy material has a positive strength and a positive density |
| LegacyCombat.Size | src/structures_combat.rs:63-69 | every legacy material has a positive diameter in metres |
| LegacyCombat.ImpulseBilinear | src/structures_combat.rs:53-61 | the impulse is additive in the speed and in the mass, and zero when either is zero |
| LegacyCombat.Create | src/structures_combat.rs:93-112 | mass is density × the area of the disc in metres; structural points are strength × mass; the size is converted to game units; all three are positive |
| LegacyCombat.ReportedDensityOfCreate | src/structures_combat.rs:114-118 | the density reported for a created projectile is its material's density |
| LegacyCombat.KineticEnergy | src/structures_combat.rs:205-210 | kinetic energy is non-negative for a non-negative mass, and zero for no mass or no velocity |
| LegacyCombat.KineticEnergyAgrees | src/structures_combat.rs:205-210 | the legacy energy, from the per-axis scaled velocity, equals the current code's energy, from the scaled speed |
| LegacyCombat.Damage | src/structures_combat.rs:216-217 | damage times the material strength is the kinetic energy; it is non-negative for non-negative energy |
| LegacyCombat.ProjectileHitSystem | src/structures_combat.rs:191-251 | the modules' structural points and the despawns are those of processing the collisions in order |
| LegacyCombat.CollisionDamageNonNegative | src/structures_combat.rs:205-217 | with strong materials and non-negative projectile masses, every hit does non-negative damage |
| LegacyCombat.PointsNeverIncrease | src/structures_combat.rs:205-218 | under the same conditions no module's structural points rise |
| LegacyCombat.PointsAfterCollisions | src/structures_combat.rs:199-218 | after the collisions every module has its starting points less the total damage the processed collisions did to it |
| LegacyCombat.DespawnPerHit | src/structures_combat.rs:218-223 | the modules despawned are exactly one per processed collision that leaves its module at or below zero points counting all damage up to that collision, in order; no other collision despawns a module |
| LegacyCombat.DespawnRules | src/structures_combat.rs:218-244 | every processed hit despawns its projectile, in order; looking only at the final points, under positive strengths and non-negative masses, every despawned module ends at or below zero and every hit module that ends there is despawned |

## Left out

- Floating point: `f32` rounding, overflow, NaN and infinities are not modelled; reals are exact.
- Integer casts: the saturating `as i32` cast of a floor, the `as u32` truncation of the layout width, and the `u32`→`i32` cast in `is_within_grid_bounds` are not modelled; coordinates are unbounded integers.
- Speed in the current combat code is `length()` squared; the model uses the squared length directly, with no square root.
- Rotation and scale of transforms: only translations are modelled.
- Rendering, meshes, colours of spawned modules beyond their recorded colour, gizmos and debug output.
- Asset loading: reading the JSON level and structure files and UTF-8 decoding. Layouts arrive as rows of characters; the first row's byte length is computed from its characters.
- Timers: `projectile_lifetime_system` and the projectile `Timer` component.
- Player movement, `apply_gravity`, `move_structure_system`, shooting and `make_player_child_of_structure_system`: these are outside this model.
- Physics side effects of depressurization are modelled as the list of released modules. These are the external force along the normalized direction, `remove_parent_in_place`, removing `ColliderDensity`, `RigidBody::Dynamic` and `Mass(20000)`.
- Deferred commands: `despawn` and `remove_parent_in_place` are recorded in output lists. As with Bevy's deferred `Commands`, they do not change the queries for the rest of the pass. A projectile in two collisions of one pass is therefore processed twice, and a module destroyed twice is handled twice. The `ControlledByPlayer` insert and remove become an immediate field update, which nothing later in the same pass reads. `despawn_entity`'s check that the entity still exists is not modelled.
- `check_pressurization`, `get_adjacent_cells` and `find_neighbors_of_exposed_modules` are parameters of the destruction model, because their code is not part of this model. A structure's cell types are a map of `Empty` or `Filled` cells, and the kinds of filled cells are abstract.
- `Grid::insert` of the structure grid is not part of this model. Setup records each insertion as the `(y, x)` pair the code passes.
- `Grid::get_mut` returns a mutable reference; the model has the mutators that use it instead.
- The material of a module (`ModuleMaterial.material_type.properties()`) is stored as the properties themselves.
- The `scaling_factor` argument of both `create` functions is unused by the code; the model takes it and ignores it in the legacy version and omits it in the current one.
- `debug_info` in the legacy code is modelled only for the density it reports.
- CombatHits.Damage: requires a module material with non-zero density and yield strength; the code would divide by zero, producing an infinity or NaN, which is not modelled.
- CombatHits.HitDamage: requires the same non-zero module materials (`DivisibleMaterials`) for the same reason.
- LegacyCombat.Damage: requires a non-zero strength, for the same reason; every legacy material has a positive one.
- CombatMaterials.Density: requires a non-zero size, since a zero size would divide by a zero area; every created projectile has a positive size.
- CombatHits.ProjectileHitSystem: requires distinct module materials per entity (`Injective`), since the model updates them through a map; the ECS guarantees one component per entity. It also requires non-zero module materials (`DivisibleMaterials`), because a division by zero is not modelled.
- LegacyCombat.ProjectileHitSystem: requires distinct module materials per entity (`Injective`), for the same reason; the ECS guarantees one component per entity. It also requires non-zero strengths (`DivisibleMaterials`), because a division by zero is not modelled.
- StructureControl.ControlCommandCenter: requires distinct modules per entity for the same reason.
- CombatDestruction.HandleModuleDestroyed: requires distinct structure objects per entity for the same reason.
- StructureTracking.RepeatedPassIsQuiet: the idempotence lemma is stated for one player; with several players at different places the shared resource can flip between them.
- Grids.Grid.WorldToGrid and Grids.Grid.GridToWorld: no contract of their own; their meaning is stated by CellIndex, GridRoundTrip and WorldToGridContains.
- CombatDestruction.EmptiedAt: `set_cell_type_to_empty` is not part of this model; it is assumed to set an existing cell to `Empty`, to ignore a missing cell and to change nothing else, the way the grid's other cell setters behave. DestroyedCellsStayEmpty and the emptying parts of DestroyModule and Depressurize rest on that assumption.
