/**
 * The building blocks of a structure (src/modules.rs): every module knows
 * its kind and the cell of its structure's grid it occupies; a command
 * center additionally remembers the player connected to it. The `Cannon`
 * kind and the connected player are not declared in src/modules.rs; they
 * come from their uses at src/structures_combat.rs:267 and
 * src/structures.rs:329.
 */
module Modules {
  import opened Wrappers
  import opened Ecs

  /** The kinds of module; `Cannon` is the kind the combat systems look for. */
  datatype ModuleType = CommandCenter | Engine | Wall | Cannon

  /** A module component; its kind and grid cell never change after spawning. */
  class Module {
    const moduleType: ModuleType
    const innerGridPos: Coord
    var entityConnected: Option<Entity>

    constructor (moduleType: ModuleType, innerGridPos: Coord)
      ensures this.moduleType == moduleType && this.innerGridPos == innerGridPos
      ensures entityConnected == None
    {
      this.moduleType := moduleType;
      this.innerGridPos := innerGridPos;
      entityConnected := None;
    }
  }
}
