/**
 * The grid bookkeeping that follows combat in the current combat code
 * (src/gameplay/structures_combat.rs). A destroyed module's cell is emptied
 * and the structure's exposed cells are recomputed; when the breach opens
 * onto a room that was not exposed before, the structure is depressurized,
 * which empties the cells of the modules next to the exposed cells and
 * releases those modules from the structure.
 *
 * Only the cell types and the exposed cells of a structure matter here. The
 * structure's pressurization analysis (`check_pressurization`), its
 * adjacency (`get_adjacent_cells`) and its neighbour search
 * (`find_neighbors_of_exposed_modules`) are not part of this model and are
 * taken as parameters; emptying a cell (`set_cell_type_to_empty`) is taken
 * to set the type of an existing cell and to ignore a missing one.
 */
module CombatDestruction {
  import opened Ecs
  import Modules
  import CombatHits

  /** The type of a cell as pressurization sees it; only `Empty` is ever tested. */
  datatype CellType = Empty | Filled(kind: nat)

  /** What `check_pressurization` computes: the exposed cells of a structure's cells. */
  type PressurizationCheck = map<Coord, CellType> -> set<Coord>

  /** What `get_adjacent_cells` computes: the cells next to a cell. */
  type Adjacency = (map<Coord, CellType>, Coord) -> seq<Coord>

  /** What `find_neighbors_of_exposed_modules` computes: the cells next to the exposed ones. */
  type NeighbourSearch = (map<Coord, CellType>, set<Coord>) -> set<Coord>

  /** The state of one structure these systems read and write. */
  datatype HullState = HullState(cellTypes: map<Coord, CellType>, exposedCells: set<Coord>)

  /** The cell types after emptying `pos`: an existing cell becomes `Empty`, nothing else changes. */
  function EmptiedAt(cellTypes: map<Coord, CellType>, pos: Coord): (r: map<Coord, CellType>)
    ensures r.Keys == cellTypes.Keys
    ensures pos in cellTypes ==> r[pos] == Empty
    ensures forall c :: c in cellTypes && c != pos ==> r[c] == cellTypes[c]
  {
    if pos in cellTypes then cellTypes[pos := Empty] else cellTypes
  }

  /** An adjacent cell that was not exposed before and is an empty cell of the grid: a pressurized room. */
  predicate OpensOntoRoom(cell: Coord, exposedBefore: set<Coord>, cellTypes: map<Coord, CellType>) {
    cell !in exposedBefore && cell in cellTypes && cellTypes[cell] == Empty
  }

  /** Whether any of the adjacent cells opens onto a room; the scan stops at the first that does. */
  method AnyExposed(adjacent: seq<Coord>, exposedBefore: set<Coord>, cellTypes: map<Coord, CellType>) returns (anyExposed: bool)
    ensures anyExposed <==> exists i :: 0 <= i < |adjacent| && OpensOntoRoom(adjacent[i], exposedBefore, cellTypes)
  {
    anyExposed := false;
    var i := 0;
    while i < |adjacent|
      invariant 0 <= i <= |adjacent|
      invariant !anyExposed
      invariant forall k :: 0 <= k < i ==> !OpensOntoRoom(adjacent[k], exposedBefore, cellTypes)
    {
      var cell := adjacent[i];
      if cell !in exposedBefore {
        if cell in cellTypes && cellTypes[cell] == Empty {
          anyExposed := true;
          break;
        }
      }
      i := i + 1;
    }
  }

  /**
   * One destroyed module on cell `pos`: the cell is emptied, the exposed
   * cells are replaced by a fresh check of the emptied grid, and the
   * structure is to be depressurized exactly when an adjacent cell was not
   * in the previous exposed set and is empty once the module's cell is.
   */
  function DestroyModule(hull: HullState, pos: Coord, adjacentCells: Adjacency, checkPressurization: PressurizationCheck)
    : (r: (HullState, bool))
    ensures r.0.cellTypes.Keys == hull.cellTypes.Keys
    ensures pos in hull.cellTypes ==> r.0.cellTypes[pos] == Empty
    ensures forall c :: c in hull.cellTypes && c != pos ==> r.0.cellTypes[c] == hull.cellTypes[c]
    ensures r.0.exposedCells == checkPressurization(r.0.cellTypes)
    ensures var adjacent := adjacentCells(r.0.cellTypes, pos);
            r.1 <==> exists i :: 0 <= i < |adjacent| && adjacent[i] !in hull.exposedCells
                                 && adjacent[i] in r.0.cellTypes && r.0.cellTypes[adjacent[i]] == Empty
  {
    var cellTypes := EmptiedAt(hull.cellTypes, pos);
    var adjacent := adjacentCells(cellTypes, pos);
    (HullState(cellTypes, checkPressurization(cellTypes)),
     exists i :: 0 <= i < |adjacent| && OpensOntoRoom(adjacent[i], hull.exposedCells, cellTypes))
  }

  /** The structures to depressurize and the modules to despawn, in event order. */
  datatype DestructionOutcome = DestructionOutcome(depressurized: seq<Entity>, despawned: seq<Entity>)

  /** Whether a destroyed module has a parent that is one of the structures. */
  predicate HasStructure(event: CombatHits.ModuleDestroyedEvent, parents: map<Entity, Entity>, hulls: map<Entity, HullState>) {
    event.destroyedEntity in parents && parents[event.destroyedEntity] in hulls
  }

  /**
   * The destroyed modules in order: a module whose parent is a structure
   * empties its cell there, may depressurize it, and is despawned; any other
   * event is ignored.
   */
  function DestroyModules(events: seq<CombatHits.ModuleDestroyedEvent>, parents: map<Entity, Entity>, hulls: map<Entity, HullState>,
                          adjacentCells: Adjacency, checkPressurization: PressurizationCheck)
    : (r: (map<Entity, HullState>, DestructionOutcome))
    ensures r.0.Keys == hulls.Keys
  {
    if events == [] then (hulls, DestructionOutcome([], []))
    else
      var (before, outcome) := DestroyModules(events[..|events| - 1], parents, hulls, adjacentCells, checkPressurization);
      var event := events[|events| - 1];
      if !HasStructure(event, parents, before) then (before, outcome)
      else
        var structureEntity := parents[event.destroyedEntity];
        var (hull, anyExposed) := DestroyModule(before[structureEntity], event.innerGridPos, adjacentCells, checkPressurization);
        (before[structureEntity := hull],
         DestructionOutcome(outcome.depressurized + (if anyExposed then [structureEntity] else []),
                            outcome.despawned + [event.destroyedEntity]))
  }

  /** A structure's `Structure` grid cell types and `Pressurization` component. */
  class PressurizedStructure {
    var cellTypes: map<Coord, CellType>
    var exposedCells: set<Coord>

    constructor (cellTypes: map<Coord, CellType>, exposedCells: set<Coord>)
      ensures this.cellTypes == cellTypes && this.exposedCells == exposedCells
    {
      this.cellTypes := cellTypes;
      this.exposedCells := exposedCells;
    }
  }

  /** The state of every structure. */
  function Hulls(structures: map<Entity, PressurizedStructure>): (hulls: map<Entity, HullState>)
    reads structures.Values
    ensures hulls.Keys == structures.Keys
  {
    map e | e in structures :: HullState(structures[e].cellTypes, structures[e].exposedCells)
  }

  /** No two entities share one structure object. */
  ghost predicate Distinct(structures: map<Entity, PressurizedStructure>) {
    forall a, b :: a in structures && b in structures && a != b ==> structures[a] != structures[b]
  }

  method HandleModuleDestroyed(events: seq<CombatHits.ModuleDestroyedEvent>, parents: map<Entity, Entity>,
                               structures: map<Entity, PressurizedStructure>, adjacentCells: Adjacency,
                               checkPressurization: PressurizationCheck)
    returns (outcome: DestructionOutcome)
    requires Distinct(structures)
    modifies structures.Values
    ensures (Hulls(structures), outcome) == DestroyModules(events, parents, old(Hulls(structures)), adjacentCells, checkPressurization)
  {
    ghost var hulls0 := Hulls(structures);
    outcome := DestructionOutcome([], []);
    for i := 0 to |events|
      invariant (Hulls(structures), outcome) == DestroyModules(events[..i], parents, hulls0, adjacentCells, checkPressurization)
    {
      assert events[..i + 1][..i] == events[..i];
      var event := events[i];
      assert events[..i + 1][i] == event;
      ghost var step := DestroyModules(events[..i + 1], parents, hulls0, adjacentCells, checkPressurization);
      var moduleDestroyed := event.destroyedEntity;
      if moduleDestroyed in parents && parents[moduleDestroyed] in structures {
        var structureEntity := parents[moduleDestroyed];
        var structureAttacked := structures[structureEntity];
        ghost var before := Hulls(structures);
        var pos := event.innerGridPos;
        structureAttacked.cellTypes := EmptiedAt(structureAttacked.cellTypes, pos);
        var adjacent := adjacentCells(structureAttacked.cellTypes, pos);
        var anyExposed := AnyExposed(adjacent, structureAttacked.exposedCells, structureAttacked.cellTypes);
        structureAttacked.exposedCells := checkPressurization(structureAttacked.cellTypes);
        if anyExposed {
          outcome := outcome.(depressurized := outcome.depressurized + [structureEntity]);
        }
        outcome := outcome.(despawned := outcome.despawned + [moduleDestroyed]);
        assert Hulls(structures) == before[structureEntity := HullState(structureAttacked.cellTypes, structureAttacked.exposedCells)];
        assert step.0 == Hulls(structures);
        assert step.1 == outcome;
      } else {
        assert step == (Hulls(structures), outcome);
      }
    }
    assert events[..|events|] == events;
  }

  /** Every empty cell of every structure is still there and still empty. */
  ghost predicate KeepsEmpty(before: map<Entity, HullState>, after: map<Entity, HullState>) {
    && after.Keys == before.Keys
    && forall s :: s in before ==>
         && after[s].cellTypes.Keys == before[s].cellTypes.Keys
         && forall c :: c in before[s].cellTypes && before[s].cellTypes[c] == Empty ==> after[s].cellTypes[c] == Empty
  }

  /** The cell of a destroyed module with a structure is empty afterwards, if the structure has that cell. */
  ghost predicate CellEmptied(event: CombatHits.ModuleDestroyedEvent, parents: map<Entity, Entity>,
                              hulls: map<Entity, HullState>, after: map<Entity, HullState>)
  {
    HasStructure(event, parents, hulls) && event.innerGridPos in hulls[parents[event.destroyedEntity]].cellTypes ==>
      && parents[event.destroyedEntity] in after
      && event.innerGridPos in after[parents[event.destroyedEntity]].cellTypes
      && after[parents[event.destroyedEntity]].cellTypes[event.innerGridPos] == Empty
  }

  /**
   * Destruction only ever empties cells: no cell appears or disappears, an
   * empty cell stays empty, and the cell of every destroyed module with a
   * structure is empty once all the events are handled, whatever later
   * events do.
   */
  lemma {:induction false} DestroyedCellsStayEmpty(events: seq<CombatHits.ModuleDestroyedEvent>, parents: map<Entity, Entity>,
                                                   hulls: map<Entity, HullState>, adjacentCells: Adjacency,
                                                   checkPressurization: PressurizationCheck)
    ensures KeepsEmpty(hulls, DestroyModules(events, parents, hulls, adjacentCells, checkPressurization).0)
    ensures forall i :: 0 <= i < |events| ==>
              CellEmptied(events[i], parents, hulls, DestroyModules(events, parents, hulls, adjacentCells, checkPressurization).0)
  {
    if events != [] {
      var prefix := events[..|events| - 1];
      DestroyedCellsStayEmpty(prefix, parents, hulls, adjacentCells, checkPressurization);
      var before := DestroyModules(prefix, parents, hulls, adjacentCells, checkPressurization).0;
      var after := DestroyModules(events, parents, hulls, adjacentCells, checkPressurization).0;
      var event := events[|events| - 1];
      assert KeepsEmpty(before, after);
      forall i | 0 <= i < |events|
        ensures CellEmptied(events[i], parents, hulls, after)
      {
        if i < |prefix| {
          assert events[i] == prefix[i];
          assert CellEmptied(prefix[i], parents, hulls, before);
        }
      }
    }
  }

  /** Every despawned module is the module of an event with a structure, and every such module is despawned. */
  ghost predicate DespawnsExactly(events: seq<CombatHits.ModuleDestroyedEvent>, parents: map<Entity, Entity>,
                                  hulls: map<Entity, HullState>, outcome: DestructionOutcome)
  {
    && (forall e :: e in outcome.despawned <==>
          exists i :: 0 <= i < |events| && events[i].destroyedEntity == e && HasStructure(events[i], parents, hulls))
    && (forall s :: s in outcome.depressurized ==> s in hulls)
    && |outcome.depressurized| <= |outcome.despawned| <= |events|
  }

  /**
   * Exactly the destroyed modules with a structure are despawned, at most
   * one depressurization is announced per such module, and only structures
   * are depressurized.
   */
  lemma {:induction false} DestroyedModulesDespawned(events: seq<CombatHits.ModuleDestroyedEvent>, parents: map<Entity, Entity>,
                                                     hulls: map<Entity, HullState>, adjacentCells: Adjacency,
                                                     checkPressurization: PressurizationCheck)
    ensures DespawnsExactly(events, parents, hulls, DestroyModules(events, parents, hulls, adjacentCells, checkPressurization).1)
  {
    if events != [] {
      var prefix := events[..|events| - 1];
      DestroyedModulesDespawned(prefix, parents, hulls, adjacentCells, checkPressurization);
      var outcome := DestroyModules(prefix, parents, hulls, adjacentCells, checkPressurization).1;
      var r := DestroyModules(events, parents, hulls, adjacentCells, checkPressurization).1;
      var event := events[|events| - 1];
      forall e
        ensures e in r.despawned <==>
                exists i :: 0 <= i < |events| && events[i].destroyedEntity == e && HasStructure(events[i], parents, hulls)
      {
        if e in outcome.despawned {
          var i :| 0 <= i < |prefix| && prefix[i].destroyedEntity == e && HasStructure(prefix[i], parents, hulls);
          assert events[i] == prefix[i];
        }
        if exists i :: 0 <= i < |events| && events[i].destroyedEntity == e && HasStructure(events[i], parents, hulls) {
          var i :| 0 <= i < |events| && events[i].destroyedEntity == e && HasStructure(events[i], parents, hulls);
          if i < |prefix| {
            assert prefix[i] == events[i];
          }
        }
      }
    }
  }

  /** A child module on one of the neighbour cells, which depressurization releases. */
  predicate Released(child: Entity, modules: map<Entity, Modules.Module>, neighbours: set<Coord>) {
    child in modules && modules[child].innerGridPos in neighbours
  }

  /** The cell types after the children's cells among the neighbours are emptied, and the released children, in order. */
  function EmptyNeighbours(cellTypes: map<Coord, CellType>, children: seq<Entity>, modules: map<Entity, Modules.Module>,
                           neighbours: set<Coord>)
    : (r: (map<Coord, CellType>, seq<Entity>))
  {
    if children == [] then (cellTypes, [])
    else
      var (cells, released) := EmptyNeighbours(cellTypes, children[..|children| - 1], modules, neighbours);
      var child := children[|children| - 1];
      if Released(child, modules, neighbours) then (EmptiedAt(cells, modules[child].innerGridPos), released + [child])
      else (cells, released)
  }

  /** Whether some released child sits on `cell`. */
  ghost predicate ReleasedAt(cell: Coord, children: seq<Entity>, modules: map<Entity, Modules.Module>, neighbours: set<Coord>) {
    exists k :: 0 <= k < |children| && Released(children[k], modules, neighbours) && modules[children[k]].innerGridPos == cell
  }

  /** The cells of released children are empty and every other cell is as it was. */
  ghost predicate EmptiesExactly(cellTypes: map<Coord, CellType>, after: map<Coord, CellType>, children: seq<Entity>,
                                 modules: map<Entity, Modules.Module>, neighbours: set<Coord>)
  {
    && after.Keys == cellTypes.Keys
    && forall c :: c in cellTypes ==>
         after[c] == if ReleasedAt(c, children, modules, neighbours) then Empty else cellTypes[c]
  }

  /**
   * Depressurization empties the cell of every child module that lies in
   * the neighbour set, keeps every other cell, and releases exactly those
   * children.
   */
  lemma {:induction false} EmptyNeighboursExact(cellTypes: map<Coord, CellType>, children: seq<Entity>,
                                                modules: map<Entity, Modules.Module>, neighbours: set<Coord>)
    ensures EmptiesExactly(cellTypes, EmptyNeighbours(cellTypes, children, modules, neighbours).0, children, modules, neighbours)
    ensures forall e :: e in EmptyNeighbours(cellTypes, children, modules, neighbours).1 <==> e in children && Released(e, modules, neighbours)
  {
    if children != [] {
      var prefix := children[..|children| - 1];
      var child := children[|children| - 1];
      EmptyNeighboursExact(cellTypes, prefix, modules, neighbours);
      var (cells, released) := EmptyNeighbours(cellTypes, prefix, modules, neighbours);
      var after := EmptyNeighbours(cellTypes, children, modules, neighbours).0;
      forall c | c in cellTypes
        ensures after[c] == if ReleasedAt(c, children, modules, neighbours) then Empty else cellTypes[c]
      {
        if ReleasedAt(c, prefix, modules, neighbours) {
          var k :| 0 <= k < |prefix| && Released(prefix[k], modules, neighbours) && modules[prefix[k]].innerGridPos == c;
          assert children[k] == prefix[k];
        }
      }
      assert forall e :: e in children <==> e in prefix || e == child;
    }
  }

  /**
   * One depressurized structure: the neighbours of the exposed cells are
   * found once, the cells of the child modules on them are emptied, and the
   * exposed cells are replaced by a fresh check of the emptied grid.
   */
  function Depressurize(hull: HullState, children: seq<Entity>, modules: map<Entity, Modules.Module>,
                        findNeighbors: NeighbourSearch, checkPressurization: PressurizationCheck)
    : (r: (HullState, seq<Entity>))
    ensures EmptiesExactly(hull.cellTypes, r.0.cellTypes, children, modules, findNeighbors(hull.cellTypes, hull.exposedCells))
    ensures forall e :: e in r.1 <==> e in children && Released(e, modules, findNeighbors(hull.cellTypes, hull.exposedCells))
    ensures r.0.exposedCells == checkPressurization(r.0.cellTypes)
  {
    var neighbours := findNeighbors(hull.cellTypes, hull.exposedCells);
    EmptyNeighboursExact(hull.cellTypes, children, modules, neighbours);
    var (cellTypes, released) := EmptyNeighbours(hull.cellTypes, children, modules, neighbours);
    (HullState(cellTypes, checkPressurization(cellTypes)), released)
  }

  method DepressurizeStructure(structure: PressurizedStructure, children: seq<Entity>, modules: map<Entity, Modules.Module>,
                               findNeighbors: NeighbourSearch, checkPressurization: PressurizationCheck)
    returns (released: seq<Entity>)
    modifies structure
    ensures (HullState(structure.cellTypes, structure.exposedCells), released)
            == Depressurize(old(HullState(structure.cellTypes, structure.exposedCells)), children, modules, findNeighbors, checkPressurization)
  {
    var neighbours := findNeighbors(structure.cellTypes, structure.exposedCells);
    ghost var start := structure.cellTypes;
    released := [];
    for k := 0 to |children|
      invariant (structure.cellTypes, released) == EmptyNeighbours(start, children[..k], modules, neighbours)
      invariant structure.exposedCells == old(structure.exposedCells)
    {
      assert children[..k + 1][..k] == children[..k];
      var child := children[k];
      if child in modules {
        var hitModule := modules[child];
        if hitModule.innerGridPos in neighbours {
          structure.cellTypes := EmptiedAt(structure.cellTypes, hitModule.innerGridPos);
          released := released + [child];
        }
      }
    }
    assert children[..|children|] == children;
    structure.exposedCells := checkPressurization(structure.cellTypes);
  }

  /** The depressurization events in order; a structure without a state or without children is skipped. */
  function DepressurizeAll(events: seq<Entity>, children: map<Entity, seq<Entity>>, modules: map<Entity, Modules.Module>,
                           hulls: map<Entity, HullState>, findNeighbors: NeighbourSearch, checkPressurization: PressurizationCheck)
    : (r: (map<Entity, HullState>, seq<Entity>))
    ensures r.0.Keys == hulls.Keys
  {
    if events == [] then (hulls, [])
    else
      var (before, released) := DepressurizeAll(events[..|events| - 1], children, modules, hulls, findNeighbors, checkPressurization);
      var s := events[|events| - 1];
      if s in before && s in children then
        var (hull, more) := Depressurize(before[s], children[s], modules, findNeighbors, checkPressurization);
        (before[s := hull], released + more)
      else (before, released)
  }

  method HandleDepressurization(events: seq<Entity>, children: map<Entity, seq<Entity>>, modules: map<Entity, Modules.Module>,
                                structures: map<Entity, PressurizedStructure>, findNeighbors: NeighbourSearch,
                                checkPressurization: PressurizationCheck)
    returns (released: seq<Entity>)
    requires Distinct(structures)
    modifies structures.Values
    ensures (Hulls(structures), released)
            == DepressurizeAll(events, children, modules, old(Hulls(structures)), findNeighbors, checkPressurization)
  {
    ghost var hulls0 := Hulls(structures);
    released := [];
    for i := 0 to |events|
      invariant (Hulls(structures), released) == DepressurizeAll(events[..i], children, modules, hulls0, findNeighbors, checkPressurization)
    {
      assert events[..i + 1][..i] == events[..i];
      var s := events[i];
      assert events[..i + 1][i] == s;
      ghost var step := DepressurizeAll(events[..i + 1], children, modules, hulls0, findNeighbors, checkPressurization);
      if s in structures && s in children {
        var depressurizedStructure := structures[s];
        ghost var before := Hulls(structures);
        var more := DepressurizeStructure(depressurizedStructure, children[s], modules, findNeighbors, checkPressurization);
        released := released + more;
        assert Hulls(structures) == before[s := HullState(depressurizedStructure.cellTypes, depressurizedStructure.exposedCells)];
        assert step.0 == Hulls(structures);
        assert step.1 == released;
      } else {
        assert step == (Hulls(structures), released);
      }
    }
    assert events[..|events|] == events;
  }
}
