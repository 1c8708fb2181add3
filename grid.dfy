/**
 * The world cell map of src/grid.rs: a finite map from integer pairs to
 * cells, the affine conversion between world space and grid coordinates
 * (top-left origin, y axis flipped), the per-frame tracking of the player's
 * cell, and the level loader's cell builder.
 */
module Grids {
  import opened Wrappers
  import opened Ecs

  /** What surrounds a cell. */
  datatype EnvironmentType = OuterSpace | InsideShip | PlanetSurface | Wall

  /** The level-file classifier: total, with every unknown character read as outer space. */
  function EnvironmentFromChar(c: char): (e: EnvironmentType)
    ensures e == InsideShip <==> c == 'S'
    ensures e == PlanetSurface <==> c == 'P'
    ensures e == Wall <==> c == 'W'
    ensures e == OuterSpace <==> c != 'S' && c != 'P' && c != 'W'
  {
    match c
    case 'S' => InsideShip
    case 'P' => PlanetSurface
    case '#' => OuterSpace
    case 'W' => Wall
    case _ => OuterSpace
  }

  datatype Srgba = Srgba(red: real, green: real, blue: real)

  const Grey := Srgba(0.5, 0.5, 0.5)

  datatype GridProperties = GridProperties(gravity: real, environment: EnvironmentType)

  const DefaultProperties := GridProperties(1.0, InsideShip)

  datatype GridCell = GridCell(entity: Option<Entity>, color: Srgba, properties: GridProperties)

  const DefaultCell := GridCell(None, Grey, DefaultProperties)

  /** World units per cell; the conversions divide by it. */
  type CellSize = r: real | r > 0.0 witness 1.0

  ghost predicate InRectangle(k: Coord, width: nat, height: nat) {
    0 <= k.0 < width && 0 <= k.1 < height
  }

  /** The cell map of a freshly built grid: exactly the rectangle, every cell default. */
  ghost predicate IsDefaultRectangle(cells: map<Coord, GridCell>, width: nat, height: nat) {
    && (forall k :: k in cells <==> InRectangle(k, width, height))
    && (forall k :: k in cells ==> cells[k] == DefaultCell)
  }

  /** Sets the occupant of the cell at `k`, if that cell exists. */
  function WithEntity(cells: map<Coord, GridCell>, k: Coord, e: Option<Entity>): (r: map<Coord, GridCell>)
    ensures r.Keys == cells.Keys
    ensures k in cells ==> r[k] == cells[k].(entity := e)
    ensures forall j :: j in cells && j != k ==> r[j] == cells[j]
  {
    if k in cells then cells[k := cells[k].(entity := e)] else cells
  }

  /** Sets the color of the cell at `k`, if that cell exists. */
  function WithColor(cells: map<Coord, GridCell>, k: Coord, color: Srgba): (r: map<Coord, GridCell>)
    ensures r.Keys == cells.Keys
    ensures k in cells ==> r[k] == cells[k].(color := color)
    ensures forall j :: j in cells && j != k ==> r[j] == cells[j]
  {
    if k in cells then cells[k := cells[k].(color := color)] else cells
  }

  /** Moves `e` from the cell at `from` to the cell at `to`: the old cell is emptied first. */
  function Moved(cells: map<Coord, GridCell>, e: Entity, to: Coord, from: Coord): (r: map<Coord, GridCell>)
    ensures r.Keys == cells.Keys
    ensures to in cells ==> r[to].entity == Some(e)
    ensures from in cells && from != to ==> r[from].entity == None
    ensures forall k :: k in cells ==> r[k].color == cells[k].color && r[k].properties == cells[k].properties
    ensures forall k :: k in cells && k != to && k != from ==> r[k] == cells[k]
  {
    WithEntity(WithEntity(cells, from, None), to, Some(e))
  }

  /** The nested loop of `Grid::new`: one default cell per `(x, y)` with `x < width`, `y < height`. */
  method NewCells(width: nat, height: nat) returns (cells: map<Coord, GridCell>)
    ensures IsDefaultRectangle(cells, width, height)
  {
    cells := map[];
    var x := 0;
    while x < width
      invariant x <= width
      invariant forall k :: k in cells <==> 0 <= k.0 < x && 0 <= k.1 < height
      invariant forall k :: k in cells ==> cells[k] == DefaultCell
    {
      var y := 0;
      while y < height
        invariant y <= height
        invariant forall k :: k in cells <==> (0 <= k.0 < x && 0 <= k.1 < height) || (k.0 == x && 0 <= k.1 < y)
        invariant forall k :: k in cells ==> cells[k] == DefaultCell
      {
        cells := cells[(x, y) := DefaultCell];
        y := y + 1;
      }
      x := x + 1;
    }
  }

  class Grid {
    const width: nat
    const height: nat
    const cellSize: CellSize
    var cells: map<Coord, GridCell>

    constructor (width: nat, height: nat, cellSize: CellSize)
      ensures this.width == width && this.height == height && this.cellSize == cellSize
      ensures IsDefaultRectangle(cells, width, height)
    {
      var rectangle := NewCells(width, height);
      this.width := width;
      this.height := height;
      this.cellSize := cellSize;
      cells := rectangle;
    }

    /** Replaces whatever is at `(x, y)` (present or not) with a fresh cell holding `entity`. */
    method InsertNew(x: int, y: int, entity: Entity)
      modifies this
      ensures cells == old(cells)[(x, y) := GridCell(Some(entity), Grey, DefaultProperties)]
    {
      cells := cells[(x, y) := GridCell(Some(entity), Grey, DefaultProperties)];
    }

    /** Looks a cell up; a missing key is an absent result, never an error. */
    function Get(x: int, y: int): (cell: Option<GridCell>)
      reads this
      ensures cell.Some? <==> (x, y) in cells
      ensures cell.Some? ==> cell.value == cells[(x, y)]
    {
      if (x, y) in cells then Some(cells[(x, y)]) else None
    }

    /** Removes the key `(x, y)` from the map altogether. */
    method ClearCell(x: int, y: int)
      modifies this
      ensures cells == old(cells) - {(x, y)}
      ensures Get(x, y) == None
    {
      cells := cells - {(x, y)};
    }

    method RemoveEntityFromCell(x: int, y: int)
      modifies this
      ensures cells == WithEntity(old(cells), (x, y), None)
    {
      if (x, y) in cells {
        cells := cells[(x, y) := cells[(x, y)].(entity := None)];
      }
    }

    method InsertEntityInCell(x: int, y: int, entity: Entity)
      modifies this
      ensures cells == WithEntity(old(cells), (x, y), Some(entity))
    {
      if (x, y) in cells {
        cells := cells[(x, y) := cells[(x, y)].(entity := Some(entity))];
      }
    }

    method UpdateEntityPosition(entity: Entity, newX: int, newY: int, oldX: int, oldY: int)
      modifies this
      ensures cells == Moved(old(cells), entity, (newX, newY), (oldX, oldY))
    {
      RemoveEntityFromCell(oldX, oldY);
      InsertEntityInCell(newX, newY, entity);
    }

    /** The cell containing a world position; the grid is centred on the world origin. */
    function WorldToGrid(worldPos: Vec3): Coord
    {
      var halfWidth := width as real * cellSize / 2.0;
      var halfHeight := height as real * cellSize / 2.0;
      (CellIndex(worldPos.x + halfWidth, cellSize), CellIndex(halfHeight - worldPos.y, cellSize))
    }

    /** The world position of the centre of a cell. */
    function GridToWorld(gridPos: Coord): Vec3
    {
      var halfWidth := width as real * cellSize / 2.0;
      var halfHeight := height as real * cellSize / 2.0;
      Vec3(gridPos.0 as real * cellSize - halfWidth + cellSize / 2.0,
           halfHeight - gridPos.1 as real * cellSize - cellSize / 2.0,
           0.0)
    }

    method ColorCell(x: int, y: int, color: Srgba)
      modifies this
      ensures cells == WithColor(old(cells), (x, y), color)
    {
      if (x, y) in cells {
        cells := cells[(x, y) := cells[(x, y)].(color := color)];
      }
    }
  }

  /** The index of the cell of size `cellSize` that an offset from the grid's edge falls in. */
  function CellIndex(offset: real, cellSize: CellSize): (n: int)
    ensures n as real * cellSize <= offset < (n as real + 1.0) * cellSize
  {
    FloorDivBounds(offset, cellSize);
    (offset / cellSize).Floor
  }

  /** Converting a cell's centre back to grid coordinates gives the cell. */
  lemma GridRoundTrip(grid: Grid, g: Coord)
    ensures grid.WorldToGrid(grid.GridToWorld(g)) == g
  {
    var hw := grid.width as real * grid.cellSize / 2.0;
    var hh := grid.height as real * grid.cellSize / 2.0;
    var p := grid.GridToWorld(g);
    CentreIndex(g.0, p.x + hw, grid.cellSize);
    CentreIndex(g.1, hh - p.y, grid.cellSize);
  }

  /** An offset at the middle of cell `n` has cell index `n`. */
  lemma CentreIndex(n: int, offset: real, cellSize: CellSize)
    requires offset == n as real * cellSize + cellSize / 2.0
    ensures CellIndex(offset, cellSize) == n
  {
    var m := CellIndex(offset, cellSize);
    if m < n {
      MulLe(m as real + 1.0, n as real, cellSize);
    } else if m > n {
      MulLe(n as real + 1.0, m as real, cellSize);
    }
  }

  /** `floor(o / d) * d <= o < (floor(o / d) + 1) * d` for a positive `d`. */
  lemma FloorDivBounds(o: real, d: real)
    requires d > 0.0
    ensures var n := (o / d).Floor; n as real * d <= o < (n as real + 1.0) * d
  {
    var u := o / d;
    var n := u.Floor;
    assert u * d == o;
    assert n as real <= u < n as real + 1.0;
    MulLe(n as real, u, d);
    MulLt(u, n as real + 1.0, d);
    assert o < (n as real + 1.0) * d;
  }

  /** Multiplying by a positive factor keeps a non-strict order. */
  lemma MulLe(a: real, b: real, d: real)
    requires a <= b && d > 0.0
    ensures a * d <= b * d
  {
    assert (b - a) * d >= 0.0;
  }

  /** Multiplying by a positive factor keeps a strict order. */
  lemma MulLt(a: real, b: real, d: real)
    requires a < b && d > 0.0
    ensures a * d < b * d
  {
    assert (b - a) * d > 0.0;
  }

  /**
   * Every world position lies in the square of the cell `WorldToGrid` returns:
   * within half a cell of that cell's centre (left and top edges included).
   */
  lemma WorldToGridContains(grid: Grid, p: Vec3)
    ensures var c := grid.GridToWorld(grid.WorldToGrid(p));
            && c.x - grid.cellSize / 2.0 <= p.x < c.x + grid.cellSize / 2.0
            && c.y - grid.cellSize / 2.0 < p.y <= c.y + grid.cellSize / 2.0
  {
  }

  /** A freshly built grid answers `None` exactly outside its rectangle. */
  lemma GetOutsideRectangle(grid: Grid, x: int, y: int)
    requires IsDefaultRectangle(grid.cells, grid.width, grid.height)
    ensures grid.Get(x, y).None? <==> !(0 <= x < grid.width && 0 <= y < grid.height)
    ensures grid.Get(x, y).Some? ==> grid.Get(x, y).value.entity == None
  {
    assert (x, y) in grid.cells <==> InRectangle((x, y), grid.width, grid.height);
  }

  /** The resource holding the cell the player was last seen in. */
  class PlayerGridPosition {
    var gridPosition: Coord

    constructor (gridPosition: Coord)
      ensures this.gridPosition == gridPosition
    {
      this.gridPosition := gridPosition;
    }
  }

  datatype PlayerGridChangeEvent = PlayerGridChangeEvent(entity: Entity, oldCell: Coord, newCell: Coord)

  /**
   * The change detection of `detect_grid_updates` over the players in query
   * order: the stored cell and the events sent.
   */
  function GridChanges(grid: Grid, stored: Coord, players: seq<PlayerPose>): (Coord, seq<PlayerGridChangeEvent>)
  {
    if players == [] then (stored, [])
    else
      var (s, events) := GridChanges(grid, stored, players[..|players| - 1]);
      var p := players[|players| - 1];
      var updated := grid.WorldToGrid(p.translation);
      if s != updated then (updated, events + [PlayerGridChangeEvent(p.entity, s, updated)])
      else (s, events)
  }

  /** The cell map after applying, in order, the moves the events describe. */
  function AppliedChanges(cells: map<Coord, GridCell>, events: seq<PlayerGridChangeEvent>): map<Coord, GridCell>
  {
    if events == [] then cells
    else
      var e := events[|events| - 1];
      Moved(AppliedChanges(cells, events[..|events| - 1]), e.entity, e.newCell, e.oldCell)
  }

  method DetectGridUpdates(grid: Grid, position: PlayerGridPosition, players: seq<PlayerPose>)
    returns (events: seq<PlayerGridChangeEvent>)
    modifies grid, position
    ensures (position.gridPosition, events) == GridChanges(grid, old(position.gridPosition), players)
    ensures grid.cells == AppliedChanges(old(grid.cells), events)
  {
    events := [];
    var i := 0;
    while i < |players|
      invariant i <= |players|
      invariant (position.gridPosition, events) == GridChanges(grid, old(position.gridPosition), players[..i])
      invariant grid.cells == AppliedChanges(old(grid.cells), events)
    {
      assert players[..i + 1][..i] == players[..i];
      var p := players[i];
      var updated := grid.WorldToGrid(p.translation);
      var previous := position.gridPosition;
      if previous != updated {
        ghost var before := events;
        events := events + [PlayerGridChangeEvent(p.entity, previous, updated)];
        assert events[..|events| - 1] == before;
        position.gridPosition := updated;
        grid.UpdateEntityPosition(p.entity, updated.0, updated.1, previous.0, previous.1);
      }
      i := i + 1;
    }
    assert players[..|players|] == players;
  }

  /**
   * The events form a chain of distinct consecutive cells starting at the
   * stored cell, and the stored cell always ends as the last player's cell.
   */
  lemma {:induction false} GridChangesChain(grid: Grid, stored: Coord, players: seq<PlayerPose>)
    ensures var (s, events) := GridChanges(grid, stored, players);
            && (forall i :: 0 <= i < |events| ==> events[i].oldCell != events[i].newCell)
            && (forall i :: 0 <= i < |events| - 1 ==> events[i].newCell == events[i + 1].oldCell)
            && (events == [] ==> s == stored)
            && (events != [] ==> events[0].oldCell == stored && s == events[|events| - 1].newCell)
            && (players != [] ==> s == grid.WorldToGrid(players[|players| - 1].translation))
  {
    if players != [] {
      GridChangesChain(grid, stored, players[..|players| - 1]);
    }
  }

  /** For one player: an event is sent, and the cell overwritten, exactly when the cell differs. */
  lemma GridChangeIffCellDiffers(grid: Grid, stored: Coord, p: PlayerPose)
    ensures var updated := grid.WorldToGrid(p.translation);
            var (s, events) := GridChanges(grid, stored, [p]);
            && s == updated
            && (events != [] <==> updated != stored)
            && (events != [] ==> events == [PlayerGridChangeEvent(p.entity, stored, updated)])
            && GridChanges(grid, s, [p]).1 == []
  {
    assert [p][..0] == [];
  }

  /**
   * The cell builder of `setup_grid`: row `y`, column `x` of the decoded
   * level becomes the cell `(x, y)` whose environment is the character's class.
   */
  method LevelCells(world: seq<string>) returns (cells: map<Coord, GridCell>)
    ensures forall k :: k in cells <==> 0 <= k.1 < |world| && 0 <= k.0 < |world[k.1]|
    ensures forall k :: k in cells ==>
              cells[k] == GridCell(None, Grey, DefaultProperties.(environment := EnvironmentFromChar(world[k.1][k.0])))
  {
    cells := map[];
    var y := 0;
    while y < |world|
      invariant y <= |world|
      invariant forall k :: k in cells <==> 0 <= k.1 < y && 0 <= k.0 < |world[k.1]|
      invariant forall k :: k in cells ==>
                  0 <= k.1 < y && 0 <= k.0 < |world[k.1]| &&
                  cells[k] == GridCell(None, Grey, DefaultProperties.(environment := EnvironmentFromChar(world[k.1][k.0])))
    {
      var row := world[y];
      var x := 0;
      while x < |row|
        invariant x <= |row|
        invariant forall k :: k in cells <==> (0 <= k.1 < y && 0 <= k.0 < |world[k.1]|) || (k.1 == y && 0 <= k.0 < x)
        invariant forall k :: k in cells ==>
                    0 <= k.1 <= y && 0 <= k.0 < |world[k.1]| &&
                    cells[k] == GridCell(None, Grey, DefaultProperties.(environment := EnvironmentFromChar(world[k.1][k.0])))
      {
        cells := cells[(x, y) := GridCell(None, Grey, DefaultProperties.(environment := EnvironmentFromChar(row[x])))];
        x := x + 1;
      }
      y := y + 1;
    }
  }
}
