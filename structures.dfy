/**
 * The frame of a structure (src/structures.rs): a structure owns a grid and
 * is placed in the world by its transform's translation alone. A world
 * position is converted to the structure's grid by subtracting the
 * translation, shifting by half a cell and handing the result to the grid's
 * own conversion; `GridToWorldPosition` goes the other way.
 */
module Structures {
  import opened Wrappers
  import opened Ecs
  import opened Grids

  class Structure {
    const grid: Grid

    constructor (grid: Grid)
      ensures this.grid == grid
    {
      this.grid := grid;
    }

    /** The position relative to the structure: adding the translation back gives the position. */
    function GetRelativePosition(worldPos: Vec3, transform: Transform): (r: Vec3)
      ensures r.Plus(transform.translation) == worldPos
    {
      worldPos.Minus(transform.translation)
    }

    /** Shifts half a cell right and half a cell down; the depth is kept. */
    function AdjustForGridOrigin(relativePos: Vec3): (r: Vec3)
      ensures r.Minus(relativePos) == Vec3(grid.cellSize / 2.0, -(grid.cellSize / 2.0), 0.0)
    {
      Vec3(relativePos.x + grid.cellSize / 2.0, relativePos.y - grid.cellSize / 2.0, relativePos.z)
    }

    /**
     * The cell of the structure's grid a world position falls in. Relative
     * to the translation, cell `g` spans `[g.0 * cs - hw - cs/2, (g.0 + 1) * cs - hw - cs/2)`
     * horizontally and `(hh + cs/2 - (g.1 + 1) * cs, hh + cs/2 - g.1 * cs]` vertically.
     */
    function WorldToGrid(worldPos: Vec3, transform: Transform): (g: Coord)
      ensures var rel := worldPos.Minus(transform.translation);
              var hw := grid.width as real * grid.cellSize / 2.0;
              var hh := grid.height as real * grid.cellSize / 2.0;
              && g.0 as real * grid.cellSize <= rel.x + grid.cellSize / 2.0 + hw < (g.0 as real + 1.0) * grid.cellSize
              && g.1 as real * grid.cellSize <= hh - (rel.y - grid.cellSize / 2.0) < (g.1 as real + 1.0) * grid.cellSize
    {
      var relativePos := GetRelativePosition(worldPos, transform);
      var adjustedPos := AdjustForGridOrigin(relativePos);
      grid.WorldToGrid(adjustedPos)
    }

    /** Whether grid coordinates name a cell of the grid's rectangle. */
    predicate IsWithinGridBounds(x: int, y: int)
    {
      0 <= x < grid.width && 0 <= y < grid.height
    }

    /** Whether a world position falls on the grid, computed along the same path as `WorldToGrid`. */
    predicate IsWorldPositionWithinGrid(worldPos: Vec3, transform: Transform)
      ensures IsWorldPositionWithinGrid(worldPos, transform) <==>
              var g := WorldToGrid(worldPos, transform); IsWithinGridBounds(g.0, g.1)
    {
      var relativePos := GetRelativePosition(worldPos, transform);
      var adjustedPos := AdjustForGridOrigin(relativePos);
      var g := grid.WorldToGrid(adjustedPos);
      IsWithinGridBounds(g.0, g.1)
    }

    /**
     * The world position of a cell's top-left corner, moved by the
     * translation. The depth is the translation's depth added to itself.
     */
    function GridToWorldPosition(gridPos: Coord, transform: Transform): (r: Vec3)
      ensures r.z == 2.0 * transform.translation.z
      ensures r.Minus(transform.translation).x == grid.GridToWorld(gridPos).x - grid.cellSize / 2.0
      ensures r.Minus(transform.translation).y == grid.GridToWorld(gridPos).y + grid.cellSize / 2.0
    {
      var halfWidth := grid.width as real * grid.cellSize / 2.0;
      var halfHeight := grid.height as real * grid.cellSize / 2.0;
      Vec3(gridPos.0 as real * grid.cellSize - halfWidth,
           halfHeight - gridPos.1 as real * grid.cellSize,
           transform.translation.z).Plus(transform.translation)
    }
  }

  /** Grid coordinates are within bounds exactly when they are a key of a freshly built grid. */
  lemma BoundsAreFreshKeys(s: Structure, x: int, y: int)
    requires IsDefaultRectangle(s.grid.cells, s.grid.width, s.grid.height)
    ensures s.IsWithinGridBounds(x, y) <==> (x, y) in s.grid.cells
  {
    assert (x, y) in s.grid.cells <==> InRectangle((x, y), s.grid.width, s.grid.height);
  }

  /**
   * Round trip: the half-cell shift of `AdjustForGridOrigin` cancels the
   * corner offset of `GridToWorldPosition`, for every cell and translation.
   */
  lemma StructureRoundTrip(s: Structure, g: Coord, t: Transform)
    ensures s.WorldToGrid(s.GridToWorldPosition(g, t), t) == g
  {
    var hw := s.grid.width as real * s.grid.cellSize / 2.0;
    var hh := s.grid.height as real * s.grid.cellSize / 2.0;
    var adjusted := s.AdjustForGridOrigin(s.GetRelativePosition(s.GridToWorldPosition(g, t), t));
    CentreIndex(g.0, adjusted.x + hw, s.grid.cellSize);
    CentreIndex(g.1, hh - adjusted.y, s.grid.cellSize);
  }

  /** Moving a position and the structure by the same vector leaves the cell unchanged. */
  lemma TranslationInvariance(s: Structure, p: Vec3, t: Transform, d: Vec3)
    ensures s.WorldToGrid(p.Plus(d), Transform(t.translation.Plus(d))) == s.WorldToGrid(p, t)
    ensures s.IsWorldPositionWithinGrid(p.Plus(d), Transform(t.translation.Plus(d)))
            == s.IsWorldPositionWithinGrid(p, t)
  {
    assert p.Plus(d).Minus(t.translation.Plus(d)) == p.Minus(t.translation);
  }

  /** A cell index `n` of an offset `o` lies in `[0, k)` exactly when `o` lies in `[0, k * d)`. */
  lemma IndexRange(n: int, o: real, d: real, k: nat)
    requires d > 0.0 && n as real * d <= o < (n as real + 1.0) * d
    ensures 0 <= n < k <==> 0.0 <= o < k as real * d
  {
    if n < 0 {
      MulLe(n as real + 1.0, 0.0, d);
    } else {
      MulLe(0.0, n as real, d);
    }
    if n < k {
      MulLe(n as real + 1.0, k as real, d);
    } else {
      MulLe(k as real, n as real, d);
    }
  }

  /**
   * A world position is within the grid exactly when, relative to the
   * translation, it lies in the grid's rectangle moved half a cell left and
   * half a cell up (left and top edges included).
   */
  lemma WithinGridIsRectangle(s: Structure, p: Vec3, t: Transform)
    ensures var rel := p.Minus(t.translation);
            var hw := s.grid.width as real * s.grid.cellSize / 2.0;
            var hh := s.grid.height as real * s.grid.cellSize / 2.0;
            s.IsWorldPositionWithinGrid(p, t) <==>
              && -hw - s.grid.cellSize / 2.0 <= rel.x < hw - s.grid.cellSize / 2.0
              && -hh + s.grid.cellSize / 2.0 < rel.y <= hh + s.grid.cellSize / 2.0
  {
    var rel := p.Minus(t.translation);
    var hw := s.grid.width as real * s.grid.cellSize / 2.0;
    var hh := s.grid.height as real * s.grid.cellSize / 2.0;
    var g := s.WorldToGrid(p, t);
    IndexRange(g.0, rel.x + s.grid.cellSize / 2.0 + hw, s.grid.cellSize, s.grid.width);
    IndexRange(g.1, hh - (rel.y - s.grid.cellSize / 2.0), s.grid.cellSize, s.grid.height);
  }

  /** The state the player systems share: the structure the player is in, and whether they steer one. */
  class PlayerResource {
    var insideStructure: Option<Entity>
    var isControllingStructure: bool

    constructor ()
      ensures insideStructure == None && !isControllingStructure
    {
      insideStructure := None;
      isControllingStructure := false;
    }
  }

  /**
   * One row of the structure query: the entity, its `Structure` component,
   * its transform, its children, and whether it carries a `ControlledByPlayer`
   * component (and for which player).
   */
  class StructureEntity {
    const id: Entity
    const structure: Structure
    const transform: Transform
    const children: seq<Entity>
    var controlledBy: Option<Entity>

    constructor (id: Entity, structure: Structure, transform: Transform, children: seq<Entity>)
      ensures this.id == id && this.structure == structure && this.transform == transform
      ensures this.children == children && controlledBy == None
    {
      this.id := id;
      this.structure := structure;
      this.transform := transform;
      this.children := children;
      controlledBy := None;
    }
  }
}
