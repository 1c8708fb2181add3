/**
 * The layout loop of `setup_structures_from_file` (src/structures.rs): a
 * decoded layout, one string per row, becomes a structure whose grid is as
 * wide as the first row's length in UTF-8 bytes and as high as the row
 * count, plus one module per
 * `'E'`, `'W'` or `'C'` character, placed at the centre of its cell.
 */
module StructureLayout {
  import opened Wrappers
  import opened Ecs
  import Grids
  import opened Modules
  import opened Structures

  /** Every structure built from a layout uses cells 50 world units wide. */
  const StructureCellSize: Grids.CellSize := 50.0

  /** Modules are drawn at 97% of their cell. */
  const MeshScaleFactor: real := 0.97

  const Red := Grids.Srgba(1.0, 0.0, 0.0)
  const Blue := Grids.Srgba(0.0, 0.0, 1.0)
  const CssGrey := Grids.Srgba(128.0 / 255.0, 128.0 / 255.0, 128.0 / 255.0)

  /** Where every structure is placed. */
  const StructureTranslation := Vec3(500.0, 200.0, 1.0)

  /** The arguments of one `spawn_module` call. */
  datatype ModuleSpawn = ModuleSpawn(
    moduleType: ModuleType,
    color: Grids.Srgba,
    gridPos: Coord,
    translation: Vec3,
    cellSize: real,
    meshScale: real,
    interactable: bool)

  /** Indexing the first row of an empty layout fails. */
  datatype LayoutError = EmptyLayout

  /** A built structure: its component, the module spawns, the `insert` calls made on its grid, and its bundle. */
  datatype BuiltStructure = BuiltStructure(
    structure: Structure,
    spawns: seq<ModuleSpawn>,
    gridInserts: seq<(int, int)>,
    transform: Transform,
    colliderWidth: real,
    colliderHeight: real)

  /** The layout characters that spawn a module; every other character is skipped. */
  function ModuleTypeOf(c: char): (m: Option<ModuleType>)
    ensures m == Some(Engine) <==> c == 'E'
    ensures m == Some(Wall) <==> c == 'W'
    ensures m == Some(CommandCenter) <==> c == 'C'
    ensures m.None? <==> c != 'E' && c != 'W' && c != 'C'
  {
    match c
    case 'E' => Some(Engine)
    case 'W' => Some(Wall)
    case 'C' => Some(CommandCenter)
    case _ => None
  }

  /** The number of bytes UTF-8 encodes a character in. */
  function Utf8Width(c: char): (n: nat)
    ensures 1 <= n <= 4
    ensures n == 1 <==> (c as int) < 0x80
  {
    if (c as int) < 0x80 then 1
    else if (c as int) < 0x800 then 2
    else if (c as int) < 0x1_0000 then 3
    else 4
  }

  /** The length of a string in UTF-8 bytes, which is what a string's `len` gives. */
  function Utf8Length(s: string): (n: nat)
    ensures n >= |s|
  {
    if s == [] then 0 else Utf8Length(s[..|s| - 1]) + Utf8Width(s[|s| - 1])
  }

  /** The byte length equals the character count exactly for an ASCII string. */
  lemma {:induction false} Utf8LengthIsCountIffAscii(s: string)
    ensures Utf8Length(s) == |s| <==> forall i :: 0 <= i < |s| ==> (s[i] as int) < 0x80
  {
    if s != [] {
      var prefix := s[..|s| - 1];
      Utf8LengthIsCountIffAscii(prefix);
      assert forall i :: 0 <= i < |prefix| ==> prefix[i] == s[i];
    }
  }

  /**
   * The spawn for character `c` at column `x` of row `y` in a layout of
   * `gridWidth` by `gridHeight` cells: engines are red, walls grey and the
   * command center blue; only the command center is interactable and sits
   * below the structure's plane.
   */
  function SpawnAt(c: char, x: nat, y: nat, gridWidth: real, gridHeight: real): Option<ModuleSpawn>
  {
    var xTranslation := (x as real - gridWidth / 2.0) * StructureCellSize + StructureCellSize / 2.0;
    var yTranslation := (gridHeight / 2.0 - y as real) * StructureCellSize - StructureCellSize / 2.0;
    match c
    case 'E' => Some(ModuleSpawn(Engine, Red, (x, y), Vec3(xTranslation, yTranslation, 1.0),
                                 StructureCellSize, MeshScaleFactor, false))
    case 'W' => Some(ModuleSpawn(Wall, CssGrey, (x, y), Vec3(xTranslation, yTranslation, 1.0),
                                 StructureCellSize, MeshScaleFactor, false))
    case 'C' => Some(ModuleSpawn(CommandCenter, Blue, (x, y), Vec3(xTranslation, yTranslation, -1.0),
                                 StructureCellSize, MeshScaleFactor, true))
    case _ => None
  }

  /** The spawn as a sequence of zero or one element. */
  function SpawnSeq(o: Option<ModuleSpawn>): seq<ModuleSpawn> {
    if o.Some? then [o.value] else []
  }

  /** The spawns of row `y`, left to right. */
  function RowSpawns(row: string, y: nat, gridWidth: real, gridHeight: real): seq<ModuleSpawn>
  {
    if row == [] then []
    else RowSpawns(row[..|row| - 1], y, gridWidth, gridHeight)
         + SpawnSeq(SpawnAt(row[|row| - 1], |row| - 1, y, gridWidth, gridHeight))
  }

  /** The spawns of a whole layout, row by row. */
  function LayoutSpawns(rows: seq<string>, gridWidth: real, gridHeight: real): seq<ModuleSpawn>
  {
    if rows == [] then []
    else LayoutSpawns(rows[..|rows| - 1], gridWidth, gridHeight)
         + RowSpawns(rows[|rows| - 1], |rows| - 1, gridWidth, gridHeight)
  }

  /** The grid cells that hold a spawn. */
  function SpawnPositions(spawns: seq<ModuleSpawn>): set<Coord> {
    set i | 0 <= i < |spawns| :: spawns[i].gridPos
  }

  /** Row-major order: by row, then by column. */
  predicate RowMajorBefore(a: Coord, b: Coord) {
    a.1 < b.1 || (a.1 == b.1 && a.0 < b.0)
  }

  /** A spawn exists exactly for the module characters, and is the one its character calls for. */
  lemma SpawnAtModuleChars(c: char, x: nat, y: nat, gridWidth: real, gridHeight: real)
    ensures SpawnAt(c, x, y, gridWidth, gridHeight).Some? <==> ModuleTypeOf(c).Some?
    ensures SpawnAt(c, x, y, gridWidth, gridHeight).Some? ==>
              var s := SpawnAt(c, x, y, gridWidth, gridHeight).value;
              && s.moduleType == ModuleTypeOf(c).value
              && s.gridPos == (x, y)
              && (s.interactable <==> s.moduleType == CommandCenter)
              && s.translation.z == (if s.moduleType == CommandCenter then -1.0 else 1.0)
  {
  }

  /**
   * The spawns of a row: one per module character, in column order, each
   * the spawn of its own character.
   */
  lemma {:induction false} RowSpawnsExact(row: string, y: nat, gridWidth: real, gridHeight: real)
    ensures var spawns := RowSpawns(row, y, gridWidth, gridHeight);
            && (forall i :: 0 <= i < |spawns| ==>
                  && spawns[i].gridPos.1 == y
                  && 0 <= spawns[i].gridPos.0 < |row|
                  && SpawnAt(row[spawns[i].gridPos.0], spawns[i].gridPos.0, y, gridWidth, gridHeight) == Some(spawns[i]))
            && (forall i, j :: 0 <= i < j < |spawns| ==> spawns[i].gridPos.0 < spawns[j].gridPos.0)
            && (forall x :: 0 <= x < |row| && ModuleTypeOf(row[x]).Some? ==> (x, y) in SpawnPositions(spawns))
  {
    if row != [] {
      var prefix := row[..|row| - 1];
      RowSpawnsExact(prefix, y, gridWidth, gridHeight);
      var before := RowSpawns(prefix, y, gridWidth, gridHeight);
      var last := SpawnAt(row[|row| - 1], |row| - 1, y, gridWidth, gridHeight);
      var spawns := RowSpawns(row, y, gridWidth, gridHeight);
      assert spawns == before + SpawnSeq(last);
      forall i | 0 <= i < |before|
        ensures 0 <= before[i].gridPos.0 < |prefix| && row[before[i].gridPos.0] == prefix[before[i].gridPos.0]
      {
        assert 0 <= RowSpawns(prefix, y, gridWidth, gridHeight)[i].gridPos.0 < |prefix|;
      }
      forall x | 0 <= x < |row| && ModuleTypeOf(row[x]).Some?
        ensures (x, y) in SpawnPositions(spawns)
      {
        if x < |row| - 1 {
          assert row[x] == prefix[x];
          var i :| 0 <= i < |before| && before[i].gridPos == (x, y);
          assert spawns[i] == before[i];
        } else {
          SpawnAtModuleChars(row[x], x, y, gridWidth, gridHeight);
          assert spawns[|spawns| - 1].gridPos == (x, y);
        }
      }
    }
  }

  /** A spawn taken from the layout: its cell is in the layout and holds the character it was spawned for. */
  predicate FromLayout(rows: seq<string>, sp: ModuleSpawn, gridWidth: real, gridHeight: real) {
    var (x, y) := sp.gridPos;
    && 0 <= y < |rows| && 0 <= x < |rows[y]|
    && SpawnAt(rows[y][x], x, y, gridWidth, gridHeight) == Some(sp)
  }

  /** Every spawn of a layout comes from a module character of the layout. */
  lemma {:induction false} LayoutSpawnsFromLayout(rows: seq<string>, gridWidth: real, gridHeight: real)
    ensures forall sp :: sp in LayoutSpawns(rows, gridWidth, gridHeight) ==> FromLayout(rows, sp, gridWidth, gridHeight)
  {
    if rows != [] {
      var prefix := rows[..|rows| - 1];
      var y := |rows| - 1;
      LayoutSpawnsFromLayout(prefix, gridWidth, gridHeight);
      RowSpawnsExact(rows[y], y, gridWidth, gridHeight);
      var before := LayoutSpawns(prefix, gridWidth, gridHeight);
      var row := RowSpawns(rows[y], y, gridWidth, gridHeight);
      assert LayoutSpawns(rows, gridWidth, gridHeight) == before + row;
      forall sp | sp in LayoutSpawns(rows, gridWidth, gridHeight)
        ensures FromLayout(rows, sp, gridWidth, gridHeight)
      {
        if sp in before {
          assert FromLayout(prefix, sp, gridWidth, gridHeight);
          assert rows[sp.gridPos.1] == prefix[sp.gridPos.1];
        } else {
          assert sp in row;
          var i :| 0 <= i < |row| && row[i] == sp;
          assert sp.gridPos.1 == y && 0 <= sp.gridPos.0 < |rows[y]|;
          assert SpawnAt(rows[y][sp.gridPos.0], sp.gridPos.0, y, gridWidth, gridHeight) == Some(sp);
        }
      }
    }
  }

  /** The spawns of a layout are in row-major order, so no cell is spawned twice. */
  lemma {:induction false} LayoutSpawnsOrdered(rows: seq<string>, gridWidth: real, gridHeight: real)
    ensures forall i, j :: 0 <= i < j < |LayoutSpawns(rows, gridWidth, gridHeight)| ==>
              RowMajorBefore(LayoutSpawns(rows, gridWidth, gridHeight)[i].gridPos,
                             LayoutSpawns(rows, gridWidth, gridHeight)[j].gridPos)
  {
    if rows != [] {
      var prefix := rows[..|rows| - 1];
      var y := |rows| - 1;
      LayoutSpawnsOrdered(prefix, gridWidth, gridHeight);
      LayoutSpawnsFromLayout(prefix, gridWidth, gridHeight);
      RowSpawnsExact(rows[y], y, gridWidth, gridHeight);
      var before := LayoutSpawns(prefix, gridWidth, gridHeight);
      var row := RowSpawns(rows[y], y, gridWidth, gridHeight);
      var spawns := LayoutSpawns(rows, gridWidth, gridHeight);
      assert spawns == before + row;
      forall i, j | 0 <= i < j < |spawns|
        ensures RowMajorBefore(spawns[i].gridPos, spawns[j].gridPos)
      {
        if j >= |before| && i < |before| {
          assert spawns[i] == before[i] && before[i] in before;
          assert FromLayout(prefix, before[i], gridWidth, gridHeight);
          assert before[i].gridPos.1 < y;
          assert spawns[j] == row[j - |before|];
          assert row[j - |before|].gridPos.1 == y;
        } else if i >= |before| {
          assert spawns[i] == row[i - |before|];
          assert spawns[j] == row[j - |before|];
          assert row[i - |before|].gridPos.0 < row[j - |before|].gridPos.0;
          assert row[i - |before|].gridPos.1 == y == row[j - |before|].gridPos.1;
        } else {
          assert spawns[i] == before[i] && spawns[j] == before[j];
          assert RowMajorBefore(before[i].gridPos, before[j].gridPos);
        }
      }
    }
  }

  /** Every module character of a layout is spawned. */
  lemma {:induction false} LayoutSpawnsComplete(rows: seq<string>, gridWidth: real, gridHeight: real)
    ensures forall x, y :: 0 <= y < |rows| && 0 <= x < |rows[y]| && ModuleTypeOf(rows[y][x]).Some? ==>
              (x, y) in SpawnPositions(LayoutSpawns(rows, gridWidth, gridHeight))
  {
    if rows != [] {
      var prefix := rows[..|rows| - 1];
      var y := |rows| - 1;
      LayoutSpawnsComplete(prefix, gridWidth, gridHeight);
      RowSpawnsExact(rows[y], y, gridWidth, gridHeight);
      var before := LayoutSpawns(prefix, gridWidth, gridHeight);
      var row := RowSpawns(rows[y], y, gridWidth, gridHeight);
      var spawns := LayoutSpawns(rows, gridWidth, gridHeight);
      assert spawns == before + row;
      forall x, y' | 0 <= y' < |rows| && 0 <= x < |rows[y']| && ModuleTypeOf(rows[y'][x]).Some?
        ensures (x, y') in SpawnPositions(spawns)
      {
        if y' < y {
          assert rows[y'] == prefix[y'];
          assert (x, y') in SpawnPositions(before);
          var i :| 0 <= i < |before| && before[i].gridPos == (x, y');
          assert spawns[i] == before[i];
        } else {
          assert (x, y') in SpawnPositions(row);
          var i :| 0 <= i < |row| && row[i].gridPos == (x, y');
          assert spawns[|before| + i] == row[i];
        }
      }
    }
  }

  /**
   * Each module's translation is the centre of its own cell in the
   * structure's grid, so converting it back gives its grid position.
   */
  lemma SpawnSitsInItsCell(grid: Grids.Grid, c: char, x: nat, y: nat)
    requires grid.cellSize == StructureCellSize
    requires SpawnAt(c, x, y, grid.width as real, grid.height as real).Some?
    ensures var s := SpawnAt(c, x, y, grid.width as real, grid.height as real).value;
            && s.translation.x == grid.GridToWorld((x, y)).x
            && s.translation.y == grid.GridToWorld((x, y)).y
            && grid.WorldToGrid(s.translation) == (x, y)
  {
    var s := SpawnAt(c, x, y, grid.width as real, grid.height as real).value;
    var centre := grid.GridToWorld((x, y));
    assert s.translation == Vec3(centre.x, centre.y, s.translation.z);
    Grids.GridRoundTrip(grid, (x, y));
  }

  /**
   * When every row has as many characters as the first, every spawned module
   * lies within the bounds of the grid built for the layout, whose width is
   * the first row's byte length.
   */
  lemma RectangularLayoutInBounds(s: Structure, rows: seq<string>, gridWidth: real, gridHeight: real)
    requires s.grid.width == (if rows == [] then 0 else Utf8Length(rows[0])) && s.grid.height == |rows|
    requires forall y :: 0 <= y < |rows| ==> |rows[y]| == |rows[0]|
    ensures forall sp :: sp in LayoutSpawns(rows, gridWidth, gridHeight) ==>
              s.IsWithinGridBounds(sp.gridPos.0, sp.gridPos.1)
  {
    LayoutSpawnsFromLayout(rows, gridWidth, gridHeight);
  }

  /**
   * The module loop of the layout: the spawns, row by row and left to right,
   * and the grid `insert` call each spawn makes, with its coordinates in
   * `(y, x)` order.
   */
  method SpawnModules(rows: seq<string>, gridWidth: real, gridHeight: real)
    returns (spawns: seq<ModuleSpawn>, inserts: seq<(int, int)>)
    ensures spawns == LayoutSpawns(rows, gridWidth, gridHeight)
    ensures |inserts| == |spawns|
    ensures forall i :: 0 <= i < |spawns| ==> inserts[i] == (spawns[i].gridPos.1, spawns[i].gridPos.0)
  {
    spawns := [];
    inserts := [];
    var y := 0;
    while y < |rows|
      invariant y <= |rows|
      invariant spawns == LayoutSpawns(rows[..y], gridWidth, gridHeight)
      invariant |inserts| == |spawns|
      invariant forall i :: 0 <= i < |spawns| ==> inserts[i] == (spawns[i].gridPos.1, spawns[i].gridPos.0)
    {
      var row := rows[y];
      var x := 0;
      while x < |row|
        invariant x <= |row|
        invariant spawns == LayoutSpawns(rows[..y], gridWidth, gridHeight) + RowSpawns(row[..x], y, gridWidth, gridHeight)
        invariant |inserts| == |spawns|
        invariant forall i :: 0 <= i < |spawns| ==> inserts[i] == (spawns[i].gridPos.1, spawns[i].gridPos.0)
      {
        assert row[..x + 1][..x] == row[..x];
        var spawn := SpawnAt(row[x], x, y, gridWidth, gridHeight);
        if spawn.Some? {
          SpawnAtModuleChars(row[x], x, y, gridWidth, gridHeight);
          spawns := spawns + [spawn.value];
          inserts := inserts + [(y, x)];
        }
        x := x + 1;
      }
      assert row[..|row|] == row;
      assert rows[..y + 1][..y] == rows[..y];
      y := y + 1;
    }
    assert rows[..|rows|] == rows;
  }

  /**
   * Builds one structure from a decoded layout: fails only on an empty
   * layout; otherwise the grid is a fresh rectangle as wide as the first
   * row's byte length and as high as the row count, column positions count
   * characters, the spawns are the layout's, and the grid's `insert`
   * receives every spawned cell with its coordinates in `(y, x)` order.
   */
  method SetupStructure(rows: seq<string>) returns (r: Result<BuiltStructure, LayoutError>)
    ensures r.Failure? <==> rows == []
    ensures r.Success? ==>
              var b := r.value;
              var gridWidth := Utf8Length(rows[0]);
              var gridHeight := |rows|;
              && fresh(b.structure) && fresh(b.structure.grid)
              && b.structure.grid.width == gridWidth && b.structure.grid.height == gridHeight
              && b.structure.grid.cellSize == StructureCellSize
              && Grids.IsDefaultRectangle(b.structure.grid.cells, gridWidth, gridHeight)
              && b.spawns == LayoutSpawns(rows, gridWidth as real, gridHeight as real)
              && |b.gridInserts| == |b.spawns|
              && (forall i :: 0 <= i < |b.spawns| ==> b.gridInserts[i] == (b.spawns[i].gridPos.1, b.spawns[i].gridPos.0))
              && b.transform == Transform(StructureTranslation)
              && b.colliderWidth == gridWidth as real * StructureCellSize
              && b.colliderHeight == gridHeight as real * StructureCellSize
  {
    if rows == [] {
      return Failure(EmptyLayout);
    }
    var width := Utf8Length(rows[0]);
    var gridWidth := width as real;
    var gridHeight := |rows| as real;
    var grid := new Grids.Grid(width, |rows|, StructureCellSize);
    var structure := new Structure(grid);
    var spawns, inserts := SpawnModules(rows, gridWidth, gridHeight);
    r := Success(BuiltStructure(structure, spawns, inserts, Transform(StructureTranslation),
                                gridWidth * StructureCellSize, gridHeight * StructureCellSize));
  }
}
