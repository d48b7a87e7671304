/** The earlier wall extractor of the build scene (Build/GridWalls.cs). Every
    tiled cell looks at all four neighbours, the grid border included, and a
    wall is put up only from the solid side of a solid/non-solid boundary.
    Segment positions are not modelled: a segment is recorded by the cell
    and side it stands on, its part of the side and its length. */
module BuildWalls {
  import opened Common
  import opened Zones
  import opened Grid

  /** A whole-side wall, or the piece left or right of a door gap. */
  datatype Part = Whole | LeftOfDoor | RightOfDoor

  /** One call of AddWallSegment: the cell, the side (an index into N4:
      +X, -X, +Y, -Y), the part and the length. */
  datatype Segment = Segment(cell: Cell, side: int, part: Part, length: real)

  /** The inspector parameters, with the defaults in DefaultParams. */
  datatype WallParams = WallParams(
    wallHeight: real,
    wallThickness: real,
    buildOnAwake: bool,
    autoDoors: bool,
    doorWidthM: real,
    corridorType: ZoneType)

  const DefaultParams: WallParams := WallParams(2.4, 0.08, true, true, 0.9, Corridor)

  /** The built mesh: the segments it extrudes and its quad count. */
  datatype WallMesh = WallMesh(segments: seq<Segment>, quads: nat)

  // ---------------------------------------------------------------------
  // Side classification

  /** Inside the grid, with a tile whose zone is neither None nor the
      corridor zone. */
  predicate IsSolid(v: GridView, c: Cell, corridor: ZoneType)
    requires v.Wf()
  {
    v.At(c).Tile? && v.At(c).zone != None && v.At(c).zone != corridor
  }

  /** Inside the grid, with a tile of the corridor zone. */
  predicate IsCorridor(v: GridView, c: Cell, corridor: ZoneType)
    requires v.Wf()
  {
    v.At(c) == Tile(corridor)
  }

  /** The door gap: the requested width clamped to [0.4, 0.9 cs]. */
  function DoorWidth(p: WallParams, cs: real): (w: real)
    ensures 0.4 <= cs * 0.9 ==> 0.4 <= w <= cs * 0.9
    ensures 0.4 <= p.doorWidthM <= cs * 0.9 ==> w == p.doorWidthM
    ensures cs > 0.0 && 0.4 < cs * 0.95 ==> w < cs * 0.95
  {
    ClampReal(p.doorWidthM, 0.4, cs * 0.9)
  }

  /** The door test as written: doors on, the cell solid, and either side
      corridor. */
  predicate HasDoor(v: GridView, p: WallParams, c: Cell, k: int)
    requires v.Wf() && 0 <= k < 4
  {
    p.autoDoors && (IsSolid(v, c, p.corridorType)
      && (IsCorridor(v, Step(c, k), p.corridorType) || IsCorridor(v, c, p.corridorType)))
  }

  /** A solid cell is never a corridor, so on a side that is walled the door
      test reduces to "doors on and the neighbour is corridor". */
  lemma DoorMeansCorridorNeighbour(v: GridView, p: WallParams, c: Cell, k: int)
    requires v.Wf() && 0 <= k < 4 && IsSolid(v, c, p.corridorType)
    ensures HasDoor(v, p, c, k) <==> p.autoDoors && IsCorridor(v, Step(c, k), p.corridorType)
  {
  }

  /** A door side is split into two pieces only when the gap is narrower
      than 0.95 of the side. */
  predicate Split(v: GridView, p: WallParams, c: Cell, k: int)
    requires v.Wf() && 0 <= k < 4
  {
    HasDoor(v, p, c, k) && DoorWidth(p, v.cellSize) < v.cellSize * 0.95
  }

  /** TryEdge: the segments one side of a cell contributes. Nothing unless
      the cell is solid and the neighbour is not; then one whole segment of
      the cell's length, or, when split at a door, equal left and right
      pieces that are emitted together when longer than 0.01 and fill the
      side less the gap. */
  function EdgeSegments(v: GridView, p: WallParams, c: Cell, k: int): (r: seq<Segment>)
    requires v.Wf() && 0 <= k < 4
    ensures forall s :: s in r ==> s.cell == c && s.side == k
    ensures r != [] ==> IsSolid(v, c, p.corridorType) && !IsSolid(v, Step(c, k), p.corridorType)
    ensures IsSolid(v, c, p.corridorType) && !IsSolid(v, Step(c, k), p.corridorType) && !Split(v, p, c, k) ==>
              r == [Segment(c, k, Whole, v.cellSize)]
    ensures Split(v, p, c, k) && IsSolid(v, c, p.corridorType) && !IsSolid(v, Step(c, k), p.corridorType) ==>
              (|r| == 0 || |r| == 2) && (|r| == 2 <==> PieceLength(v.cellSize, DoorWidth(p, v.cellSize)) > 0.01)
    ensures |r| == 2 ==>
              && Split(v, p, c, k)
              && r[0].part == LeftOfDoor && r[1].part == RightOfDoor
              && r[0].length == r[1].length > 0.01
              && r[0].length + r[1].length == v.cellSize - DoorWidth(p, v.cellSize)
  {
    if !(IsSolid(v, c, p.corridorType) && !IsSolid(v, Step(c, k), p.corridorType)) then []
    else if Split(v, p, c, k) then
      var len := PieceLength(v.cellSize, DoorWidth(p, v.cellSize));
      (if len > 0.01 then [Segment(c, k, LeftOfDoor, len)] else [])
      + (if len > 0.01 then [Segment(c, k, RightOfDoor, len)] else [])
    else [Segment(c, k, Whole, v.cellSize)]
  }

  // ---------------------------------------------------------------------
  // The whole pass: x outer, y inner, sides in N4 order, empty slots skipped

  /** The segments emitted before the pass reaches cell (x, y): all of
      columns 0 .. x-1, then cells (x, 0) .. (x, y-1), a cell without a tile
      being skipped. */
  function Before(v: GridView, p: WallParams, x: nat, y: nat): seq<Segment>
    requires v.Wf()
    decreases x, y, 0
  {
    if y == 0 then (if x == 0 then [] else Before(v, p, x - 1, v.rows))
    else if v.At(Cell(x, y - 1)) == NoTile then Before(v, p, x, y - 1)
    else Emitted(v, p, x, y - 1, 4)
  }

  /** The segments emitted before side k of cell (x, y) is examined. */
  function Emitted(v: GridView, p: WallParams, x: nat, y: nat, k: nat): seq<Segment>
    requires v.Wf() && k <= 4
    decreases x, y, 1 + k
  {
    if k == 0 then Before(v, p, x, y) else Emitted(v, p, x, y, k - 1) + EdgeSegments(v, p, Cell(x, y), k - 1)
  }

  /** Every segment of a rebuild, in emission order. */
  function Walls(v: GridView, p: WallParams): seq<Segment>
    requires v.Wf()
  {
    Before(v, p, v.cols, 0)
  }

  /** Cell c comes before cell (x, y) in the pass: an earlier column, or an
      earlier row of column x. */
  predicate Earlier(v: GridView, c: Cell, x: int, y: int)
  {
    (0 <= c.x < x && 0 <= c.y < v.rows) || (c.x == x && 0 <= c.y < y)
  }

  /** A segment emitted before cell (x, y) comes from a side of an earlier
      cell, and every segment such a side produces is there. */
  lemma {:induction false} BeforeMembers(v: GridView, p: WallParams, x: nat, y: nat, s: Segment)
    requires v.Wf() && y <= v.rows
    ensures s in Before(v, p, x, y) <==>
              Earlier(v, s.cell, x, y) && 0 <= s.side < 4 && s in EdgeSegments(v, p, s.cell, s.side)
    decreases x, y, 0
  {
    if y == 0 {
      if x > 0 {
        BeforeMembers(v, p, x - 1, v.rows, s);
      }
    } else if v.At(Cell(x, y - 1)) == NoTile {
      BeforeMembers(v, p, x, y - 1, s);
      if 0 <= s.side < 4 && s.cell == Cell(x, y - 1) {
        assert EdgeSegments(v, p, s.cell, s.side) == [];
      }
    } else {
      EmittedMembers(v, p, x, y - 1, 4, s);
    }
  }

  lemma {:induction false} EmittedMembers(v: GridView, p: WallParams, x: nat, y: nat, k: nat, s: Segment)
    requires v.Wf() && y < v.rows && k <= 4
    ensures s in Emitted(v, p, x, y, k) <==>
              && (Earlier(v, s.cell, x, y) || (s.cell == Cell(x, y) && s.side < k))
              && 0 <= s.side < 4 && s in EdgeSegments(v, p, s.cell, s.side)
    decreases x, y, 1 + k
  {
    if k == 0 {
      BeforeMembers(v, p, x, y, s);
    } else {
      EmittedMembers(v, p, x, y, k - 1, s);
    }
  }

  /** A segment is in the rebuilt walls exactly when it stands on a side of
      a cell inside the grid and that side produces it (a cell without a
      tile is skipped, but it is not solid and produces nothing anyway). */
  lemma WallsMembers(v: GridView, p: WallParams, s: Segment)
    requires v.Wf()
    ensures s in Walls(v, p) <==> v.InBounds(s.cell) && 0 <= s.side < 4 && s in EdgeSegments(v, p, s.cell, s.side)
  {
    BeforeMembers(v, p, v.cols, 0, s);
  }

  /** The two cells a segment's side separates. */
  predicate Separates(s: Segment, a: Cell, b: Cell)
    requires 0 <= s.side < 4
  {
    (s.cell == a && Step(s.cell, s.side) == b) || (s.cell == b && Step(s.cell, s.side) == a)
  }

  /** Each boundary between a solid cell a and a non-solid neighbour b, on
      the grid border too, is walled once, from a's side: every segment on it
      stands on a's side towards b, and without a split door that side
      carries one whole segment. No segment stands on a side whose two cells
      are both solid or both not. */
  lemma SideWalledOnce(v: GridView, p: WallParams, a: Cell, b: Cell) returns (k: int)
    requires v.Wf() && Adjacent(a, b)
    ensures 0 <= k < 4 && Step(a, k) == b
    ensures forall s :: s in Walls(v, p) && 0 <= s.side < 4 && Separates(s, a, b) ==>
              IsSolid(v, s.cell, p.corridorType) && !IsSolid(v, Step(s.cell, s.side), p.corridorType)
    ensures IsSolid(v, a, p.corridorType) && !IsSolid(v, b, p.corridorType) ==>
              (forall s :: s in Walls(v, p) && 0 <= s.side < 4 && Separates(s, a, b) ==> s.cell == a && s.side == k)
    ensures IsSolid(v, a, p.corridorType) && !IsSolid(v, b, p.corridorType) && !Split(v, p, a, k) ==>
              Segment(a, k, Whole, v.cellSize) in Walls(v, p)
  {
    k := AdjacentIsStep(a, b);
    forall s | s in Walls(v, p) && 0 <= s.side < 4 && Separates(s, a, b)
      ensures IsSolid(v, s.cell, p.corridorType) && !IsSolid(v, Step(s.cell, s.side), p.corridorType)
      ensures IsSolid(v, a, p.corridorType) && !IsSolid(v, b, p.corridorType) ==> s.cell == a && s.side == k
    {
      WallsMembers(v, p, s);
    }
    WallsMembers(v, p, Segment(a, k, Whole, v.cellSize));
  }

  /** Unlike the live editor's pass, the outer border is walled on all four
      sides: a solid cell whose neighbour lies outside the grid gets a whole
      segment there (the outside is never a corridor, so there is no door). */
  lemma BorderWalled(v: GridView, p: WallParams, c: Cell, k: int)
    requires v.Wf() && 0 <= k < 4
    requires IsSolid(v, c, p.corridorType) && !v.InBounds(Step(c, k))
    ensures Segment(c, k, Whole, v.cellSize) in Walls(v, p)
  {
    WallsMembers(v, p, Segment(c, k, Whole, v.cellSize));
  }

  // ---------------------------------------------------------------------
  // The component

  class GridWalls {
    var grid: EditorGrid?
    var params: WallParams
    /** The MeshFilter's shared mesh: null until the first rebuild. */
    var mesh: Option<WallMesh>

    ghost predicate Valid()
      reads this, if grid != null then {grid} + grid.Repr else {}
    {
      grid != null ==> grid.Valid() && this !in grid.Repr
    }

    constructor (g: EditorGrid?)
      requires g != null ==> g.Valid()
      ensures Valid() && grid == g && params == DefaultParams && mesh == Null
    {
      grid := g;
      params := DefaultParams;
      mesh := Null;
    }

    /** Awake: builds once when buildOnAwake is set. */
    method Awake()
      requires Valid()
      modifies this`mesh
      ensures params.buildOnAwake && grid != null ==>
                mesh == Some(WallMesh(Walls(grid.View(), params), 3 * |Walls(grid.View(), params)|))
      ensures !(params.buildOnAwake && grid != null) ==> mesh == old(mesh)
    {
      if params.buildOnAwake {
        Rebuild();
      }
    }

    /** Without a grid nothing happens; otherwise the mesh becomes the walls
        of the whole grid, each segment extruded into three quads (outer
        face, inner face, top). */
    method Rebuild()
      requires Valid()
      modifies this`mesh
      ensures grid == null ==> mesh == old(mesh)
      ensures grid != null ==> mesh == Some(WallMesh(Walls(grid.View(), params), 3 * |Walls(grid.View(), params)|))
    {
      if grid == null {
        return;
      }
      var segments := WallPass(grid, grid.View());
      mesh := Some(WallMesh(segments, 3 * |segments|));
    }

    /** The two nested loops of Rebuild: the segments handed to
        AddWallSegment, in order. */
    method WallPass(g: EditorGrid, ghost v: GridView) returns (segments: seq<Segment>)
      requires g.Valid() && v == g.View()
      ensures segments == Walls(v, params)
    {
      segments := [];
      var x := 0;
      while x < g.cols
        invariant 0 <= x <= g.cols
        invariant segments == Before(v, params, x, 0)
      {
        segments := WallColumn(g, v, segments, x);
        x := x + 1;
      }
    }

    /** The cells of column x, bottom to top. */
    method WallColumn(g: EditorGrid, ghost v: GridView, segments: seq<Segment>, x: nat) returns (segments': seq<Segment>)
      requires g.Valid() && v == g.View() && x < g.cols
      requires segments == Before(v, params, x, 0)
      ensures segments' == Before(v, params, x + 1, 0)
    {
      segments' := segments;
      var y := 0;
      while y < g.rows
        invariant 0 <= y <= g.rows
        invariant segments' == Before(v, params, x, y)
      {
        segments' := WallCell(g, v, segments', x, y);
        y := y + 1;
      }
    }

    /** Cell (x, y) of a built grid: skipped without a tile, else its four
        sides in N4 order. */
    method WallCell(g: EditorGrid, ghost v: GridView, segments: seq<Segment>, x: nat, y: nat) returns (segments': seq<Segment>)
      requires g.Valid() && v == g.View() && x < g.cols && y < g.rows
      requires segments == Before(v, params, x, y)
      ensures segments' == Before(v, params, x, y + 1)
    {
      if g.SlotAt(x, y) == NoTile {
        return segments;
      }
      var c := Cell(x, y);
      segments' := TryEdge(g, v, segments, c, 0);
      assert segments' == Emitted(v, params, x, y, 1);
      segments' := TryEdge(g, v, segments', c, 1);
      assert segments' == Emitted(v, params, x, y, 2);
      segments' := TryEdge(g, v, segments', c, 2);
      assert segments' == Emitted(v, params, x, y, 3);
      segments' := TryEdge(g, v, segments', c, 3);
      assert segments' == Emitted(v, params, x, y, 4);
    }

    /** IsSolid as the rebuild evaluates it, on the live tile array. */
    function SolidAt(g: EditorGrid, c: Cell): (b: bool)
      reads this, g, g.Repr
      requires g.Valid()
      ensures b == IsSolid(g.View(), c, params.corridorType)
    {
      if c.x < 0 || c.y < 0 || c.x >= g.cols || c.y >= g.rows then false
      else
        var t := g.SlotAt(c.x, c.y);
        t.Tile? && t.zone != None && t.zone != params.corridorType
    }

    /** IsCorridor as the rebuild evaluates it. */
    function CorridorAt(g: EditorGrid, c: Cell): (b: bool)
      reads this, g, g.Repr
      requires g.Valid()
      ensures b == IsCorridor(g.View(), c, params.corridorType)
    {
      if c.x < 0 || c.y < 0 || c.x >= g.cols || c.y >= g.rows then false
      else g.SlotAt(c.x, c.y) == Tile(params.corridorType)
    }

    method TryEdge(g: EditorGrid, ghost v: GridView, segments: seq<Segment>, c: Cell, k: int) returns (segments': seq<Segment>)
      requires g.Valid() && v == g.View() && 0 <= k < 4
      ensures segments' == segments + EdgeSegments(v, params, c, k)
    {
      var n := Step(c, k);
      var aSolid := SolidAt(g, c);
      var bSolid := SolidAt(g, n);
      var aCor := CorridorAt(g, c);
      var bCor := CorridorAt(g, n);
      segments' := segments;
      if aSolid && !bSolid {
        var length := g.cellSize;
        var door := params.autoDoors && (aSolid && (bCor || aCor));
        var doorW := ClampReal(params.doorWidthM, 0.4, g.cellSize * 0.9);
        if door && doorW < length * 0.95 {
          var gap := doorW;
          var half := length * 0.5;
          var leftLen := MaxReal(0.0, half - gap * 0.5);
          var rightLen := leftLen;
          if leftLen > 0.01 {
            segments' := segments' + [Segment(c, k, LeftOfDoor, leftLen)];
          }
          if rightLen > 0.01 {
            segments' := segments' + [Segment(c, k, RightOfDoor, rightLen)];
          }
        } else {
          segments' := segments' + [Segment(c, k, Whole, length)];
        }
      }
    }
  }
}
