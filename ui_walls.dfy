/** The live wall extractor of the editor (UI/GridWalls.cs): which cell edges
    of the active deck get a wall, how a door gap splits a wall, and the
    debounce that turns a burst of tile edits into one rebuild.

    Each cell looks only at its +X and +Y edge, and an edge is walled when
    solidity changes across it. Segment positions are not modelled: a segment
    is recorded by the edge it stands on, its part of the edge, its length and
    the side its outward normal faces. */
module UiWalls {
  import opened Common
  import opened Zones
  import opened Grid

  /** The two edges a cell examines: towards x+1 and towards y+1. */
  datatype Dir = PlusX | PlusY

  /** The cell across an edge. */
  function Next(c: Cell, d: Dir): Cell
  {
    if d == PlusX then Cell(c.x + 1, c.y) else Cell(c.x, c.y + 1)
  }

  /** A whole-edge wall, or the wall piece before or after a door gap. */
  datatype Part = Whole | BeforeDoor | AfterDoor

  /** One call of AddWallSegment: the edge (cell, dir) it stands on, its part
      of the edge and its length; solidOnA says the examined cell is the solid
      one, so the outward normal faces the neighbour (and the cell otherwise). */
  datatype Segment = Segment(cell: Cell, dir: Dir, part: Part, length: real, solidOnA: bool)

  /** The inspector parameters, with the defaults in DefaultParams. */
  datatype WallParams = WallParams(
    wallHeight: real,
    wallThickness: real,
    autoDoors: bool,
    doorWidthM: real,
    corridorType: ZoneType,
    buildOnAwake: bool,
    autoRebuildEachPlay: bool,
    liveUpdate: bool,
    liveDebounce: real)   // seconds, 0 .. 0.25 in the inspector

  const DefaultParams: WallParams := WallParams(2.4, 0.08, true, 0.9, Corridor, true, true, true, 0.05)

  /** The built mesh: the segments it extrudes and its quad count. */
  datatype WallMesh = WallMesh(segments: seq<Segment>, quads: nat)

  // ---------------------------------------------------------------------
  // Edge classification

  /** A wall-bearing cell: inside the grid, with a tile whose zone is neither
      None nor the corridor zone. */
  predicate IsSolid(v: GridView, c: Cell, corridor: ZoneType)
    requires v.Wf()
  {
    v.At(c).Tile? && v.At(c).zone != None && v.At(c).zone != corridor
  }

  /** A corridor cell: inside the grid, with a tile of the corridor zone. */
  predicate IsCorridor(v: GridView, c: Cell, corridor: ZoneType)
    requires v.Wf()
  {
    v.At(c) == Tile(corridor)
  }

  /** Outside the grid nothing is solid or corridor; a solid cell is never a
      corridor; inside, a tile is solid exactly for the zones other than None
      and the corridor zone. */
  lemma SolidityMeaning(v: GridView, c: Cell, corridor: ZoneType)
    requires v.Wf()
    ensures !v.InBounds(c) ==> !IsSolid(v, c, corridor) && !IsCorridor(v, c, corridor)
    ensures IsSolid(v, c, corridor) ==> !IsCorridor(v, c, corridor)
    ensures v.InBounds(c) && v.slots[c.x][c.y].Tile? ==>
              (IsSolid(v, c, corridor) <==> v.slots[c.x][c.y].zone !in {None, corridor})
  {
  }

  /** The door gap: the requested width clamped to [0.4, 0.95 cs]. */
  function DoorWidth(p: WallParams, cs: real): (w: real)
    ensures 0.4 <= cs * 0.95 ==> 0.4 <= w <= cs * 0.95
    ensures 0.4 <= p.doorWidthM <= cs * 0.95 ==> w == p.doorWidthM
  {
    ClampReal(p.doorWidthM, 0.4, cs * 0.95)
  }

  /** An edge gets a door when doors are on and either side is corridor. */
  predicate HasDoor(v: GridView, p: WallParams, c: Cell, d: Dir)
    requires v.Wf()
  {
    p.autoDoors && (IsCorridor(v, c, p.corridorType) || IsCorridor(v, Next(c, d), p.corridorType))
  }

  /** TryEdge: the segments one examined edge contributes: none unless
      solidity changes across the edge, and at most two. */
  function EdgeSegments(v: GridView, p: WallParams, c: Cell, d: Dir): (r: seq<Segment>)
    requires v.Wf()
    ensures |r| <= 2
    ensures r != [] <==> IsSolid(v, c, p.corridorType) != IsSolid(v, Next(c, d), p.corridorType)
                         && (HasDoor(v, p, c, d) ==> PieceLength(v.cellSize, DoorWidth(p, v.cellSize)) > 0.01)
  {
    var aSolid := IsSolid(v, c, p.corridorType);
    var bSolid := IsSolid(v, Next(c, d), p.corridorType);
    if aSolid == bSolid then []
    else if HasDoor(v, p, c, d) then
      var side := PieceLength(v.cellSize, DoorWidth(p, v.cellSize));
      if side > 0.01 then [Segment(c, d, BeforeDoor, side, aSolid), Segment(c, d, AfterDoor, side, aSolid)]
      else []
    else [Segment(c, d, Whole, v.cellSize, aSolid)]
  }

  /** What an edge contributes: nothing unless solidity changes across it;
      then one whole segment of the cell's length, or, at a door, two equal
      pieces beside the gap (together the cell length less the gap) when
      they are longer than 0.01 and none otherwise. Every segment faces away
      from the solid side. */
  lemma EdgeSegmentsMeaning(v: GridView, p: WallParams, c: Cell, d: Dir)
    requires v.Wf()
    ensures var r := EdgeSegments(v, p, c, d);
      && (forall s :: s in r ==> s.cell == c && s.dir == d && s.solidOnA == IsSolid(v, c, p.corridorType))
      && (IsSolid(v, c, p.corridorType) != IsSolid(v, Next(c, d), p.corridorType) && !HasDoor(v, p, c, d) ==>
            r == [Segment(c, d, Whole, v.cellSize, IsSolid(v, c, p.corridorType))])
      && (IsSolid(v, c, p.corridorType) != IsSolid(v, Next(c, d), p.corridorType) && HasDoor(v, p, c, d) ==>
            (|r| == 2 <==> PieceLength(v.cellSize, DoorWidth(p, v.cellSize)) > 0.01) && (|r| == 0 || |r| == 2))
      && (|r| == 2 ==>
            && HasDoor(v, p, c, d)
            && r[0].part == BeforeDoor && r[1].part == AfterDoor
            && r[0].length == r[1].length > 0.01
            && r[0].length + r[1].length == v.cellSize - DoorWidth(p, v.cellSize))
  {
  }

  // ---------------------------------------------------------------------
  // The whole pass: x outer, y inner, +X edge before +Y edge

  function CellWalls(v: GridView, p: WallParams, x: int, y: int): seq<Segment>
    requires v.Wf()
  {
    EdgeSegments(v, p, Cell(x, y), PlusX) + EdgeSegments(v, p, Cell(x, y), PlusY)
  }

  /** The segments emitted before the pass reaches cell (x, y): all of
      columns 0 .. x-1, then cells (x, 0) .. (x, y-1). */
  function Before(v: GridView, p: WallParams, x: nat, y: nat): seq<Segment>
    requires v.Wf()
    decreases x, y
  {
    if y == 0 then (if x == 0 then [] else Before(v, p, x - 1, v.rows))
    else Before(v, p, x, y - 1) + CellWalls(v, p, x, y - 1)
  }

  /** Every segment of a rebuild, in emission order. */
  function Walls(v: GridView, p: WallParams): seq<Segment>
    requires v.Wf()
  {
    Before(v, p, v.cols, 0)
  }

  /** A segment emitted before cell (x, y) comes from an examined edge of an
      earlier cell, and every segment such an edge produces is there. */
  lemma {:induction false} BeforeMembers(v: GridView, p: WallParams, x: nat, y: nat, s: Segment)
    requires v.Wf() && y <= v.rows
    ensures s in Before(v, p, x, y) <==>
              && ((0 <= s.cell.x < x && 0 <= s.cell.y < v.rows) || (s.cell.x == x && 0 <= s.cell.y < y))
              && s in EdgeSegments(v, p, s.cell, s.dir)
    decreases x, y
  {
    EdgeSegmentsMeaning(v, p, s.cell, s.dir);
    if y == 0 {
      if x > 0 {
        BeforeMembers(v, p, x - 1, v.rows, s);
      }
    } else {
      BeforeMembers(v, p, x, y - 1, s);
      EdgeSegmentsMeaning(v, p, Cell(x, y - 1), PlusX);
      EdgeSegmentsMeaning(v, p, Cell(x, y - 1), PlusY);
    }
  }

  /** A segment is in the rebuilt walls exactly when its edge is examined
      (the cell is inside the grid) and that edge produces it. */
  lemma WallsMembers(v: GridView, p: WallParams, s: Segment)
    requires v.Wf()
    ensures s in Walls(v, p) <==> v.InBounds(s.cell) && s in EdgeSegments(v, p, s.cell, s.dir)
  {
    BeforeMembers(v, p, v.cols, 0, s);
  }

  /** An examined edge carries wall in the rebuild exactly when solidity
      changes across it and, for a door edge, the gap leaves room for the
      side pieces. */
  lemma EdgeWalled(v: GridView, p: WallParams, c: Cell, d: Dir)
    requires v.Wf() && v.InBounds(c)
    ensures (exists s :: s in Walls(v, p) && s.cell == c && s.dir == d) <==>
              && IsSolid(v, c, p.corridorType) != IsSolid(v, Next(c, d), p.corridorType)
              && (HasDoor(v, p, c, d) ==> PieceLength(v.cellSize, DoorWidth(p, v.cellSize)) > 0.01)
  {
    var r := EdgeSegments(v, p, c, d);
    EdgeSegmentsMeaning(v, p, c, d);
    if exists s :: s in Walls(v, p) && s.cell == c && s.dir == d {
      var s :| s in Walls(v, p) && s.cell == c && s.dir == d;
      WallsMembers(v, p, s);
    }
    if IsSolid(v, c, p.corridorType) != IsSolid(v, Next(c, d), p.corridorType)
       && (HasDoor(v, p, c, d) ==> PieceLength(v.cellSize, DoorWidth(p, v.cellSize)) > 0.01) {
      assert r[0] in r;
      WallsMembers(v, p, r[0]);
    }
  }

  /** Edges joining a and b, told by the examined cell and direction. */
  predicate Joins(c: Cell, d: Dir, a: Cell, b: Cell)
  {
    (c == a && Next(c, d) == b) || (c == b && Next(c, d) == a)
  }

  /** Each edge between adjacent cells is examined by at most one (cell,
      direction) pair; an edge with both cells inside the grid, or leaving
      the grid on its +X or +Y border, is examined exactly once; an edge
      leaving the grid on the x = 0 or y = 0 border is never examined. */
  lemma EdgeExaminedOnce(v: GridView, a: Cell, b: Cell)
    requires Adjacent(a, b) && v.InBounds(a)
    ensures forall c, d, c', d' :: Joins(c, d, a, b) && Joins(c', d', a, b) ==> c == c' && d == d'
    ensures (exists c, d :: v.InBounds(c) && Joins(c, d, a, b)) <==> v.InBounds(b) || b.x > a.x || b.y > a.y
  {
    var k := AdjacentIsStep(a, b);
    if k == 0 {
      assert Joins(a, PlusX, a, b);
    } else if k == 1 {
      assert Joins(b, PlusX, a, b);
    } else if k == 2 {
      assert Joins(a, PlusY, a, b);
    } else {
      assert Joins(b, PlusY, a, b);
    }
  }

  /** The asymmetry of the +X/+Y pass: no segment stands on the outer edge
      left of column 0 or below row 0, while a solid cell in the last column
      or the last row is walled on its outer edge (it never borders a
      corridor there, so the wall is whole). */
  lemma OuterBorders(v: GridView, p: WallParams, y: int, x: int)
    requires v.Wf()
    ensures forall s :: s in Walls(v, p) ==> s.cell.x >= 0 && s.cell.y >= 0
    ensures v.cols >= 1 && 0 <= y < v.rows && IsSolid(v, Cell(v.cols - 1, y), p.corridorType) ==>
              Segment(Cell(v.cols - 1, y), PlusX, Whole, v.cellSize, true) in Walls(v, p)
    ensures v.rows >= 1 && 0 <= x < v.cols && IsSolid(v, Cell(x, v.rows - 1), p.corridorType) ==>
              Segment(Cell(x, v.rows - 1), PlusY, Whole, v.cellSize, true) in Walls(v, p)
  {
    forall s | s in Walls(v, p)
      ensures s.cell.x >= 0 && s.cell.y >= 0
    {
      WallsMembers(v, p, s);
    }
    EdgeSegmentsMeaning(v, p, Cell(v.cols - 1, y), PlusX);
    EdgeSegmentsMeaning(v, p, Cell(x, v.rows - 1), PlusY);
    WallsMembers(v, p, Segment(Cell(v.cols - 1, y), PlusX, Whole, v.cellSize, true));
    WallsMembers(v, p, Segment(Cell(x, v.rows - 1), PlusY, Whole, v.cellSize, true));
  }

  // ---------------------------------------------------------------------
  // The debounce, as a machine over the stored deadline (-1 when idle)

  /** What the component sees: a tile edit, or one Update frame. playing is
      Application.isPlaying and now is Time.time. */
  datatype Event = TileChanged(playing: bool, now: real) | Frame(playing: bool, now: real)

  /** ScheduleRebuild's deadline: a debounce delay in play mode, at once in
      the editor. */
  function Deadline(playing: bool, now: real, debounce: real): (t: real)
    ensures debounce >= 0.0 && now >= 0.0 ==> t >= 0.0
  {
    if playing then now + debounce else 0.0
  }

  /** Whether an Update frame rebuilds. */
  predicate Fires(next: real, playing: bool, now: real)
  {
    next >= 0.0 && (!playing || now >= next)
  }

  /** The deadline after one event. */
  function After(next: real, e: Event, p: WallParams): real
  {
    match e
    case TileChanged(playing, now) => if p.liveUpdate then Deadline(playing, now, p.liveDebounce) else next
    case Frame(playing, now) => if Fires(next, playing, now) then -1.0 else next
  }

  /** The deadline after a run of events. */
  function AfterAll(next: real, es: seq<Event>, p: WallParams): real
    decreases |es|
  {
    if es == [] then next else AfterAll(After(next, es[0], p), es[1..], p)
  }

  /** How many frames of a run rebuild. */
  function Rebuilds(next: real, es: seq<Event>, p: WallParams): nat
    decreases |es|
  {
    if es == [] then 0
    else (if es[0].Frame? && Fires(next, es[0].playing, es[0].now) then 1 else 0) + Rebuilds(After(next, es[0], p), es[1..], p)
  }

  /** Repeated edits overwrite one deadline: after a burst of edits only the
      last one's deadline counts (or nothing changes without live update),
      and no edit rebuilds by itself. */
  lemma {:induction false} EditsCoalesce(next: real, es: seq<Event>, p: WallParams)
    requires forall i :: 0 <= i < |es| ==> es[i].TileChanged?
    ensures Rebuilds(next, es, p) == 0
    ensures !p.liveUpdate || es == [] ==> AfterAll(next, es, p) == next
    ensures p.liveUpdate && es != [] ==>
              AfterAll(next, es, p) == Deadline(es[|es| - 1].playing, es[|es| - 1].now, p.liveDebounce)
    decreases |es|
  {
    if es != [] {
      EditsCoalesce(After(next, es[0], p), es[1..], p);
      if |es| > 1 {
        assert es[1..][|es[1..]| - 1] == es[|es| - 1];
      }
    }
  }

  /** Frames without edits between them rebuild at most once: the rebuild
      resets the deadline to -1, and an idle deadline never fires. */
  lemma {:induction false} FramesRebuildOnce(next: real, es: seq<Event>, p: WallParams)
    requires forall i :: 0 <= i < |es| ==> es[i].Frame?
    ensures Rebuilds(next, es, p) <= 1
    ensures next < 0.0 ==> Rebuilds(next, es, p) == 0 && AfterAll(next, es, p) == next
    decreases |es|
  {
    if es != [] {
      FramesRebuildOnce(After(next, es[0], p), es[1..], p);
    }
  }

  // ---------------------------------------------------------------------
  // The component

  /** The grid is missing or not built: Rebuild clears the mesh and stops. */
  predicate NotReady(g: EditorGrid?)
    reads g
  {
    g == null || g.cols == 0 || g.rows == 0 || g.tiles == null
  }

  class GridWalls {
    var grid: EditorGrid?
    var params: WallParams
    /** The pending rebuild time, -1 when none is pending. */
    var nextBuildTime: real
    var builtSegments: int
    /** The MeshFilter's shared mesh: null, or the last rebuild's walls. */
    var mesh: Option<WallMesh>

    ghost predicate Valid()
      reads this, if grid != null then {grid} + grid.Repr else {}
    {
      grid != null ==> grid.Valid() && this !in grid.Repr
    }

    /** The state a Rebuild leaves: no mesh (and the counter as it was) for a
        missing or unbuilt grid, else the mesh of Walls, three quads per
        segment, and the counter equal to the number of segments. */
    ghost predicate RebuiltFrom(count: int)
      reads this, if grid != null then {grid} + grid.Repr else {}
      requires Valid()
    {
      if NotReady(grid) then mesh == Null && builtSegments == count
      else
        var walls := Walls(grid.View(), params);
        mesh == Some(WallMesh(walls, 3 * |walls|)) && builtSegments == |walls|
    }

    constructor ()
      ensures Valid() && grid == null && params == DefaultParams
      ensures nextBuildTime == -1.0 && builtSegments == 0 && mesh == Null
    {
      grid := null;
      params := DefaultParams;
      nextBuildTime := -1.0;
      builtSegments := 0;
      mesh := Null;
    }

    /** Switches to another deck's grid and schedules a rebuild. */
    method SetGrid(g: EditorGrid?, playing: bool, now: real)
      requires g != null ==> g.Valid() && this !in g.Repr
      modifies this`grid, this`nextBuildTime
      ensures Valid() && grid == g
      ensures nextBuildTime == Deadline(playing, now, params.liveDebounce)
    {
      grid := g;
      ScheduleRebuild(playing, now);
    }

    method ScheduleRebuild(playing: bool, now: real)
      modifies this`nextBuildTime
      ensures nextBuildTime == Deadline(playing, now, params.liveDebounce)
    {
      nextBuildTime := if playing then now + params.liveDebounce else 0.0;
    }

    /** The grid's OnTileChanged handler. */
    method HandleTileChanged(playing: bool, now: real)
      modifies this`nextBuildTime
      ensures nextBuildTime == After(old(nextBuildTime), TileChanged(playing, now), params)
    {
      if !params.liveUpdate {
        return;
      }
      ScheduleRebuild(playing, now);
    }

    /** One frame: rebuilds once the deadline has passed (at once in the
        editor) and goes idle. */
    method Update(playing: bool, now: real)
      requires Valid()
      modifies this`nextBuildTime, this`mesh, this`builtSegments
      ensures Valid()
      ensures nextBuildTime == After(old(nextBuildTime), Frame(playing, now), params)
      ensures Fires(old(nextBuildTime), playing, now) ==> RebuiltFrom(old(builtSegments))
      ensures !Fires(old(nextBuildTime), playing, now) ==> mesh == old(mesh) && builtSegments == old(builtSegments)
    {
      if nextBuildTime < 0.0 {
        return;
      }
      if !playing || now >= nextBuildTime {
        nextBuildTime := -1.0;
        Rebuild();
      }
    }

    method Rebuild()
      requires Valid()
      modifies this`mesh, this`builtSegments
      ensures Valid() && RebuiltFrom(old(builtSegments))
    {
      if grid == null || grid.cols == 0 || grid.rows == 0 || grid.tiles == null {
        mesh := Null;
        return;
      }
      var walls, count := WallPass(grid, grid.View());
      mesh := Some(walls);
      builtSegments := count;
    }

    /** The two nested loops of Rebuild over a built grid: the mesh of every
        examined edge's segments and the number of segments. */
    method WallPass(g: EditorGrid, ghost v: GridView) returns (mb: WallMesh, count: int)
      requires g.Valid() && v == g.View()
      ensures mb == WallMesh(Walls(v, params), 3 * |Walls(v, params)|) && count == |Walls(v, params)|
    {
      count := 0;
      mb := WallMesh([], 0);
      var x := 0;
      while x < g.cols
        invariant 0 <= x <= g.cols
        invariant mb.segments == Before(v, params, x, 0)
        invariant mb.quads == 3 * |mb.segments| && count == |mb.segments|
      {
        mb, count := WallColumn(g, v, mb, count, x);
        x := x + 1;
      }
    }

    /** The cells of column x, bottom to top; count is the running
        _builtSegments, and the mesh keeps three quads per segment. */
    method WallColumn(g: EditorGrid, ghost v: GridView, mb: WallMesh, count: int, x: nat) returns (mb': WallMesh, count': int)
      requires g.Valid() && v == g.View()
      requires mb.segments == Before(v, params, x, 0)
      requires mb.quads == 3 * |mb.segments| && count == |mb.segments|
      ensures mb'.segments == Before(v, params, x + 1, 0)
      ensures mb'.quads == 3 * |mb'.segments| && count' == |mb'.segments|
    {
      mb', count' := mb, count;
      var y := 0;
      while y < g.rows
        invariant 0 <= y <= g.rows
        invariant mb'.segments == Before(v, params, x, y)
        invariant mb'.quads == 3 * |mb'.segments| && count' == |mb'.segments|
      {
        mb', count' := WallCell(g, v, mb', count', x, y);
        y := y + 1;
      }
      assert Before(v, params, x + 1, 0) == Before(v, params, x, g.rows);
    }

    /** Cell (x, y): its +X edge, then its +Y edge. */
    method WallCell(g: EditorGrid, ghost v: GridView, mb: WallMesh, count: int, x: int, y: int) returns (mb': WallMesh, count': int)
      requires g.Valid() && v == g.View()
      requires mb.quads == 3 * |mb.segments| && count == |mb.segments|
      ensures mb'.segments == mb.segments + CellWalls(v, params, x, y)
      ensures mb'.quads == 3 * |mb'.segments| && count' == |mb'.segments|
    {
      mb', count' := TryEdge(g, v, mb, count, x, y, PlusX);
      mb', count' := TryEdge(g, v, mb', count', x, y, PlusY);
      assert mb'.segments == mb.segments + CellWalls(v, params, x, y);
    }

    /** IsSolid as the rebuild evaluates it, on the live tile array. */
    function SolidAt(g: EditorGrid, x: int, y: int): (b: bool)
      reads this, g, g.Repr
      requires g.Valid()
      ensures b == IsSolid(g.View(), Cell(x, y), params.corridorType)
    {
      if x < 0 || y < 0 || x >= g.cols || y >= g.rows then false
      else
        var t := g.SlotAt(x, y);
        t.Tile? && t.zone != None && t.zone != params.corridorType
    }

    /** IsCorridor as the rebuild evaluates it. */
    function CorridorAt(g: EditorGrid, x: int, y: int): (b: bool)
      reads this, g, g.Repr
      requires g.Valid()
      ensures b == IsCorridor(g.View(), Cell(x, y), params.corridorType)
    {
      if x < 0 || y < 0 || x >= g.cols || y >= g.rows then false
      else g.SlotAt(x, y) == Tile(params.corridorType)
    }

    method TryEdge(g: EditorGrid, ghost v: GridView, mb: WallMesh, count: int, x: int, y: int, d: Dir)
      returns (mb': WallMesh, count': int)
      requires g.Valid() && v == g.View()
      requires mb.quads == 3 * |mb.segments| && count == |mb.segments|
      ensures mb'.segments == mb.segments + EdgeSegments(v, params, Cell(x, y), d)
      ensures mb'.quads == 3 * |mb'.segments| && count' == |mb'.segments|
    {
      var n := Next(Cell(x, y), d);
      var aSolid := SolidAt(g, x, y);
      var bSolid := SolidAt(g, n.x, n.y);
      if aSolid == bSolid {
        return mb, count;
      }
      var door := params.autoDoors && (CorridorAt(g, x, y) || CorridorAt(g, n.x, n.y));
      var doorW := ClampReal(params.doorWidthM, 0.4, g.cellSize * 0.95);
      if door {
        var side := MaxReal(0.0, g.cellSize * 0.5 - doorW * 0.5);
        mb', count' := mb, count;
        if side > 0.01 {
          mb', count' := AddWallSegment(mb', count', Segment(Cell(x, y), d, BeforeDoor, side, aSolid));
          mb', count' := AddWallSegment(mb', count', Segment(Cell(x, y), d, AfterDoor, side, aSolid));
        }
      } else {
        mb', count' := AddWallSegment(mb, count, Segment(Cell(x, y), d, Whole, g.cellSize, aSolid));
      }
    }

    /** Counts the segment and extrudes it into three quads: outer face,
        inner face and top. */
    method AddWallSegment(mb: WallMesh, count: int, s: Segment) returns (mb': WallMesh, count': int)
      ensures count' == count + 1
      ensures mb'.segments == mb.segments + [s] && mb'.quads == mb.quads + 3
    {
      count' := count + 1;
      mb' := WallMesh(mb.segments + [s], mb.quads + 3);
    }
  }
}
