/** The zone grid of one deck (EditorGrid.cs) and its cells (GridTile.cs).
    A tile is an object whose zone is changed in place; each real change is
    forwarded to the owning grid, which records it as one OnTileChanged
    notification. Read-only passes (pathfinding, validation, metrics, walls)
    work on a GridView, the value the tile array holds at one moment. */
module Grid {
  import opened Common
  import opened Zones

  datatype HabitatMask = Rectangle | Cylinder

  /** The colour a tile's renderer shows: the prefab's until the tile is
      painted or hovered, then the zone's base colour, brightened on hover. */
  datatype Shade = PrefabColour | ZoneColour(zone: ZoneType, hovered: bool)

  /** One invocation of EditorGrid.OnTileChanged(grid, x, y, old, new). */
  datatype TileChange = TileChange(x: int, y: int, oldZone: ZoneType, newZone: ZoneType)

  /** A local-space point (Vector3). */
  datatype Vec3 = Vec3(x: real, y: real, z: real)

  /** One slot of the tile array: no tile (C# null) or a tile with its zone. */
  datatype Slot = NoTile | Tile(zone: ZoneType)

  /** The contents of a grid's tile array, indexed [x][y] like Tiles[x, y]. */
  datatype GridView = GridView(cols: nat, rows: nat, cellSize: real, slots: seq<seq<Slot>>)
  {
    ghost predicate Wf()
    {
      |slots| == cols && forall x :: 0 <= x < cols ==> |slots[x]| == rows
    }

    predicate InBounds(c: Cell)
    {
      0 <= c.x < cols && 0 <= c.y < rows
    }

    /** The slot at a coordinate; every coordinate outside the grid reads as no tile. */
    function At(c: Cell): Slot
      requires Wf()
    {
      if InBounds(c) then slots[c.x][c.y] else NoTile
    }

    /** The tile at c exists and carries zone z. */
    predicate Has(c: Cell, z: ZoneType)
      requires Wf()
    {
      At(c) == Tile(z)
    }
  }

  /** The z offset of row y's centre from the axis of a grid of rows rows. */
  function RowOffset(cellSize: real, rows: int, y: int): real
  {
    -(rows as real * cellSize) * 0.5 + (y as real + 0.5) * cellSize
  }

  /** Whether the cell centre of row y lies inside the hull cross-section:
      always for the rectangle mask; for the cylinder mask when the centre's
      z offset from the axis is within the radius (compared squared). */
  function InsideHull(mask: HabitatMask, cellSize: real, rows: int, diameterM: real, y: int): (b: bool)
    ensures mask == Rectangle ==> b
    ensures mask == Cylinder && diameterM >= 0.0 ==>
              (b <==> -diameterM * 0.5 <= RowOffset(cellSize, rows, y) <= diameterM * 0.5)
  {
    match mask
    case Rectangle => true
    case Cylinder =>
      var dz := RowOffset(cellSize, rows, y);
      var radius := diameterM * 0.5;
      if radius >= 0.0 then WithinRadius(dz, radius); dz * dz <= radius * radius
      else dz * dz <= radius * radius
  }

  /** A square is at most a non-negative radius squared exactly when the
      number lies within the radius either side of 0. */
  lemma WithinRadius(a: real, r: real)
    requires r >= 0.0
    ensures a * a <= r * r <==> -r <= a <= r
  {
    if a > r {
      assert a * a > r * a >= r * r;
    } else if a < -r {
      assert a * a > -r * a >= r * r;
    }
  }

  /** The cylinder mask is symmetric about the grid's middle row. */
  lemma CylinderSymmetric(cellSize: real, rows: int, diameterM: real, y: int)
    ensures InsideHull(Cylinder, cellSize, rows, diameterM, y)
         == InsideHull(Cylinder, cellSize, rows, diameterM, rows - 1 - y)
  {
    var dz := RowOffset(cellSize, rows, y);
    var dz' := RowOffset(cellSize, rows, rows - 1 - y);
    assert dz' == -dz;
    assert dz' * dz' == dz * dz;
  }

  /** Grid dimensions from metre extents: the rounded cell count, at least one. */
  function CellCount(extentM: real, cellSize: real): (n: int)
    requires cellSize > 0.0
    ensures n >= 1
    ensures extentM / cellSize >= 1.5 ==> (n as real - 0.5 <= extentM / cellSize <= n as real + 0.5)
    ensures extentM / cellSize < 1.5 ==> n == 1
  {
    Max(1, RoundToInt(extentM / cellSize))
  }

  class GridTile {
    var x: int
    var y: int
    /** The zone (GridTile.Type). */
    var zone: ZoneType
    var shade: Shade
    /** The grid whose forwarding handler is subscribed to OnZoneChanged, if any. */
    var owner: EditorGrid?

    /** AddComponent<GridTile>(): the default Type is None and Awake's
        SetZone(None) changes nothing. */
    constructor ()
      ensures zone == None && shade == PrefabColour
      ensures x == 0 && y == 0 && owner == null
    {
      x, y := 0, 0;
      zone := None;
      shade := PrefabColour;
      owner := null;
      new;
      SetZone(None);
    }

    /** Changes the zone; a real change recolours the tile and notifies the
        subscribed grid once with (x, y, old, new). */
    method SetZone(z: ZoneType)
      modifies this`zone, this`shade, (if owner == null then {} else {owner})`tileChanges
      ensures zone == z
      ensures old(zone) == z ==> shade == old(shade)
      ensures old(zone) == z && owner != null ==> owner.tileChanges == old(owner.tileChanges)
      ensures old(zone) != z ==> shade == ZoneColour(z, false)
      ensures old(zone) != z && owner != null ==>
                owner.tileChanges == old(owner.tileChanges) + [TileChange(x, y, old(zone), z)]
    {
      if z == zone {
        return;
      }
      var previous := zone;
      zone := z;
      shade := ZoneColour(z, false);
      if owner != null {
        owner.tileChanges := owner.tileChanges + [TileChange(x, y, previous, z)];
      }
    }

    /** Shows or clears the hover highlight; the zone is untouched. */
    method SetHover(on: bool)
      modifies this`shade
      ensures shade == ZoneColour(zone, on)
      ensures zone == old(zone)
    {
      shade := ZoneColour(zone, on);
    }
  }

  class EditorGrid {
    var cellSize: real
    var lengthM: real
    var diameterM: real
    var mask: HabitatMask
    var cols: int
    var rows: int
    var tiles: array2?<GridTile?>
    /** EditorGrid.Mask: whether each cell lies inside the hull. */
    var inside: array2?<bool>
    /** Every OnTileChanged notification so far, oldest first. */
    var tileChanges: seq<TileChange>
    /** gameObject.activeSelf, switched by the deck manager. */
    var active: bool
    ghost var Repr: set<object>

    ghost predicate Valid()
      reads this, Repr
    {
      && this in Repr
      && cols >= 0 && rows >= 0
      && (tiles == null ==> inside == null && cols == 0 && rows == 0)
      && (tiles != null ==>
            && tiles in Repr && inside != null && inside in Repr
            && tiles.Length0 == cols && tiles.Length1 == rows
            && inside.Length0 == cols && inside.Length1 == rows
            && forall i, j :: 0 <= i < cols && 0 <= j < rows && tiles[i, j] != null ==>
                 tiles[i, j] in Repr && tiles[i, j].x == i && tiles[i, j].y == j && tiles[i, j].owner == this)
    }

    /** The inspector defaults; no tiles until Rebuild. */
    constructor ()
      ensures Valid() && fresh(Repr - {this})
      ensures cellSize == 0.5 && lengthM == 10.0 && diameterM == 6.0 && mask == Cylinder
      ensures cols == 0 && rows == 0 && tiles == null && tileChanges == [] && active
    {
      cellSize, lengthM, diameterM, mask := 0.5, 10.0, 6.0, Cylinder;
      cols, rows := 0, 0;
      tiles, inside := null, null;
      tileChanges := [];
      active := true;
      Repr := {this};
    }

    /** gameObject.SetActive: shows or hides the deck; the grid is untouched. */
    method SetActive(on: bool)
      requires Valid()
      modifies this`active
      ensures Valid() && active == on
    {
      active := on;
    }

    /** The slot of an in-range cell: Tiles[x, y] and its Type. */
    function SlotAt(x: int, y: int): (s: Slot)
      reads this, Repr
      requires Valid() && 0 <= x < cols && 0 <= y < rows
    {
      if tiles[x, y] == null then NoTile else Tile(tiles[x, y].zone)
    }

    ghost function View(): (v: GridView)
      reads this, Repr
      requires Valid()
      ensures v.Wf() && v.cols == cols && v.rows == rows && v.cellSize == cellSize
      ensures forall i, j :: 0 <= i < cols && 0 <= j < rows ==> v.slots[i][j] == SlotAt(i, j)
    {
      GridView(cols, rows, cellSize,
        seq(cols, i requires 0 <= i < cols && Valid() reads this, Repr =>
          seq(rows, j requires 0 <= j < rows && 0 <= i < cols && Valid() reads this, Repr => SlotAt(i, j))))
    }

    /** Sizes the grid from the metre extents and fills it with fresh, empty
        tiles, each knowing its own coordinate and forwarding its changes here;
        the hull mask is computed once per cell. */
    method Rebuild()
      requires cellSize > 0.0
      modifies this
      ensures Valid() && fresh(Repr - {this})
      ensures cellSize == old(cellSize) && lengthM == old(lengthM) && diameterM == old(diameterM)
      ensures mask == old(mask) && tileChanges == old(tileChanges) && active == old(active)
      ensures cols == CellCount(lengthM, cellSize) && rows == CellCount(diameterM, cellSize)
      ensures tiles != null && inside != null
      ensures forall i, j :: 0 <= i < cols && 0 <= j < rows ==>
                tiles[i, j] != null && tiles[i, j].zone == None
                && inside[i, j] == InsideHull(mask, cellSize, rows, diameterM, j)
    {
      cols := CellCount(lengthM, cellSize);
      rows := CellCount(diameterM, cellSize);
      var ts := new GridTile?[cols, rows]((i, j) => null);
      var hull := new bool[cols, rows];
      ghost var added := Fill(ts, hull, this, mask, cellSize, diameterM);
      tiles, inside, Repr := ts, hull, {this, ts, hull} + added;
    }

    /** Fills every column, left to right. */
    static method Fill(ts: array2<GridTile?>, hull: array2<bool>, owner: EditorGrid,
                       mask: HabitatMask, cellSize: real, diameterM: real)
      returns (ghost added: set<object>)
      requires hull.Length0 == ts.Length0 && hull.Length1 == ts.Length1
      modifies ts, hull
      ensures fresh(added)
      ensures forall i, j :: 0 <= i < ts.Length0 && 0 <= j < ts.Length1 ==>
                ts[i, j] in added && Ready(ts, hull, i, j, owner, InsideHull(mask, cellSize, ts.Length1, diameterM, j))
    {
      added := {};
      var x := 0;
      while x < ts.Length0
        invariant 0 <= x <= ts.Length0
        invariant fresh(added)
        invariant forall i, j :: 0 <= i < x && 0 <= j < ts.Length1 ==>
                    ts[i, j] in added && Ready(ts, hull, i, j, owner, InsideHull(mask, cellSize, ts.Length1, diameterM, j))
      {
        ghost var column := FillColumn(ts, hull, x, owner, mask, cellSize, diameterM);
        added := added + column;
        x := x + 1;
      }
    }

    /** Fills column x with fresh empty tiles and their hull flags. */
    static method FillColumn(ts: array2<GridTile?>, hull: array2<bool>, x: int, owner: EditorGrid,
                             mask: HabitatMask, cellSize: real, diameterM: real)
      returns (ghost added: set<object>)
      requires 0 <= x < ts.Length0
      requires hull.Length0 == ts.Length0 && hull.Length1 == ts.Length1
      modifies ts, hull
      ensures fresh(added)
      ensures forall j :: 0 <= j < ts.Length1 ==>
                ts[x, j] in added && Ready(ts, hull, x, j, owner, InsideHull(mask, cellSize, ts.Length1, diameterM, j))
      ensures forall i, j :: 0 <= i < ts.Length0 && i != x && 0 <= j < ts.Length1 ==>
                ts[i, j] == old(ts[i, j]) && hull[i, j] == old(hull[i, j])
    {
      added := {};
      var y := 0;
      while y < ts.Length1
        invariant 0 <= y <= ts.Length1
        invariant fresh(added)
        invariant forall j :: 0 <= j < y ==>
                    ts[x, j] in added && Ready(ts, hull, x, j, owner, InsideHull(mask, cellSize, ts.Length1, diameterM, j))
        invariant forall i, j :: 0 <= i < ts.Length0 && i != x && 0 <= j < ts.Length1 ==>
                    ts[i, j] == old(ts[i, j]) && hull[i, j] == old(hull[i, j])
      {
        hull[x, y] := InsideHull(mask, cellSize, ts.Length1, diameterM, y);
        var tile := new GridTile();
        tile.x, tile.y := x, y;
        tile.owner := owner;
        ts[x, y] := tile;
        added := added + {tile};
        y := y + 1;
      }
    }

    /** Cell (i, j) holds an empty tile that knows its coordinate and forwards
        to the given grid, and its hull flag is the expected one. */
    static ghost predicate Ready(ts: array2<GridTile?>, hull: array2<bool>, i: int, j: int,
                                 owner: EditorGrid, flag: bool)
      reads ts, hull, if 0 <= i < ts.Length0 && 0 <= j < ts.Length1 then ts[i, j] else null
      requires 0 <= i < ts.Length0 && 0 <= j < ts.Length1
      requires hull.Length0 == ts.Length0 && hull.Length1 == ts.Length1
    {
      var t := ts[i, j];
      && t != null
      && t.x == i && t.y == j && t.owner == owner && t.zone == None
      && hull[i, j] == flag
    }

    /** The local-space centre of a cell (the grid is centred on its origin):
        it lies on the floor plane, and the cell holding it is that cell. */
    function CellToLocalCenter(x: int, y: int): (c: Vec3)
      reads this
      ensures c.y == 0.0
      ensures cellSize > 0.0 && 0 <= x < cols && 0 <= y < rows ==> LocalToCell(c) == Cell(x, y)
    {
      var c := Vec3(AxisCenter(x, cols, cellSize), 0.0, AxisCenter(y, rows, cellSize));
      if cellSize > 0.0 && 0 <= x < cols && 0 <= y < rows then
        AxisRoundTrip(x, cols, cellSize);
        AxisRoundTrip(y, rows, cellSize);
        c
      else c
    }

    /** The cell containing a local-space point, clamped into the grid. */
    function LocalToCell(local: Vec3): (c: Cell)
      reads this
      requires cellSize > 0.0
      ensures 0 <= c.x <= Max(0, cols - 1) && 0 <= c.y <= Max(0, rows - 1)
    {
      Cell(AxisCell(local.x, cols, cellSize), AxisCell(local.z, rows, cellSize))
    }
  }

  /** Along one axis of n cells of size cs: the centre of cell i ... */
  function AxisCenter(i: int, n: int, cs: real): real
  {
    i as real * cs - n as real * cs * 0.5 + cs * 0.5
  }

  /** ... and the cell holding coordinate v, clamped into 0 .. n - 1. */
  function AxisCell(v: real, n: int, cs: real): (i: int)
    requires cs > 0.0
    ensures 0 <= i <= Max(0, n - 1)
    ensures 0.0 <= (v + n as real * cs * 0.5) / cs < n as real ==>
              i as real <= (v + n as real * cs * 0.5) / cs < i as real + 1.0
  {
    Clamp(FloorToInt((v + n as real * cs * 0.5) / cs), 0, Max(0, n - 1))
  }

  /** The cell holding the centre of cell i is i. */
  lemma AxisRoundTrip(i: int, n: int, cs: real)
    requires cs > 0.0 && 0 <= i < n
    ensures AxisCell(AxisCenter(i, n, cs), n, cs) == i
  {
    var u := AxisCenter(i, n, cs) + n as real * cs * 0.5;
    assert u == (i as real + 0.5) * cs;
    DivOfProduct(u, i as real + 0.5, cs);
    HalfFloor(i);
  }

  lemma HalfFloor(n: int)
    ensures FloorToInt(n as real + 0.5) == n
  {
  }

  lemma DivOfProduct(u: real, a: real, c: real)
    requires c > 0.0 && u == a * c
    ensures u / c == a
  {
  }

  /** Each tile change is forwarded to the grid exactly once, with the tile's
      own coordinate; a repeated SetZone with the same zone is silent. */
  method PaintTwice(g: EditorGrid, x: int, y: int, z: ZoneType)
    requires g.Valid() && g.tiles != null
    requires 0 <= x < g.cols && 0 <= y < g.rows && g.tiles[x, y] != null
    modifies g.Repr
    ensures g.Valid() && g.cols == old(g.cols) && g.rows == old(g.rows)
    ensures old(g.SlotAt(x, y)) != Tile(z) ==>
              g.tileChanges == old(g.tileChanges) + [TileChange(x, y, old(g.tiles[x, y].zone), z)]
    ensures old(g.SlotAt(x, y)) == Tile(z) ==> g.tileChanges == old(g.tileChanges)
    ensures g.SlotAt(x, y) == Tile(z)
  {
    var t := g.tiles[x, y];
    t.SetZone(z);
    t.SetZone(z);
  }
}
