/** Per-zone tile counting (MetricsCalculator.cs). The counts are specified
    on a GridView: ColumnCount and Count say how many tiles of a zone a
    column and a whole grid hold; Tally is the counting loop both the
    calculator and the deck manager run over a live grid. */
module Metrics {
  import opened Common
  import opened Zones
  import opened Grid

  /** The floor area of one cell, in m² (MetricsCalculator.CellArea):
      never negative, and positive for a cell of non-zero size. */
  function CellArea(cellSize: real): (a: real)
    ensures a >= 0.0
    ensures cellSize != 0.0 ==> a > 0.0
  {
    SquarePositive(cellSize);
    Mul(cellSize, cellSize)
  }

  /** How many slots of a column hold a tile of zone z. */
  function ColumnCount(col: seq<Slot>, z: ZoneType): nat
  {
    if col == [] then 0
    else ColumnCount(col[..|col| - 1], z) + (if col[|col| - 1] == Tile(z) then 1 else 0)
  }

  /** How many slots of the columns hold a tile of zone z. */
  function SlotsCount(cols: seq<seq<Slot>>, z: ZoneType): nat
  {
    if cols == [] then 0
    else SlotsCount(cols[..|cols| - 1], z) + ColumnCount(cols[|cols| - 1], z)
  }

  /** How many cells of the grid hold a tile of zone z. */
  function Count(v: GridView, z: ZoneType): nat
  {
    SlotsCount(v.slots, z)
  }

  /** A zone is counted at least once exactly when some column holds one of
      its tiles. */
  lemma {:induction false} ColumnCountPositive(col: seq<Slot>, z: ZoneType)
    ensures ColumnCount(col, z) >= 1 <==> exists y :: 0 <= y < |col| && col[y] == Tile(z)
  {
    if col != [] {
      var init := col[..|col| - 1];
      ColumnCountPositive(init, z);
      if exists y :: 0 <= y < |init| && init[y] == Tile(z) {
        var y :| 0 <= y < |init| && init[y] == Tile(z);
        assert col[y] == Tile(z);
      }
      if exists y :: 0 <= y < |col| && col[y] == Tile(z) {
        var y :| 0 <= y < |col| && col[y] == Tile(z);
        if y < |init| {
          assert init[y] == Tile(z);
        }
      }
    }
  }

  lemma {:induction false} SlotsCountPositive(cols: seq<seq<Slot>>, z: ZoneType)
    ensures SlotsCount(cols, z) >= 1 <==>
              exists x, y :: 0 <= x < |cols| && 0 <= y < |cols[x]| && cols[x][y] == Tile(z)
  {
    if cols != [] {
      var init := cols[..|cols| - 1];
      var last := cols[|cols| - 1];
      SlotsCountPositive(init, z);
      ColumnCountPositive(last, z);
      if exists x, y :: 0 <= x < |init| && 0 <= y < |init[x]| && init[x][y] == Tile(z) {
        var x, y :| 0 <= x < |init| && 0 <= y < |init[x]| && init[x][y] == Tile(z);
        assert cols[x][y] == Tile(z);
      }
      if exists y :: 0 <= y < |last| && last[y] == Tile(z) {
        var y :| 0 <= y < |last| && last[y] == Tile(z);
        assert cols[|cols| - 1][y] == Tile(z);
      }
      if exists x, y :: 0 <= x < |cols| && 0 <= y < |cols[x]| && cols[x][y] == Tile(z) {
        var x, y :| 0 <= x < |cols| && 0 <= y < |cols[x]| && cols[x][y] == Tile(z);
        if x < |init| {
          assert init[x][y] == Tile(z);
        } else {
          assert last[y] == Tile(z);
        }
      }
    }
  }

  /** A zone's count is positive exactly when some cell of the grid holds it. */
  lemma CountPositive(v: GridView, z: ZoneType)
    requires v.Wf()
    ensures Count(v, z) >= 1 <==> exists c :: v.InBounds(c) && v.Has(c, z)
  {
    SlotsCountPositive(v.slots, z);
    if Count(v, z) >= 1 {
      var x, y :| 0 <= x < |v.slots| && 0 <= y < |v.slots[x]| && v.slots[x][y] == Tile(z);
      assert v.InBounds(Cell(x, y)) && v.Has(Cell(x, y), z);
    }
    if exists c :: v.InBounds(c) && v.Has(c, z) {
      var c :| v.InBounds(c) && v.Has(c, z);
      assert v.slots[c.x][c.y] == Tile(z);
    }
  }

  // ---------------------------------------------------------------------
  // The counts add up: over all zones but None they count each occupied
  // cell once.

  /** The zones a count map can hold: every zone but None, in code order. */
  const Counted: seq<ZoneType> :=
    [Sleep, Hygiene, ECLSS, Galley, Storage, Exercise, Medical, Maintenance, Recreation, Airlock, Corridor]

  /** How many slots of a column hold a tile of some zone other than None. */
  function ColumnOccupied(col: seq<Slot>): (n: nat)
    ensures n <= |col|
  {
    if col == [] then 0
    else ColumnOccupied(col[..|col| - 1]) + (if col[|col| - 1].Tile? && col[|col| - 1].zone != None then 1 else 0)
  }

  function SlotsOccupied(cols: seq<seq<Slot>>): nat
  {
    if cols == [] then 0 else SlotsOccupied(cols[..|cols| - 1]) + ColumnOccupied(cols[|cols| - 1])
  }

  /** The sum over the zones zs of their counts in the columns. */
  function ZoneTotal(cols: seq<seq<Slot>>, zs: seq<ZoneType>): nat
  {
    if zs == [] then 0 else SlotsCount(cols, zs[0]) + ZoneTotal(cols, zs[1..])
  }

  function ColumnZoneTotal(col: seq<Slot>, zs: seq<ZoneType>): nat
  {
    if zs == [] then 0 else ColumnCount(col, zs[0]) + ColumnZoneTotal(col, zs[1..])
  }

  /** How many of the zones zs a slot holds a tile of. */
  function Hits(s: Slot, zs: seq<ZoneType>): nat
  {
    if zs == [] then 0 else (if s == Tile(zs[0]) then 1 else 0) + Hits(s, zs[1..])
  }

  /** Over a list without repeats, a slot hits one zone or none: one
      exactly when it holds a tile of a listed zone. */
  lemma {:induction false} HitsDistinct(s: Slot, zs: seq<ZoneType>)
    requires forall i, j :: 0 <= i < j < |zs| ==> zs[i] != zs[j]
    ensures Hits(s, zs) == if s.Tile? && s.zone in zs then 1 else 0
  {
    if zs != [] {
      HitsDistinct(s, zs[1..]);
      assert s.Tile? && s.zone in zs <==> s == Tile(zs[0]) || (s.Tile? && s.zone in zs[1..]);
    }
  }

  /** Counted lists every zone but None, each once. */
  lemma CountedZones()
    ensures forall i, j :: 0 <= i < j < |Counted| ==> Counted[i] != Counted[j]
    ensures forall z :: z in Counted <==> z != None
  {
    forall z | z != None
      ensures z in Counted
    {
      var k := ToInt(z);
      assert Counted[k - 1] == z by {
        match z
        case Sleep => case Hygiene => case ECLSS => case Galley => case Storage =>
        case Exercise => case Medical => case Maintenance => case Recreation =>
        case Airlock => case Corridor =>
      }
    }
  }

  /** A slot holds one of the counted zones exactly when it holds a tile
      other than None. */
  lemma HitsCounted(s: Slot)
    ensures Hits(s, Counted) == if s.Tile? && s.zone != None then 1 else 0
  {
    CountedZones();
    HitsDistinct(s, Counted);
  }

  lemma {:induction false} ColumnZoneTotalStep(col: seq<Slot>, zs: seq<ZoneType>)
    requires col != []
    ensures ColumnZoneTotal(col, zs) == ColumnZoneTotal(col[..|col| - 1], zs) + Hits(col[|col| - 1], zs)
  {
    if zs != [] {
      ColumnZoneTotalStep(col, zs[1..]);
    }
  }

  lemma {:induction false} ColumnZoneTotalEmpty(zs: seq<ZoneType>)
    ensures ColumnZoneTotal([], zs) == 0
  {
    if zs != [] {
      ColumnZoneTotalEmpty(zs[1..]);
    }
  }

  lemma {:induction false} ZoneTotalEmpty(zs: seq<ZoneType>)
    ensures ZoneTotal([], zs) == 0
  {
    if zs != [] {
      ZoneTotalEmpty(zs[1..]);
    }
  }

  lemma {:induction false} ColumnTotal(col: seq<Slot>)
    ensures ColumnZoneTotal(col, Counted) == ColumnOccupied(col)
  {
    if col != [] {
      ColumnZoneTotalStep(col, Counted);
      ColumnTotal(col[..|col| - 1]);
      HitsCounted(col[|col| - 1]);
    } else {
      ColumnZoneTotalEmpty(Counted);
    }
  }

  lemma {:induction false} ZoneTotalStep(cols: seq<seq<Slot>>, zs: seq<ZoneType>)
    requires cols != []
    ensures ZoneTotal(cols, zs) == ZoneTotal(cols[..|cols| - 1], zs) + ColumnZoneTotal(cols[|cols| - 1], zs)
  {
    if zs != [] {
      ZoneTotalStep(cols, zs[1..]);
    }
  }

  lemma {:induction false} SlotsTotal(cols: seq<seq<Slot>>, h: nat)
    requires forall x :: 0 <= x < |cols| ==> |cols[x]| == h
    ensures ZoneTotal(cols, Counted) == SlotsOccupied(cols) <= |cols| * h
  {
    if cols != [] {
      var init := cols[..|cols| - 1];
      ZoneTotalStep(cols, Counted);
      ColumnTotal(cols[|cols| - 1]);
      SlotsTotal(init, h);
      assert |cols| * h == |init| * h + h;
    } else {
      ZoneTotalEmpty(Counted);
    }
  }

  /** Summed over every zone but None, the counts give the number of cells
      holding a tile other than None, which is at most cols x rows. */
  lemma CountsAddUp(v: GridView)
    requires v.Wf()
    ensures ZoneTotal(v.slots, Counted) == SlotsOccupied(v.slots) <= v.cols * v.rows
  {
    SlotsTotal(v.slots, v.rows);
  }

  // ---------------------------------------------------------------------
  // The counting loop.

  /** The count a map holds for z; a missing key counts zero. */
  function Lookup(m: map<ZoneType, int>, z: ZoneType): int
  {
    if z in m then m[z] else 0
  }

  /** The shape of every count map: no None key, and a key only for a zone
      counted at least once. */
  predicate CountMap(m: map<ZoneType, int>)
  {
    None !in m && forall z :: z in m ==> m[z] >= 1
  }

  /** Adds every non-None tile of the grid to the counts, one at a time, in
      column-major order (the body of CountTiles and of one CountTilesAll
      deck). */
  method Tally(g: EditorGrid, counts0: map<ZoneType, int>) returns (counts: map<ZoneType, int>)
    requires g.Valid() && CountMap(counts0)
    ensures CountMap(counts)
    ensures forall z :: z != None ==> Lookup(counts, z) == Lookup(counts0, z) + Count(g.View(), z)
  {
    ghost var V := g.View();
    counts := counts0;
    var x := 0;
    while x < g.cols
      invariant 0 <= x <= g.cols
      invariant CountMap(counts)
      invariant forall z :: z != None ==> Lookup(counts, z) == Lookup(counts0, z) + SlotsCount(V.slots[..x], z)
    {
      var y := 0;
      while y < g.rows
        invariant 0 <= y <= g.rows
        invariant CountMap(counts)
        invariant forall z :: z != None ==>
          Lookup(counts, z) == Lookup(counts0, z) + SlotsCount(V.slots[..x], z) + ColumnCount(V.slots[x][..y], z)
      {
        var t := g.tiles[x, y];
        assert V.slots[x][..y + 1][..y] == V.slots[x][..y];
        if t != null && t.zone != None {
          var z := t.zone;
          if z !in counts {
            counts := counts[z := 0];
          }
          counts := counts[z := counts[z] + 1];
        }
        y := y + 1;
      }
      assert V.slots[..x + 1][..x] == V.slots[..x];
      assert V.slots[x][..y] == V.slots[x];
      x := x + 1;
    }
    assert V.slots[..x] == V.slots;
  }

  /** MetricsCalculator.CountTiles: the number of tiles of each zone other
      than None, with a key exactly for the zones present. */
  method CountTiles(g: EditorGrid) returns (counts: map<ZoneType, int>)
    requires g.Valid()
    ensures None !in counts
    ensures forall z :: z != None ==> (z in counts <==> Count(g.View(), z) >= 1)
    ensures forall z :: z in counts ==> counts[z] == Count(g.View(), z)
  {
    counts := Tally(g, map[]);
  }

  /** The number of tiles of zone t on a live grid, None included, column by
      column (the loop of LayoutValidator.AreaOf). */
  method CountOf(g: EditorGrid, t: ZoneType) returns (count: int)
    requires g.Valid()
    ensures count == Count(g.View(), t)
  {
    ghost var V := g.View();
    count := 0;
    var x := 0;
    while x < g.cols
      invariant 0 <= x <= g.cols
      invariant count == SlotsCount(V.slots[..x], t)
    {
      var n := ColumnCountOf(g, x, t);
      assert V.slots[..x + 1][..x] == V.slots[..x];
      assert SlotsCount(V.slots[..x + 1], t) == SlotsCount(V.slots[..x], t) + ColumnCount(V.slots[x], t);
      count := count + n;
      x := x + 1;
    }
    assert V.slots[..x] == V.slots;
  }

  /** The number of tiles of zone t in column x, row by row. */
  method ColumnCountOf(g: EditorGrid, x: int, t: ZoneType) returns (n: int)
    requires g.Valid() && 0 <= x < g.cols
    ensures n == ColumnCount(g.View().slots[x], t)
  {
    ghost var col := g.View().slots[x];
    n := 0;
    var y := 0;
    while y < g.rows
      invariant 0 <= y <= g.rows
      invariant n == ColumnCount(col[..y], t)
    {
      var tile := g.tiles[x, y];
      assert col[..y + 1][..y] == col[..y];
      if tile != null && tile.zone == t {
        n := n + 1;
      }
      y := y + 1;
    }
    assert col[..y] == col;
  }
}
