/** Object occupancy on a grid (EditorGridOccupancy.cs) and the objects that
    occupy it (PlaceableObject.cs). The occupancy keeps a blocked flag per
    cell and, per object, the cells it last marked; both are updated in place. */
module Occupancy {
  import opened Common
  import opened Zones
  import opened Grid

  // ---------------------------------------------------------------------
  // The rotated rectangular footprint, as a value.

  /** (rot90 % 4 + 4) % 4 with C#'s truncating remainder. */
  function NormalizeRot(rot90: int): (r: int)
    ensures r == rot90 % 4
  {
    CsRem(CsRem(rot90, 4) + 4, 4)
  }

  /** The footprint extent along x and y after rotation: odd quarter turns swap them. */
  function RotatedSize(sizeX: int, sizeY: int, rot90: int): (int, int)
  {
    if NormalizeRot(rot90) % 2 == 1 then (sizeY, sizeX) else (sizeX, sizeY)
  }

  /** First and last index of an extent w around centre c: odd extents are
      centred, even ones put the extra cell on the positive side. */
  function RangeStart(c: int, w: int): int
  {
    c - CsDiv(w, 2) + (if CsRem(w, 2) == 0 then 1 else 0)
  }

  function RangeEnd(c: int, w: int): int
  {
    c + CsDiv(w, 2)
  }

  /** Cells (x, sy) .. (x, ey), in increasing y. */
  function Column(x: int, sy: int, ey: int): (s: seq<Cell>)
    decreases ey - sy
  {
    if ey < sy then [] else Column(x, sy, ey - 1) + [Cell(x, ey)]
  }

  /** The rectangle [sx..ex] x [sy..ey], listed x-major, y-minor. */
  function Rect(sx: int, ex: int, sy: int, ey: int): (s: seq<Cell>)
    decreases ex - sx
  {
    if ex < sx then [] else Rect(sx, ex - 1, sy, ey) + Column(ex, sy, ey)
  }

  /** The cells GetCells lists for an object of the given size. */
  function Footprint(sizeX: int, sizeY: int, center: Cell, rot90: int): seq<Cell>
  {
    var (w, h) := RotatedSize(sizeX, sizeY, rot90);
    Rect(RangeStart(center.x, w), RangeEnd(center.x, w),
         RangeStart(center.y, h), RangeEnd(center.y, h))
  }

  /** Strict x-major, y-minor order of cells. */
  predicate Before(a: Cell, b: Cell)
  {
    a.x < b.x || (a.x == b.x && a.y < b.y)
  }

  predicate Ordered(s: seq<Cell>)
  {
    forall i, j :: 0 <= i < j < |s| ==> Before(s[i], s[j])
  }

  lemma {:induction false} ColumnLength(x: int, sy: int, ey: int)
    ensures |Column(x, sy, ey)| == Max(0, ey - sy + 1)
    decreases ey - sy
  {
    if ey >= sy {
      ColumnLength(x, sy, ey - 1);
    }
  }

  lemma {:induction false} ColumnFacts(x: int, sy: int, ey: int)
    ensures forall c :: c in Column(x, sy, ey) <==> c.x == x && sy <= c.y <= ey
    ensures Ordered(Column(x, sy, ey))
    decreases ey - sy
  {
    if ey >= sy {
      ColumnFacts(x, sy, ey - 1);
    }
  }

  /** Two ordered lists whose cells all come in order across the join make
      an ordered concatenation. */
  lemma ConcatOrdered(a: seq<Cell>, b: seq<Cell>)
    requires Ordered(a) && Ordered(b)
    requires forall p, q :: p in a && q in b ==> Before(p, q)
    ensures Ordered(a + b)
  {
    forall i, j | 0 <= i < j < |a + b|
      ensures Before((a + b)[i], (a + b)[j])
    {
      if j < |a| {
        assert (a + b)[i] == a[i] && (a + b)[j] == a[j];
      } else if i >= |a| {
        assert (a + b)[i] == b[i - |a|] && (a + b)[j] == b[j - |a|];
      } else {
        assert (a + b)[i] == a[i] && a[i] in a;
        assert (a + b)[j] == b[j - |a|] && b[j - |a|] in b;
      }
    }
  }

  lemma {:induction false} RectLength(sx: int, ex: int, sy: int, ey: int)
    ensures |Rect(sx, ex, sy, ey)| == Max(0, ex - sx + 1) * Max(0, ey - sy + 1)
    decreases ex - sx
  {
    if ex >= sx {
      RectLength(sx, ex - 1, sy, ey);
      ColumnLength(ex, sy, ey);
      var m, n := ex - sx, Max(0, ey - sy + 1);
      assert |Rect(sx, ex - 1, sy, ey)| == m * n;
      assert |Rect(sx, ex, sy, ey)| == m * n + n;
      assert (m + 1) * n == m * n + n;
    }
  }

  lemma {:induction false} RectMembers(sx: int, ex: int, sy: int, ey: int)
    ensures forall c :: c in Rect(sx, ex, sy, ey) <==> sx <= c.x <= ex && sy <= c.y <= ey
    decreases ex - sx
  {
    if ex >= sx {
      RectMembers(sx, ex - 1, sy, ey);
      ColumnFacts(ex, sy, ey);
    }
  }

  lemma {:induction false} RectOrdered(sx: int, ex: int, sy: int, ey: int)
    ensures Ordered(Rect(sx, ex, sy, ey))
    decreases ex - sx
  {
    if ex >= sx {
      RectOrdered(sx, ex - 1, sy, ey);
      RectMembers(sx, ex - 1, sy, ey);
      ColumnFacts(ex, sy, ey);
      ConcatOrdered(Rect(sx, ex - 1, sy, ey), Column(ex, sy, ey));
    }
  }

  /** A non-negative extent w spans exactly w indices. */
  lemma RangeSpan(c: int, w: int)
    requires w >= 0
    ensures RangeEnd(c, w) - RangeStart(c, w) + 1 == w
  {
  }

  /** An extent of at least one cell covers its centre: an odd extent is
      centred on it, an even one puts the extra cell on the positive side. */
  lemma RangeHasCenter(c: int, w: int)
    requires w >= 1
    ensures RangeStart(c, w) <= c <= RangeEnd(c, w)
    ensures c - RangeStart(c, w) == (w - 1) / 2 && RangeEnd(c, w) - c == w / 2
  {
  }

  /** For non-negative sizes the footprint is the rectangle between the range
      bounds, listed x-major, y-minor without repetition, with w * h cells. */
  lemma FootprintShape(sizeX: int, sizeY: int, center: Cell, rot90: int)
    requires sizeX >= 0 && sizeY >= 0
    ensures var (w, h) := RotatedSize(sizeX, sizeY, rot90);
            var fp := Footprint(sizeX, sizeY, center, rot90);
            && |fp| == w * h
            && Ordered(fp)
            && (forall c :: c in fp <==>
                  RangeStart(center.x, w) <= c.x <= RangeEnd(center.x, w) &&
                  RangeStart(center.y, h) <= c.y <= RangeEnd(center.y, h))
  {
    var (w, h) := RotatedSize(sizeX, sizeY, rot90);
    RangeSpan(center.x, w);
    RangeSpan(center.y, h);
    var sx, ex, sy, ey := RangeStart(center.x, w), RangeEnd(center.x, w), RangeStart(center.y, h), RangeEnd(center.y, h);
    RectLength(sx, ex, sy, ey);
    RectMembers(sx, ex, sy, ey);
    RectOrdered(sx, ex, sy, ey);
  }

  /** An ordered footprint lists no cell twice. */
  lemma OrderedDistinct(s: seq<Cell>, i: int, j: int)
    requires Ordered(s) && 0 <= i < |s| && 0 <= j < |s| && i != j
    ensures s[i] != s[j]
  {
  }

  /** The centre cell is part of any footprint of at least one cell each way. */
  lemma FootprintHasCenter(sizeX: int, sizeY: int, center: Cell, rot90: int)
    requires sizeX >= 1 && sizeY >= 1
    ensures center in Footprint(sizeX, sizeY, center, rot90)
  {
    var (w, h) := RotatedSize(sizeX, sizeY, rot90);
    RangeHasCenter(center.x, w);
    RangeHasCenter(center.y, h);
    FootprintShape(sizeX, sizeY, center, rot90);
  }

  /** Rotations that differ by whole turns give the same footprint. */
  lemma {:induction false} RotationPeriodic(sizeX: int, sizeY: int, center: Cell, rot90: int, k: int)
    ensures Footprint(sizeX, sizeY, center, rot90 + 4 * k) == Footprint(sizeX, sizeY, center, rot90)
  {
    assert (rot90 + 4 * k) % 4 == rot90 % 4;
  }

  /** A half turn leaves the footprint as it is: rotations 0 and 2 agree, as do 1 and 3. */
  lemma HalfTurn(sizeX: int, sizeY: int, center: Cell, rot90: int)
    ensures Footprint(sizeX, sizeY, center, rot90 + 2) == Footprint(sizeX, sizeY, center, rot90)
  {
    assert (rot90 + 2) % 4 % 2 == rot90 % 4 % 2;
  }

  // ---------------------------------------------------------------------
  // The occupancy component.

  class EditorGridOccupancy {
    var grid: EditorGrid
    /** Blocked[x, y]: the cell is taken by an object. */
    var blocked: array2<bool>
    /** For each object, the cells it last marked. */
    var byObject: map<PlaceableObject, seq<Cell>>

    ghost predicate Valid()
      reads this, grid, grid.Repr
    {
      && grid.Valid()
      && blocked !in grid.Repr
      && blocked.Length0 == grid.cols && blocked.Length1 == grid.rows
    }

    predicate InBounds(c: Cell)
      reads this, grid
    {
      0 <= c.x < grid.cols && 0 <= c.y < grid.rows
    }

    /** A cell an object may be put on: in bounds, painted with a zone other
        than None, and not blocked. */
    predicate Placeable(c: Cell)
      reads this, grid, grid.Repr, blocked
      requires Valid()
    {
      && InBounds(c)
      && grid.SlotAt(c.x, c.y) != NoTile
      && grid.SlotAt(c.x, c.y).zone != None
      && !blocked[c.x, c.y]
    }

    /** Awake: attach to the grid and allocate. */
    constructor (g: EditorGrid)
      requires g.Valid()
      ensures grid == g && Valid() && fresh(blocked)
      ensures forall i, j :: 0 <= i < g.cols && 0 <= j < g.rows ==> !blocked[i, j]
      ensures byObject == map[]
    {
      grid := g;
      blocked := new bool[g.cols, g.rows]((i, j) => false);
      byObject := map[];
    }

    /** Resizes Blocked to the grid and forgets every object. */
    method Realloc()
      requires grid.Valid()
      modifies this`blocked, this`byObject
      ensures Valid() && fresh(blocked)
      ensures forall i, j :: 0 <= i < grid.cols && 0 <= j < grid.rows ==> !blocked[i, j]
      ensures byObject == map[]
    {
      blocked := new bool[grid.cols, grid.rows]((i, j) => false);
      byObject := map[];
    }

    /** Whether every listed cell is placeable; stops at the first that is not. */
    method CanPlace(cells: seq<Cell>) returns (ok: bool)
      requires Valid()
      ensures ok <==> forall c :: c in cells ==> Placeable(c)
    {
      var k := 0;
      while k < |cells|
        invariant 0 <= k <= |cells|
        invariant forall i :: 0 <= i < k ==> Placeable(cells[i])
      {
        var c := cells[k];
        assert c in cells;
        if c.x < 0 || c.y < 0 || c.x >= grid.cols || c.y >= grid.rows {
          assert !InBounds(c);
          return false;
        }
        var t := grid.tiles[c.x, c.y];
        if t == null || t.zone == None {
          assert !Placeable(c);
          return false;
        }
        if blocked[c.x, c.y] {
          assert !Placeable(c);
          return false;
        }
        k := k + 1;
      }
      return true;
    }

    /** Sets the flag of every listed in-bounds cell (others are skipped),
        then records the list as obj's footprint (value true) or forgets obj. */
    method Mark(obj: PlaceableObject, cells: seq<Cell>, value: bool)
      requires Valid()
      modifies blocked, this`byObject
      ensures Valid()
      ensures forall i, j :: 0 <= i < blocked.Length0 && 0 <= j < blocked.Length1 ==>
                blocked[i, j] == (if Cell(i, j) in cells then value else old(blocked[i, j]))
      ensures byObject == if value then old(byObject)[obj := cells] else old(byObject) - {obj}
    {
      var k := 0;
      while k < |cells|
        modifies blocked
        invariant 0 <= k <= |cells|
        invariant forall i, j :: 0 <= i < blocked.Length0 && 0 <= j < blocked.Length1 ==>
                    blocked[i, j] == (if Cell(i, j) in cells[..k] then value else old(blocked[i, j]))
      {
        var c := cells[k];
        if !(c.x < 0 || c.y < 0 || c.x >= grid.cols || c.y >= grid.rows) {
          blocked[c.x, c.y] := value;
        }
        assert cells[..k + 1] == cells[..k] + [c];
        k := k + 1;
      }
      assert cells[..k] == cells;
      if value {
        byObject := byObject[obj := cells];
      } else {
        byObject := byObject - {obj};
      }
    }

    /** Releases the cells recorded for obj and forgets it; an unknown object
        changes nothing. Other objects listing the same cells are not consulted. */
    method UnmarkObject(obj: PlaceableObject)
      requires Valid()
      modifies blocked, this`byObject
      ensures Valid()
      ensures obj !in old(byObject) ==> byObject == old(byObject) && unchanged(blocked)
      ensures obj in old(byObject) ==>
                && byObject == old(byObject) - {obj}
                && forall i, j :: 0 <= i < blocked.Length0 && 0 <= j < blocked.Length1 ==>
                     blocked[i, j] == (if Cell(i, j) in old(byObject)[obj] then false else old(blocked[i, j]))
      ensures obj !in byObject
    {
      if obj !in byObject {
        return;
      }
      Mark(obj, byObject[obj], false);
    }
  }

  class PlaceableObject {
    var sizeX: int
    var sizeY: int
    var occupyCells: bool
    var occupancy: EditorGridOccupancy?

    /** The inspector defaults: a 2 x 1 footprint that occupies cells. */
    constructor ()
      ensures sizeX == 2 && sizeY == 1 && occupyCells && occupancy == null
    {
      sizeX, sizeY := 2, 1;
      occupyCells := true;
      occupancy := null;
    }

    /** The footprint cells for a centre cell and a quarter-turn count.
        C#'s List constructor throws for a negative capacity w * h. */
    method GetCells(center: Cell, rot90: int) returns (cells: seq<Cell>)
      requires sizeX * sizeY >= 0
      ensures cells == Footprint(sizeX, sizeY, center, rot90)
    {
      var w, h := sizeX, sizeY;
      var rot := CsRem(CsRem(rot90, 4) + 4, 4);
      if rot % 2 == 1 {
        w, h := h, w;
      }
      var halfW, halfH := CsDiv(w, 2), CsDiv(h, 2);
      var startX := center.x - halfW + (if CsRem(w, 2) == 0 then 1 else 0);
      var endX := center.x + halfW;
      var startY := center.y - halfH + (if CsRem(h, 2) == 0 then 1 else 0);
      var endY := center.y + halfH;
      assert (w, h) == RotatedSize(sizeX, sizeY, rot90);
      assert startX == RangeStart(center.x, w) && endX == RangeEnd(center.x, w);
      assert startY == RangeStart(center.y, h) && endY == RangeEnd(center.y, h);
      cells := [];
      var x := startX;
      while x <= endX
        invariant x == startX || startX <= x <= endX + 1
        invariant cells == Rect(startX, x - 1, startY, endY)
        decreases endX - x
      {
        var y := startY;
        while y <= endY
          invariant y == startY || startY <= y <= endY + 1
          invariant cells == Rect(startX, x - 1, startY, endY) + Column(x, startY, y - 1)
          decreases endY - y
        {
          cells := cells + [Cell(x, y)];
          y := y + 1;
        }
        assert Column(x, startY, y - 1) == Column(x, startY, endY);
        x := x + 1;
      }
      assert Rect(startX, x - 1, startY, endY) == Rect(startX, endX, startY, endY);
    }

    /** Moves this object's footprint: releases what it held, then marks the
        new cells. Does nothing when the object does not occupy cells or has
        no occupancy. */
    method ApplyOccupancy(center: Cell, rot90: int)
      requires occupyCells && occupancy != null ==> sizeX * sizeY >= 0
      requires occupancy != null ==> occupancy.Valid()
      modifies if occupancy == null then {} else {occupancy, occupancy.blocked}
      ensures (!occupyCells || occupancy == null) ==>
                occupancy == null || (unchanged(occupancy) && unchanged(occupancy.blocked))
      ensures occupyCells && occupancy != null ==>
                var occ := occupancy;
                var cells := Footprint(sizeX, sizeY, center, rot90);
                && occ.Valid() && occ.grid == old(occ.grid) && occ.blocked == old(occ.blocked)
                && occ.byObject == old(occ.byObject)[this := cells]
                && forall i, j :: 0 <= i < occ.blocked.Length0 && 0 <= j < occ.blocked.Length1 ==>
                     occ.blocked[i, j] ==
                       if Cell(i, j) in cells then true
                       else if this in old(occ.byObject) && Cell(i, j) in old(occ.byObject)[this] then false
                       else old(occ.blocked[i, j])
    {
      if !occupyCells || occupancy == null {
        return;
      }
      occupancy.UnmarkObject(this);
      var cells := GetCells(center, rot90);
      occupancy.Mark(this, cells, true);
    }

    /** Releases this object's recorded footprint, if it has an occupancy. */
    method ClearOccupancy()
      requires occupancy != null ==> occupancy.Valid()
      modifies if occupancy == null then {} else {occupancy, occupancy.blocked}
      ensures occupancy != null ==>
                var occ := occupancy;
                && occ.Valid() && occ.grid == old(occ.grid) && occ.blocked == old(occ.blocked)
                && occ.byObject == old(occ.byObject) - {this}
                && forall i, j :: 0 <= i < occ.blocked.Length0 && 0 <= j < occ.blocked.Length1 ==>
                     occ.blocked[i, j] ==
                       if this in old(occ.byObject) && Cell(i, j) in old(occ.byObject)[this] then false
                       else old(occ.blocked[i, j])
    {
      if occupancy != null {
        occupancy.UnmarkObject(this);
      }
    }
  }

  /** Applying the same centre and rotation twice leaves the occupancy
      exactly as one application does. */
  method ReapplyIsIdempotent(p: PlaceableObject, center: Cell, rot90: int)
    requires p.sizeX * p.sizeY >= 0 && p.occupyCells
    requires p.occupancy != null && p.occupancy.Valid()
    modifies p.occupancy, p.occupancy.blocked
    ensures var occ := p.occupancy;
            var cells := Footprint(p.sizeX, p.sizeY, center, rot90);
            && occ.Valid() && occ.blocked == old(occ.blocked)
            && occ.byObject == old(occ.byObject)[p := cells]
            && forall i, j :: 0 <= i < occ.blocked.Length0 && 0 <= j < occ.blocked.Length1 ==>
                 occ.blocked[i, j] ==
                   if Cell(i, j) in cells then true
                   else if p in old(occ.byObject) && Cell(i, j) in old(occ.byObject)[p] then false
                   else old(occ.blocked[i, j])
  {
    p.ApplyOccupancy(center, rot90);
    p.ApplyOccupancy(center, rot90);
  }
}
