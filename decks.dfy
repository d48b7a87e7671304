/** The decks of a habitat (DeckManager.cs): one zone grid per deck, built
    from the shape preset, of which one is active at a time; and the counts
    and areas summed over all decks. */
module Decks {
  import opened Common
  import opened Zones
  import opened Grid
  import opened Presets
  import opened Metrics

  /** Zone z's cells over all the grids. */
  function DeckCount(views: seq<GridView>, z: ZoneType): nat
  {
    if views == [] then 0
    else DeckCount(views[..|views| - 1], z) + Count(views[|views| - 1], z)
  }

  /** A zone is present on some deck exactly when its total is positive. */
  lemma {:induction false} DeckCountPositive(views: seq<GridView>, z: ZoneType)
    ensures DeckCount(views, z) >= 1 <==> exists i :: 0 <= i < |views| && Count(views[i], z) >= 1
  {
    if views != [] {
      var init := views[..|views| - 1];
      DeckCountPositive(init, z);
      if DeckCount(init, z) >= 1 {
        var i :| 0 <= i < |init| && Count(init[i], z) >= 1;
        assert views[i] == init[i];
      }
      if exists i :: 0 <= i < |views| && Count(views[i], z) >= 1 {
        var i :| 0 <= i < |views| && Count(views[i], z) >= 1;
        if i < |init| {
          assert init[i] == views[i];
        }
      }
    }
  }

  /** The hull mask a preset's shape asks for. */
  function MaskOf(shape: HabitatShape): (m: HabitatMask)
    ensures m == Rectangle <==> shape == Prism
  {
    if shape == Prism then Rectangle else Cylinder
  }

  function AreaLookup(m: map<ZoneType, real>, z: ZoneType): real
  {
    if z in m then m[z] else 0.0
  }

  class DeckManager {
    var preset: ShapePreset
    var activeDeck: int
    var decks: seq<EditorGrid>
    /** Every OnActiveDeckChanged notification so far, oldest first. */
    var activeChanges: seq<EditorGrid>
    ghost var Repr: set<object>

    /** Every deck is a valid grid owning a footprint of its own. */
    ghost predicate Valid()
      reads this, Repr
    {
      && this in Repr
      && (forall i :: 0 <= i < |decks| ==>
            decks[i] in Repr && decks[i].Repr <= Repr && this !in decks[i].Repr && decks[i].Valid())
      && (forall i, j :: 0 <= i < |decks| && 0 <= j < |decks| && i != j ==> decks[i].Repr !! decks[j].Repr)
    }

    /** The grids' contents, deck by deck. */
    ghost function Views(): (vs: seq<GridView>)
      reads this, Repr
      requires Valid()
      ensures |vs| == |decks|
      ensures forall i :: 0 <= i < |decks| ==> vs[i] == decks[i].View()
    {
      seq(|decks|, i requires 0 <= i < |decks| && Valid() reads this, Repr => decks[i].View())
    }

    constructor (preset: ShapePreset)
      ensures Valid() && fresh(Repr - {this})
      ensures this.preset == preset && activeDeck == 0 && decks == [] && activeChanges == []
    {
      this.preset := preset;
      activeDeck := 0;
      decks := [];
      activeChanges := [];
      Repr := {this};
    }

    /** Replaces the decks with max(1, preset.decks) fresh, empty grids sized
        from the preset; only the deck at ActiveDeck is shown. */
    method BuildDecks()
      requires preset.cellSize > 0.0
      modifies this
      ensures Valid() && fresh(Repr - {this})
      ensures preset == old(preset) && activeDeck == old(activeDeck) && activeChanges == old(activeChanges)
      ensures |decks| == Max(1, preset.decks)
      ensures forall i :: 0 <= i < |decks| ==> Built(decks[i], preset, i == activeDeck)
    {
      var n := Max(1, preset.decks);
      decks := [];
      Repr := {this};
      var i := 0;
      while i < n
        invariant 0 <= i <= n && |decks| == i
        invariant Valid() && fresh(Repr - {this})
        invariant preset == old(preset) && activeDeck == old(activeDeck) && activeChanges == old(activeChanges)
        invariant forall k :: 0 <= k < i ==> Built(decks[k], preset, k == activeDeck)
      {
        var grid := NewDeck(i == activeDeck);
        Append(grid);
        i := i + 1;
      }
    }

    /** Decks.Add: one more deck, with a footprint of its own. */
    method Append(grid: EditorGrid)
      requires Valid() && grid.Valid() && grid.Repr !! Repr
      modifies this`decks, this`Repr
      ensures Valid()
      ensures decks == old(decks) + [grid] && Repr == old(Repr) + grid.Repr
    {
      decks := decks + [grid];
      Repr := Repr + grid.Repr;
    }

    /** A grid made from the preset: its sizes and mask, empty tiles, and
        the given visibility. */
    ghost predicate Built(g: EditorGrid, p: ShapePreset, shown: bool)
      reads g, g.Repr
    {
      && g.Valid() && p.cellSize > 0.0
      && g.cellSize == p.cellSize && g.lengthM == p.length && g.diameterM == p.diameter
      && g.mask == MaskOf(p.shape) && g.active == shown
      && g.cols == CellCount(p.length, p.cellSize) && g.rows == CellCount(p.diameter, p.cellSize)
      && g.tileChanges == []
      && forall x, y :: 0 <= x < g.cols && 0 <= y < g.rows ==> g.SlotAt(x, y) == Tile(None)
    }

    /** One deck: a fresh grid sized from the preset and rebuilt. */
    method NewDeck(shown: bool) returns (grid: EditorGrid)
      requires preset.cellSize > 0.0
      ensures fresh(grid) && fresh(grid.Repr)
      ensures Built(grid, preset, shown)
    {
      grid := new EditorGrid();
      grid.cellSize := preset.cellSize;
      grid.lengthM := preset.length;
      grid.diameterM := preset.diameter;
      grid.mask := MaskOf(preset.shape);
      grid.Rebuild();
      grid.SetActive(shown);
    }

    /** A grid whose tile array, size and cell size are as given. */
    predicate Kept(g: EditorGrid, tiles: array2?<GridTile?>, cols: int, rows: int, cellSize: real)
      reads g
    {
      g.tiles == tiles && g.cols == cols && g.rows == rows && g.cellSize == cellSize
    }

    /** DeckManager.Current: the active deck, or null when ActiveDeck is out
        of range. */
    function Current(): (r: Option<EditorGrid>)
      reads this
      ensures r.Some? <==> 0 <= activeDeck < |decks|
      ensures r.Some? ==> r.value == decks[activeDeck]
    {
      if 0 <= activeDeck < |decks| then Some(decks[activeDeck]) else Null
    }

    /** Shows exactly the deck at the clamped index, makes it the active deck
        and notifies it; with no decks, nothing happens. */
    method SetActiveDeck(index: int)
      requires Valid()
      modifies this`activeDeck, this`activeChanges, (set i | 0 <= i < |decks| :: decks[i])`active
      ensures Valid() && decks == old(decks)
      ensures forall i :: 0 <= i < |decks| ==> Kept(decks[i], old(decks[i].tiles), old(decks[i].cols), old(decks[i].rows), old(decks[i].cellSize))
      ensures decks == [] ==> activeDeck == old(activeDeck) && activeChanges == old(activeChanges)
      ensures decks != [] ==>
                && activeDeck == Clamp(index, 0, |decks| - 1)
                && Current() == Some(decks[activeDeck])
                && activeChanges == old(activeChanges) + [decks[activeDeck]]
                && forall i :: 0 <= i < |decks| ==> decks[i].active == (i == activeDeck)
    {
      if |decks| == 0 {
        return;
      }
      var k := Clamp(index, 0, |decks| - 1);
      ShowOnly(k);
      activeDeck := k;
      activeChanges := activeChanges + [decks[k]];
    }

    /** Shows deck k and hides every other deck. */
    method ShowOnly(k: int)
      requires Valid() && 0 <= k < |decks|
      modifies (set i | 0 <= i < |decks| :: decks[i])`active
      ensures Valid() && decks == old(decks)
      ensures activeDeck == old(activeDeck) && activeChanges == old(activeChanges)
      ensures forall i :: 0 <= i < |decks| ==> Kept(decks[i], old(decks[i].tiles), old(decks[i].cols), old(decks[i].rows), old(decks[i].cellSize))
      ensures forall i :: 0 <= i < |decks| ==> decks[i].active == (i == k)
    {
      var i := 0;
      while i < |decks|
        invariant 0 <= i <= |decks|
        invariant Valid()
        invariant forall j :: 0 <= j < i ==> decks[j].active == (j == k)
        invariant decks == old(decks) && activeDeck == old(activeDeck) && activeChanges == old(activeChanges)
        invariant forall j :: 0 <= j < |decks| ==> Kept(decks[j], old(decks[j].tiles), old(decks[j].cols), old(decks[j].rows), old(decks[j].cellSize))
      {
        Show(decks[i], i, i == k);
        i := i + 1;
      }
    }

    /** Shows or hides deck i alone. */
    method Show(g: EditorGrid, i: int, on: bool)
      requires Valid() && 0 <= i < |decks| && g == decks[i]
      modifies g`active
      ensures Valid() && decks[i].active == on
      ensures forall j :: 0 <= j < |decks| && j != i ==> decks[j].active == old(decks[j].active)
    {
      g.SetActive(on);
    }

    /** The tile counts of every zone but None, summed over the decks; null
        tiles are skipped. */
    method CountTilesAll() returns (counts: map<ZoneType, int>)
      requires Valid()
      ensures CountMap(counts)
      ensures forall z :: z != None ==> Lookup(counts, z) == DeckCount(Views(), z)
    {
      ghost var vs := Views();
      ghost var done: seq<GridView> := [];
      counts := map[];
      var k := 0;
      while k < |decks|
        invariant 0 <= k <= |decks| && done == vs[..k]
        invariant CountMap(counts)
        invariant forall z :: z != None ==> Lookup(counts, z) == DeckCount(done, z)
      {
        counts := CountNextDeck(decks[k], vs[k], counts, done);
        done := done + [vs[k]];
        k := k + 1;
      }
      assert done == vs;
    }

    /** The floor area of every zone but None over all decks, each tile
        counting the first deck's cell area; empty with no decks. */
    method AreasAllDecksM2() returns (areas: map<ZoneType, real>)
      requires Valid()
      ensures decks == [] ==> areas == map[]
      ensures None !in areas
      ensures forall z :: z != None ==> (z in areas <==> DeckCount(Views(), z) >= 1)
      ensures forall z :: z in areas ==> |decks| > 0 && areas[z] == Mul(DeckCount(Views(), z) as real, CellArea(decks[0].cellSize))
    {
      areas := map[];
      if |decks| == 0 {
        return;
      }
      var cellArea := CellArea(decks[0].cellSize);
      areas := SumDeckAreas(cellArea);
      AreasAreProducts(areas, Views(), cellArea);
    }

    /** The loop of AreasAllDecksM2: every deck's tiles, in deck order, each
        adding cellArea to its zone. */
    method SumDeckAreas(cellArea: real) returns (areas: map<ZoneType, real>)
      requires Valid()
      ensures None !in areas
      ensures forall z :: z != None ==> (z in areas <==> DeckCount(Views(), z) >= 1)
      ensures forall z :: z != None ==> AreaLookup(areas, z) == Repeat(cellArea, DeckCount(Views(), z))
    {
      ghost var vs := Views();
      ghost var done: seq<GridView> := [];
      areas := map[];
      var k := 0;
      while k < |decks|
        invariant 0 <= k <= |decks| && done == vs[..k]
        invariant None !in areas
        invariant forall z :: z != None ==> (z in areas <==> DeckCount(done, z) >= 1)
        invariant forall z :: z != None ==> AreaLookup(areas, z) == Repeat(cellArea, DeckCount(done, z))
      {
        areas := AddNextDeck(decks[k], vs[k], cellArea, areas, done);
        done := done + [vs[k]];
        k := k + 1;
      }
      assert done == vs;
    }
  }

  /** One more deck's tiles added to the counts of the decks done. */
  method CountNextDeck(g: EditorGrid, ghost v: GridView, counts0: map<ZoneType, int>, ghost done: seq<GridView>)
    returns (counts: map<ZoneType, int>)
    requires g.Valid() && g.View() == v && CountMap(counts0)
    requires forall z :: z != None ==> Lookup(counts0, z) == DeckCount(done, z)
    ensures CountMap(counts)
    ensures forall z :: z != None ==> Lookup(counts, z) == DeckCount(done + [v], z)
  {
    counts := Tally(g, counts0);
    assert forall z :: DeckCount(done + [v], z) == DeckCount(done, z) + Count(v, z) by {
      assert (done + [v])[..|done|] == done;
    }
  }

  /** One more deck's tiles added to the areas of the decks done. */
  method AddNextDeck(g: EditorGrid, ghost v: GridView, cellArea: real, areas0: map<ZoneType, real>, ghost done: seq<GridView>)
    returns (areas: map<ZoneType, real>)
    requires g.Valid() && g.View() == v && None !in areas0
    requires forall z :: z != None ==> (z in areas0 <==> DeckCount(done, z) >= 1)
    requires forall z :: z != None ==> AreaLookup(areas0, z) == Repeat(cellArea, DeckCount(done, z))
    ensures None !in areas
    ensures forall z :: z != None ==> (z in areas <==> DeckCount(done + [v], z) >= 1)
    ensures forall z :: z != None ==> AreaLookup(areas, z) == Repeat(cellArea, DeckCount(done + [v], z))
  {
    areas := AddDeckArea(g, cellArea, areas0);
    forall z | z != None
      ensures DeckCount(done + [v], z) == DeckCount(done, z) + Count(v, z)
      ensures Repeat(cellArea, DeckCount(done + [v], z))
           == Repeat(cellArea, DeckCount(done, z)) + Repeat(cellArea, Count(v, z))
    {
      DeckArea(cellArea, done, v, z);
    }
  }

  /** Area maps built by adding up the cell area hold count times cell area. */
  lemma AreasAreProducts(areas: map<ZoneType, real>, vs: seq<GridView>, c: real)
    requires None !in areas
    requires forall z :: z != None ==> AreaLookup(areas, z) == Repeat(c, DeckCount(vs, z))
    ensures forall z :: z in areas ==> areas[z] == Mul(DeckCount(vs, z) as real, c)
  {
    forall z | z in areas
      ensures areas[z] == Mul(DeckCount(vs, z) as real, c)
    {
      assert AreaLookup(areas, z) == Repeat(c, DeckCount(vs, z));
      RepeatIsProduct(c, DeckCount(vs, z));
    }
  }

  /** Adds the cell area to its zone's area for every non-None tile of the
      grid, column by column. */
  method AddDeckArea(g: EditorGrid, cellArea: real, areas0: map<ZoneType, real>) returns (areas: map<ZoneType, real>)
    requires g.Valid() && None !in areas0
    ensures None !in areas
    ensures forall z :: z != None ==> (z in areas <==> z in areas0 || Count(g.View(), z) >= 1)
    ensures forall z :: z != None ==> AreaLookup(areas, z) == AreaLookup(areas0, z) + Repeat(cellArea, Count(g.View(), z))
  {
    ghost var V := g.View();
    ghost var done: seq<seq<Slot>> := [];
    areas := areas0;
    var x := 0;
    while x < g.cols
      invariant 0 <= x <= g.cols
      invariant done == V.slots[..x]
      invariant None !in areas
      invariant forall z :: z != None ==> (z in areas <==> z in areas0 || SlotsCount(done, z) >= 1)
      invariant forall z :: z != None ==> AreaLookup(areas, z) == AreaLookup(areas0, z) + Repeat(cellArea, SlotsCount(done, z))
    {
      areas := AddColumnArea(g, x, cellArea, areas);
      forall z | z != None
        ensures SlotsCount(done + [V.slots[x]], z) == SlotsCount(done, z) + ColumnCount(V.slots[x], z)
        ensures Repeat(cellArea, SlotsCount(done + [V.slots[x]], z))
             == Repeat(cellArea, SlotsCount(done, z)) + Repeat(cellArea, ColumnCount(V.slots[x], z))
      {
        ColumnArea(cellArea, done, V.slots[x], z);
      }
      done := done + [V.slots[x]];
      x := x + 1;
    }
    assert done == V.slots;
  }

  /** The same for column x, row by row. */
  method AddColumnArea(g: EditorGrid, x: int, cellArea: real, areas0: map<ZoneType, real>) returns (areas: map<ZoneType, real>)
    requires g.Valid() && 0 <= x < g.cols && None !in areas0
    ensures None !in areas
    ensures forall z :: z != None ==> (z in areas <==> z in areas0 || ColumnCount(g.View().slots[x], z) >= 1)
    ensures forall z :: z != None ==>
              AreaLookup(areas, z) == AreaLookup(areas0, z) + Repeat(cellArea, ColumnCount(g.View().slots[x], z))
  {
    ghost var col := g.View().slots[x];
    areas := areas0;
    var y := 0;
    while y < g.rows
      invariant 0 <= y <= g.rows
      invariant None !in areas
      invariant forall z :: z != None ==> (z in areas <==> z in areas0 || ColumnCount(col[..y], z) >= 1)
      invariant forall z :: z != None ==> AreaLookup(areas, z) == AreaLookup(areas0, z) + Repeat(cellArea, ColumnCount(col[..y], z))
    {
      var t := g.tiles[x, y];
      forall z | z != None
        ensures ColumnCount(col[..y + 1], z) == ColumnCount(col[..y], z) + (if col[y] == Tile(z) then 1 else 0)
        ensures Repeat(cellArea, ColumnCount(col[..y + 1], z))
             == Repeat(cellArea, ColumnCount(col[..y], z)) + (if col[y] == Tile(z) then cellArea else 0.0)
      {
        CellStep(cellArea, col, y, z);
      }
      if t != null && t.zone != None {
        var z := t.zone;
        if z !in areas {
          areas := areas[z := 0.0];
        }
        areas := areas[z := areas[z] + cellArea];
      }
      y := y + 1;
    }
    assert col[..y] == col;
  }

  /** One more cell's tile and area. */
  lemma CellStep(c: real, col: seq<Slot>, y: int, z: ZoneType)
    requires 0 <= y < |col|
    ensures ColumnCount(col[..y + 1], z) == ColumnCount(col[..y], z) + (if col[y] == Tile(z) then 1 else 0)
    ensures Repeat(c, ColumnCount(col[..y + 1], z)) == Repeat(c, ColumnCount(col[..y], z)) + (if col[y] == Tile(z) then c else 0.0)
  {
    assert col[..y + 1][..y] == col[..y];
  }

  /** One more column's tiles and area. */
  lemma ColumnArea(c: real, done: seq<seq<Slot>>, col: seq<Slot>, z: ZoneType)
    ensures SlotsCount(done + [col], z) == SlotsCount(done, z) + ColumnCount(col, z)
    ensures Repeat(c, SlotsCount(done + [col], z)) == Repeat(c, SlotsCount(done, z)) + Repeat(c, ColumnCount(col, z))
  {
    assert (done + [col])[..|done|] == done;
    RepeatAdd(c, SlotsCount(done, z), ColumnCount(col, z));
  }

  /** One more deck's tiles and area. */
  lemma DeckArea(c: real, done: seq<GridView>, v: GridView, z: ZoneType)
    ensures DeckCount(done + [v], z) == DeckCount(done, z) + Count(v, z)
    ensures Repeat(c, DeckCount(done + [v], z)) == Repeat(c, DeckCount(done, z)) + Repeat(c, Count(v, z))
  {
    assert (done + [v])[..|done|] == done;
    RepeatAdd(c, DeckCount(done, z), Count(v, z));
  }

  /** n copies of c added up, as the loops add them. */
  function Repeat(c: real, n: nat): real
  {
    if n == 0 then 0.0 else Repeat(c, n - 1) + c
  }

  lemma {:induction false} RepeatAdd(c: real, a: nat, b: nat)
    ensures Repeat(c, a + b) == Repeat(c, a) + Repeat(c, b)
  {
    if b > 0 {
      RepeatAdd(c, a, b - 1);
    }
  }

  /** Adding c up n times is multiplying it by n. */
  lemma {:induction false} RepeatIsProduct(c: real, n: nat)
    ensures Repeat(c, n) == Mul(n as real, c)
  {
    if n > 0 {
      RepeatIsProduct(c, n - 1);
    }
  }
}
