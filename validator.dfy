/** The layout checks (LayoutValidator.cs): per-zone minimum areas, then
    adjacency rules between zone centres of mass. Issues is the list of
    issues the validator yields for a grid; the methods AreaOf,
    ComputeZoneCenters and Validate compute it from a live grid. */
module Validation {
  import opened Common
  import opened Zones
  import opened Grid
  import opened Rules
  import opened Metrics

  datatype Severity = Info | Warning | Error

  /** The facts each issue's message reports. Distances between zone centres
      are carried squared, in cells: the reported distance is the square root
      of dist2 times the cell size. */
  datatype IssueText =
    | AreaShort(zone: ZoneType, actual: real, required: real)
    | TooClose(a: ZoneType, b: ZoneType, dist2: real, limit: real)
    | TooFar(a: ZoneType, b: ZoneType, dist2: real, limit: real)

  datatype ValidationIssue = ValidationIssue(severity: Severity, message: IssueText)

  /** A floating-point point (Vector2). */
  datatype Point = Point(x: real, y: real)

  // ---------------------------------------------------------------------
  // Area rules

  /** The floor area a zone needs: per crew member, plus per 100 mission days. */
  function Required(spec: ZoneSpec, crew: int, missionDays: int): (r: real)
    ensures spec.minAreaPerCrew >= 0.0 && spec.areaPer100Days >= 0.0 && crew >= 0 && missionDays >= 0 ==> r >= 0.0
    ensures crew == 0 && missionDays == 0 ==> r == 0.0
  {
    spec.minAreaPerCrew * crew as real + spec.areaPer100Days * (missionDays as real / 100.0)
  }

  /** The floor area of zone z on the grid: its cell count times one cell's area. */
  function Area(v: GridView, z: ZoneType): (a: real)
    ensures a >= 0.0
    ensures a == 0.0 <==> Count(v, z) == 0 || v.cellSize == 0.0
  {
    Count(v, z) as real * CellArea(v.cellSize)
  }

  /** The issue one zone spec raises, if any. */
  function AreaIssue(v: GridView, spec: ZoneSpec, crew: int, missionDays: int): (r: seq<ValidationIssue>)
    ensures |r| <= 1
    ensures |r| == 1 <==> Area(v, spec.zone) + 0.001 < Required(spec, crew, missionDays)
    ensures |r| == 1 ==> r[0].message == AreaShort(spec.zone, Area(v, spec.zone), Required(spec, crew, missionDays))
    ensures |r| == 1 ==> (r[0].severity == Error <==> Area(v, spec.zone) <= 0.0001)
    ensures |r| == 1 ==> r[0].severity != Info
  {
    var required := Required(spec, crew, missionDays);
    var actual := Area(v, spec.zone);
    if actual + 0.001 < required then
      [ValidationIssue(if actual <= 0.0001 then Error else Warning, AreaShort(spec.zone, actual, required))]
    else []
  }

  function AreaIssues(v: GridView, specs: seq<ZoneSpec>, crew: int, missionDays: int): seq<ValidationIssue>
  {
    if specs == [] then []
    else AreaIssues(v, specs[..|specs| - 1], crew, missionDays) + AreaIssue(v, specs[|specs| - 1], crew, missionDays)
  }

  // ---------------------------------------------------------------------
  // Zone centres

  /** The sum of the row indices of the slots of a column holding zone z. */
  function ColumnSumY(col: seq<Slot>, z: ZoneType): nat
  {
    if col == [] then 0
    else ColumnSumY(col[..|col| - 1], z) + (if col[|col| - 1] == Tile(z) then |col| - 1 else 0)
  }

  /** The sum of the column index x over the slots of column x holding zone z. */
  function ColumnSumX(col: seq<Slot>, z: ZoneType, x: nat): nat
  {
    if col == [] then 0
    else ColumnSumX(col[..|col| - 1], z, x) + (if col[|col| - 1] == Tile(z) then x else 0)
  }

  /** The sums of the column and row indices of the cells holding zone z. */
  function SlotsSumX(cols: seq<seq<Slot>>, z: ZoneType): nat
  {
    if cols == [] then 0
    else SlotsSumX(cols[..|cols| - 1], z) + ColumnSumX(cols[|cols| - 1], z, |cols| - 1)
  }

  function SlotsSumY(cols: seq<seq<Slot>>, z: ZoneType): nat
  {
    if cols == [] then 0
    else SlotsSumY(cols[..|cols| - 1], z) + ColumnSumY(cols[|cols| - 1], z)
  }

  /** The centre of mass of zone z's cells: a mean of non-negative
      coordinates, so never negative. */
  function Centroid(v: GridView, z: ZoneType): (m: Point)
    requires Count(v, z) >= 1
    ensures m.x >= 0.0 && m.y >= 0.0
  {
    var n := Count(v, z) as real;
    Point(SlotsSumX(v.slots, z) as real / n, SlotsSumY(v.slots, z) as real / n)
  }

  /** The centres the validator knows: one for each zone but None that has
      at least one cell. */
  function Centers(v: GridView): (m: map<ZoneType, Point>)
    ensures forall z :: z in m <==> z != None && Count(v, z) >= 1
  {
    CountedZones();
    map z | z in Counted && Count(v, z) >= 1 :: Centroid(v, z)
  }

  lemma MulMono(a: int, b: int, c: int)
    requires a <= b && c >= 0
    ensures a * c <= b * c
  {
  }

  lemma Distrib(k: int, a: int, b: int)
    ensures k * (a + b) == k * a + k * b
  {
  }

  lemma {:induction false} ColumnSumXExact(col: seq<Slot>, z: ZoneType, x: nat)
    ensures ColumnSumX(col, z, x) == x * ColumnCount(col, z)
  {
    if col != [] {
      var init := col[..|col| - 1];
      ColumnSumXExact(init, z, x);
      Distrib(x, ColumnCount(init, z), if col[|col| - 1] == Tile(z) then 1 else 0);
    }
  }

  lemma {:induction false} ColumnSumYBound(col: seq<Slot>, z: ZoneType)
    ensures ColumnSumY(col, z) <= (|col| - 1) * ColumnCount(col, z)
  {
    if col != [] {
      var init := col[..|col| - 1];
      ColumnSumYBound(init, z);
      MulMono(|init| - 1, |col| - 1, ColumnCount(init, z));
      Distrib(|col| - 1, ColumnCount(init, z), if col[|col| - 1] == Tile(z) then 1 else 0);
    }
  }

  lemma {:induction false} SlotsSumBound(cols: seq<seq<Slot>>, z: ZoneType, h: nat)
    requires forall x :: 0 <= x < |cols| ==> |cols[x]| == h
    ensures SlotsSumX(cols, z) <= (|cols| - 1) * SlotsCount(cols, z)
    ensures SlotsSumY(cols, z) <= (h - 1) * SlotsCount(cols, z)
  {
    if cols != [] {
      var init := cols[..|cols| - 1];
      var last := cols[|cols| - 1];
      SlotsSumBound(init, z, h);
      ColumnSumYBound(last, z);
      ColumnSumXExact(last, z, |cols| - 1);
      MulMono(|init| - 1, |cols| - 1, SlotsCount(init, z));
      Distrib(|cols| - 1, SlotsCount(init, z), ColumnCount(last, z));
      Distrib(h - 1, SlotsCount(init, z), ColumnCount(last, z));
    }
  }

  /** A zone's centre lies within the grid's extent: a mean of in-range
      coordinates. */
  lemma CentroidInside(v: GridView, z: ZoneType)
    requires v.Wf() && Count(v, z) >= 1
    ensures 0.0 <= Centroid(v, z).x <= (v.cols - 1) as real
    ensures 0.0 <= Centroid(v, z).y <= (v.rows - 1) as real
  {
    SlotsSumBound(v.slots, z, v.rows);
    var n := Count(v, z);
    QuotientBelow(SlotsSumX(v.slots, z), v.cols - 1, n);
    QuotientBelow(SlotsSumY(v.slots, z), v.rows - 1, n);
  }

  lemma QuotientBelow(s: nat, k: int, n: nat)
    requires n >= 1 && s <= k * n
    ensures 0.0 <= s as real / n as real <= k as real
  {
    assert (s as real) <= (k as real) * (n as real);
  }

  // ---------------------------------------------------------------------
  // Adjacency rules

  /** The squared distance between two points. */
  function Dist2(a: Point, b: Point): real
  {
    Mul(a.x - b.x, a.x - b.x) + Mul(a.y - b.y, a.y - b.y)
  }

  /** Whether r * cs < limit, for the non-negative root r of d2, decided on
      squares: for cs >= 0 the product is non-negative, for cs < 0 it is
      non-positive. */
  predicate Below(d2: real, cs: real, limit: real)
  {
    if cs >= 0.0 then limit > 0.0 && Mul(d2, Mul(cs, cs)) < Mul(limit, limit)
    else limit > 0.0 || Mul(d2, Mul(cs, cs)) > Mul(limit, limit)
  }

  /** Whether r * cs > limit, for the non-negative root r of d2. */
  predicate Above(d2: real, cs: real, limit: real)
  {
    if cs >= 0.0 then limit < 0.0 || Mul(d2, Mul(cs, cs)) > Mul(limit, limit)
    else limit < 0.0 && Mul(d2, Mul(cs, cs)) < Mul(limit, limit)
  }

  /** The issue one adjacency rule raises, if any: skipped when either zone
      has no centre; otherwise a separation rule warns when the centres are
      closer than its distance and a keep-together rule informs when they
      are farther. */
  function RuleIssue(rule: AdjacencyRule, centers: map<ZoneType, Point>, cs: real): (r: seq<ValidationIssue>)
    ensures |r| <= 1
    ensures rule.a !in centers || rule.b !in centers ==> r == []
    ensures rule.a in centers && rule.b in centers ==>
              var d2 := Dist2(centers[rule.a], centers[rule.b]);
              && (rule.shouldSeparate ==>
                    (r != [] <==> Below(d2, cs, rule.distanceMeters))
                    && (r != [] ==> r[0] == ValidationIssue(Warning, TooClose(rule.a, rule.b, d2, rule.distanceMeters))))
              && (!rule.shouldSeparate ==>
                    (r != [] <==> Above(d2, cs, rule.distanceMeters))
                    && (r != [] ==> r[0] == ValidationIssue(Info, TooFar(rule.a, rule.b, d2, rule.distanceMeters))))
  {
    if rule.a !in centers || rule.b !in centers then []
    else
      var d2 := Dist2(centers[rule.a], centers[rule.b]);
      (if rule.shouldSeparate && Below(d2, cs, rule.distanceMeters)
       then [ValidationIssue(Warning, TooClose(rule.a, rule.b, d2, rule.distanceMeters))] else [])
      + (if !rule.shouldSeparate && Above(d2, cs, rule.distanceMeters)
         then [ValidationIssue(Info, TooFar(rule.a, rule.b, d2, rule.distanceMeters))] else [])
  }

  function AdjacencyIssues(centers: map<ZoneType, Point>, rules: seq<AdjacencyRule>, cs: real): seq<ValidationIssue>
  {
    if rules == [] then []
    else AdjacencyIssues(centers, rules[..|rules| - 1], cs) + RuleIssue(rules[|rules| - 1], centers, cs)
  }

  /** Everything Validate yields: the area issues, then the adjacency issues. */
  function Issues(v: GridView, rules: RuleSet, crew: int, missionDays: int): seq<ValidationIssue>
  {
    AreaIssues(v, rules.zoneSpecs, crew, missionDays)
    + AdjacencyIssues(Centers(v), rules.adjacencyRules, v.cellSize)
  }

  // ---------------------------------------------------------------------
  // What the issue list promises

  /** Below and Above decide the comparisons of the real distance r * cs,
      for any non-negative root r of d2. */
  lemma BelowAboveMeaning(r: real, d2: real, cs: real, limit: real)
    requires r >= 0.0 && Mul(r, r) == d2
    ensures Below(d2, cs, limit) <==> Mul(r, cs) < limit
    ensures Above(d2, cs, limit) <==> Mul(r, cs) > limit
  {
    var p := Mul(r, cs);
    ProductSquare(r, cs);
    SignOfProduct(r, cs);
    SquareOrder(p, limit);
    SquareOrder(limit, p);
  }

  lemma ProductSquare(r: real, cs: real)
    ensures Mul(Mul(r, cs), Mul(r, cs)) == Mul(Mul(r, r), Mul(cs, cs))
  {
  }

  lemma SignOfProduct(r: real, cs: real)
    requires r >= 0.0
    ensures cs >= 0.0 ==> Mul(r, cs) >= 0.0
    ensures cs < 0.0 ==> Mul(r, cs) <= 0.0
  {
    if cs < 0.0 {
      ScaleLe(r, cs, 0.0);
    } else {
      ScaleLe(r, 0.0, cs);
    }
  }

  /** Squares order non-negative numbers as the numbers themselves, and
      non-positive ones the other way round. */
  lemma SquareOrder(p: real, q: real)
    ensures p >= 0.0 && q >= 0.0 ==> (p < q <==> Mul(p, p) < Mul(q, q))
    ensures p <= 0.0 && q <= 0.0 ==> (p < q <==> Mul(p, p) > Mul(q, q))
  {
    if p >= 0.0 && q >= 0.0 {
      SquareOrderPos(p, q);
    }
    if p <= 0.0 && q <= 0.0 {
      SquareOrderPos(-q, -p);
      NegSquare(p);
      NegSquare(q);
    }
  }

  lemma SquareOrderPos(p: real, q: real)
    requires p >= 0.0 && q >= 0.0
    ensures p < q <==> Mul(p, p) < Mul(q, q)
  {
    Commute(p, q);
    if p < q {
      ScaleLe(p, p, q);
      ScaleLt(q, p, q);
    } else {
      ScaleLe(q, q, p);
      ScaleLe(p, q, p);
    }
  }


  lemma Commute(a: real, b: real)
    ensures Mul(a, b) == Mul(b, a)
  {
  }

  lemma ScaleLe(c: real, a: real, b: real)
    requires c >= 0.0 && a <= b
    ensures Mul(c, a) <= Mul(c, b)
  {
  }

  lemma ScaleLt(c: real, a: real, b: real)
    requires c > 0.0 && a < b
    ensures Mul(c, a) < Mul(c, b)
  {
  }

  /** The area issues come one per failing spec at most, in spec order, all
      of them area shortfalls. */
  lemma {:induction false} AreaIssuesShape(v: GridView, specs: seq<ZoneSpec>, crew: int, missionDays: int)
    ensures |AreaIssues(v, specs, crew, missionDays)| <= |specs|
    ensures forall i :: 0 <= i < |AreaIssues(v, specs, crew, missionDays)| ==>
              AreaIssues(v, specs, crew, missionDays)[i].message.AreaShort?
              && AreaIssues(v, specs, crew, missionDays)[i].severity != Info
  {
    if specs != [] {
      AreaIssuesShape(v, specs[..|specs| - 1], crew, missionDays);
    }
  }

  /** The adjacency issues come one per rule at most, none of them an area
      shortfall, and none for a rule naming None (None never has a centre). */
  lemma {:induction false} AdjacencyIssuesShape(v: GridView, rules: seq<AdjacencyRule>)
    ensures |AdjacencyIssues(Centers(v), rules, v.cellSize)| <= |rules|
    ensures forall i :: 0 <= i < |AdjacencyIssues(Centers(v), rules, v.cellSize)| ==>
              !AdjacencyIssues(Centers(v), rules, v.cellSize)[i].message.AreaShort?
    ensures (forall i :: 0 <= i < |rules| ==> rules[i].a == None || rules[i].b == None) ==>
              AdjacencyIssues(Centers(v), rules, v.cellSize) == []
  {
    if rules != [] {
      AdjacencyIssuesShape(v, rules[..|rules| - 1]);
    }
  }

  /** The issue list is the area issues followed by the adjacency issues:
      every area issue precedes every adjacency issue. */
  lemma IssuesOrdered(v: GridView, rules: RuleSet, crew: int, missionDays: int, i: int, j: int)
    requires 0 <= i < j < |Issues(v, rules, crew, missionDays)|
    requires !Issues(v, rules, crew, missionDays)[i].message.AreaShort?
    ensures !Issues(v, rules, crew, missionDays)[j].message.AreaShort?
  {
    var area := AreaIssues(v, rules.zoneSpecs, crew, missionDays);
    var adj := AdjacencyIssues(Centers(v), rules.adjacencyRules, v.cellSize);
    AreaIssuesShape(v, rules.zoneSpecs, crew, missionDays);
    AdjacencyIssuesShape(v, rules.adjacencyRules);
    assert Issues(v, rules, crew, missionDays) == area + adj;
    assert forall k :: 0 <= k < |area| ==> (area + adj)[k] == area[k];
    assert (area + adj)[j] == adj[j - |area|];
  }

  // ---------------------------------------------------------------------
  // The validator over a live grid

  /** The area of zone t: its tile count (None included) times the cell area. */
  method AreaOf(g: EditorGrid, t: ZoneType, cellArea: real) returns (area: real)
    requires g.Valid()
    ensures area == Count(g.View(), t) as real * cellArea
  {
    var count := CountOf(g, t);
    area := count as real * cellArea;
  }

  /** A zone's running totals while the centres are computed: its cell
      count and the sums of its cells' column and row indices. */
  datatype Acc = Acc(n: int, sx: int, sy: int)

  function Entry(m: map<ZoneType, Acc>, z: ZoneType): Acc
  {
    if z in m then m[z] else Acc(0, 0, 0)
  }

  /** Totals e are zone z's over the columns done and the part col of
      column x. */
  ghost predicate Tallied(e: Acc, done: seq<seq<Slot>>, col: seq<Slot>, x: nat, z: ZoneType)
  {
    && e.n == SlotsCount(done, z) + ColumnCount(col, z)
    && e.sx == SlotsSumX(done, z) + ColumnSumX(col, z, x)
    && e.sy == SlotsSumY(done, z) + ColumnSumY(col, z)
  }

  /** Accumulators holding a key only for zones seen. */
  predicate AccMap(m: map<ZoneType, Acc>)
  {
    None !in m && forall z :: z in m ==> m[z].n >= 1
  }

  /** Sums each non-None zone's cell coordinates and counts its cells, then
      divides: the centre of every zone present, and no other key. The two
      dictionaries of the source (sums and counts, with the same keys) are
      kept as one map of totals. */
  method ComputeZoneCenters(g: EditorGrid) returns (centers: map<ZoneType, Point>)
    requires g.Valid()
    ensures centers == Centers(g.View())
  {
    ghost var V := g.View();
    ghost var done: seq<seq<Slot>> := [];
    var acc: map<ZoneType, Acc> := map[];
    var x := 0;
    while x < g.cols
      invariant 0 <= x <= g.cols
      invariant done == V.slots[..x]
      invariant AccMap(acc)
      invariant forall z :: z != None ==> Tallied(Entry(acc, z), done, [], x, z)
    {
      acc := TotalColumn(g, x, done, acc);
      forall z | z != None
        ensures Tallied(Entry(acc, z), done + [V.slots[x]], [], x + 1, z)
      {
        NextColumn(Entry(acc, z), done, V.slots[x], x, z);
      }
      done := done + [V.slots[x]];
      x := x + 1;
    }
    assert done == V.slots;
    centers := Means(acc);
    CentersOfTotals(V, acc);
  }

  /** Adds column x's non-None tiles to the totals, row by row. */
  method TotalColumn(g: EditorGrid, x: int, ghost done: seq<seq<Slot>>, acc0: map<ZoneType, Acc>)
    returns (acc: map<ZoneType, Acc>)
    requires g.Valid() && 0 <= x < g.cols
    requires AccMap(acc0)
    requires forall z :: z != None ==> Tallied(Entry(acc0, z), done, [], x, z)
    ensures AccMap(acc)
    ensures forall z :: z != None ==> Tallied(Entry(acc, z), done, g.View().slots[x], x, z)
  {
    ghost var col := g.View().slots[x];
    acc := acc0;
    var y := 0;
    while y < g.rows
      invariant 0 <= y <= g.rows
      invariant AccMap(acc)
      invariant forall z :: z != None ==> Tallied(Entry(acc, z), done, col[..y], x, z)
    {
      var t := g.tiles[x, y];
      ghost var acc' := if t != null && t.zone != None then acc[t.zone := Bump(Entry(acc, t.zone), x, y)] else acc;
      forall z | z != None
        ensures Tallied(Entry(acc', z), done, col[..y + 1], x, z)
      {
        NextCell(Entry(acc, z), done, col, x, y, z);
      }
      if t != null && t.zone != None {
        var z := t.zone;
        acc := acc[z := Bump(Entry(acc, z), x, y)];
      }
      y := y + 1;
    }
    assert col[..y] == col;
  }

  /** The totals after one more cell (x, y) of the zone. */
  function Bump(e: Acc, x: int, y: int): Acc
  {
    Acc(e.n + 1, e.sx + x, e.sy + y)
  }

  /** One more cell of the column is counted when it holds the zone. */
  lemma NextCell(e: Acc, done: seq<seq<Slot>>, col: seq<Slot>, x: nat, y: nat, z: ZoneType)
    requires y < |col|
    requires Tallied(e, done, col[..y], x, z)
    ensures col[y] == Tile(z) ==> Tallied(Bump(e, x, y), done, col[..y + 1], x, z)
    ensures col[y] != Tile(z) ==> Tallied(e, done, col[..y + 1], x, z)
  {
    assert col[..y + 1][..y] == col[..y];
  }

  /** A finished column joins the columns done. */
  lemma NextColumn(e: Acc, done: seq<seq<Slot>>, col: seq<Slot>, x: nat, z: ZoneType)
    requires x == |done|
    requires Tallied(e, done, col, x, z)
    ensures Tallied(e, done + [col], [], x + 1, z)
  {
    assert (done + [col])[..|done|] == done;
  }

  /** Each zone's mean cell: its coordinate sums over its count. */
  function Means(acc: map<ZoneType, Acc>): (m: map<ZoneType, Point>)
    requires AccMap(acc)
    ensures m.Keys == acc.Keys
  {
    map z | z in acc :: Point(acc[z].sx as real / acc[z].n as real, acc[z].sy as real / acc[z].n as real)
  }

  /** Dividing the final totals gives the centres. */
  lemma CentersOfTotals(v: GridView, acc: map<ZoneType, Acc>)
    requires AccMap(acc)
    requires forall z :: z != None ==> Tallied(Entry(acc, z), v.slots, [], |v.slots|, z)
    ensures Means(acc) == Centers(v)
  {
    var centers := Means(acc);
    var c := Centers(v);
    forall z | z in acc
      ensures z in c && centers[z] == c[z]
    {
      var e := acc[z];
      assert Tallied(Entry(acc, z), v.slots, [], |v.slots|, z);
      assert e.n == Count(v, z) && e.sx == SlotsSumX(v.slots, z) && e.sy == SlotsSumY(v.slots, z);
      assert centers[z] == Point(e.sx as real / e.n as real, e.sy as real / e.n as real);
    }
    forall z | z in c
      ensures z in acc
    {
      assert Tallied(Entry(acc, z), v.slots, [], |v.slots|, z);
    }
  }

  /** One area rule over a live grid: the spec's requirement against the
      zone's measured area. */
  method CheckArea(g: EditorGrid, spec: ZoneSpec, crew: int, missionDays: int, cellArea: real)
    returns (r: seq<ValidationIssue>)
    requires g.Valid() && cellArea == CellArea(g.cellSize)
    ensures r == AreaIssue(g.View(), spec, crew, missionDays)
  {
    var required := spec.minAreaPerCrew * crew as real + spec.areaPer100Days * (missionDays as real / 100.0);
    var actual := AreaOf(g, spec.zone, cellArea);
    assert actual == Area(g.View(), spec.zone);
    assert required == Required(spec, crew, missionDays);
    if actual + 0.001 < required {
      r := [ValidationIssue(if actual <= 0.0001 then Error else Warning, AreaShort(spec.zone, actual, required))];
    } else {
      r := [];
    }
  }

  /** The area half of Validate: spec by spec, in list order. */
  method CheckAreas(g: EditorGrid, specs: seq<ZoneSpec>, crew: int, missionDays: int)
    returns (issues: seq<ValidationIssue>)
    requires g.Valid()
    ensures issues == AreaIssues(g.View(), specs, crew, missionDays)
  {
    var cellArea := g.cellSize * g.cellSize;
    issues := [];
    var i := 0;
    while i < |specs|
      invariant 0 <= i <= |specs|
      invariant issues == AreaIssues(g.View(), specs[..i], crew, missionDays)
    {
      var r := CheckArea(g, specs[i], crew, missionDays, cellArea);
      assert specs[..i + 1][..i] == specs[..i];
      issues := issues + r;
      i := i + 1;
    }
    assert specs[..i] == specs;
  }

  /** The adjacency half of Validate: rule by rule, in list order. */
  method CheckAdjacency(centers: map<ZoneType, Point>, rules: seq<AdjacencyRule>, cs: real)
    returns (issues: seq<ValidationIssue>)
    ensures issues == AdjacencyIssues(centers, rules, cs)
  {
    issues := [];
    var k := 0;
    while k < |rules|
      invariant 0 <= k <= |rules|
      invariant issues == AdjacencyIssues(centers, rules[..k], cs)
    {
      assert rules[..k + 1][..k] == rules[..k];
      issues := issues + RuleIssue(rules[k], centers, cs);
      k := k + 1;
    }
    assert rules[..k] == rules;
  }

  /** Validate over a live grid: the area issues, then the centres, then the
      adjacency issues. */
  method Validate(g: EditorGrid, rules: RuleSet, crew: int, missionDays: int) returns (issues: seq<ValidationIssue>)
    requires g.Valid()
    ensures issues == Issues(g.View(), rules, crew, missionDays)
  {
    var area := CheckAreas(g, rules.zoneSpecs, crew, missionDays);
    var centers := ComputeZoneCenters(g);
    var adjacency := CheckAdjacency(centers, rules.adjacencyRules, g.cellSize);
    issues := area + adjacency;
  }
}
