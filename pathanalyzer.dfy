/** Route analysis between two zones (PathAnalyzer.cs): the corridor mask,
    the nearest corridor to a zone by breadth-first search, an A* search on
    the corridor mask eroded to the required width with a fallback to the
    full mask, and the narrowest local width along the route found. */
module PathAnalysis {
  import opened Common
  import opened Zones
  import opened Grid
  import opened Pathfinding
  import opened PathSearch

  /** int.MaxValue, the starting value of the narrowest width. */
  const IntMax: int := 2147483647

  // ---------------------------------------------------------------------
  // The corridor mask

  /** The corridor cells of a grid. */
  ghost function Corridors(v: GridView): set<Cell>
    requires v.Wf()
  {
    set x, y | 0 <= x < v.cols && 0 <= y < v.rows && v.slots[x][y] == Tile(Corridor) :: Cell(x, y)
  }

  lemma CorridorsMembers(v: GridView)
    requires v.Wf()
    ensures forall c :: c in Corridors(v) <==> v.Has(c, Corridor)
  {
    forall c | v.Has(c, Corridor)
      ensures c in Corridors(v)
    {
      assert c == Cell(c.x, c.y);
    }
  }

  /** Two sets matching the same mask are the same set. */
  lemma MaskUnique(wk: array2<bool>, P: set<Cell>, Q: set<Cell>)
    requires Mask(wk, P) && Mask(wk, Q)
    ensures P == Q
  {
    forall c | c in P
      ensures c in Q
    {
      assert Within(c, wk.Length0, wk.Length1) && wk[c.x, c.y];
    }
    forall c | c in Q
      ensures c in P
    {
      assert Within(c, wk.Length0, wk.Length1) && wk[c.x, c.y];
    }
  }

  /** BuildWalkable: a cell is walkable exactly when its tile exists and is
      a corridor; a missing tile leaves the cell unwalkable. */
  method BuildWalkable(g: EditorGrid, ghost v: GridView) returns (w: array2<bool>)
    requires g.Valid() && g.View() == v
    ensures fresh(w) && w.Length0 == v.cols && w.Length1 == v.rows
    ensures Mask(w, Corridors(v))
    ensures g.Valid() && g.View() == v
  {
    var W, H := g.cols, g.rows;
    w := new bool[W, H]((i, j) => false);
    var x := 0;
    while x < W
      invariant 0 <= x <= W && g.Valid() && g.View() == v
      invariant forall i, j :: 0 <= i < x && 0 <= j < H ==> (w[i, j] <==> g.SlotAt(i, j) == Tile(Corridor))
      invariant forall i, j :: x <= i < W && 0 <= j < H ==> !w[i, j]
    {
      WalkableColumn(g, w, x);
      x := x + 1;
    }
    CorridorsMembers(v);
    forall c | c in Corridors(v)
      ensures Within(c, w.Length0, w.Length1)
    {
    }
  }

  /** One column of BuildWalkable. */
  method WalkableColumn(g: EditorGrid, w: array2<bool>, x: int)
    requires g.Valid() && w !in g.Repr
    requires w.Length0 == g.cols && w.Length1 == g.rows && 0 <= x < g.cols
    requires forall j :: 0 <= j < g.rows ==> !w[x, j]
    modifies w
    ensures forall j :: 0 <= j < g.rows ==> (w[x, j] <==> g.SlotAt(x, j) == Tile(Corridor))
    ensures forall i, j :: 0 <= i < g.cols && i != x && 0 <= j < g.rows ==> w[i, j] == old(w[i, j])
  {
    var y := 0;
    while y < g.rows
      invariant 0 <= y <= g.rows
      invariant forall j :: 0 <= j < y ==> (w[x, j] <==> g.SlotAt(x, j) == Tile(Corridor))
      invariant forall j :: y <= j < g.rows ==> !w[x, j]
      invariant forall i, j :: 0 <= i < g.cols && i != x && 0 <= j < g.rows ==> w[i, j] == old(w[i, j])
    {
      var t := g.SlotAt(x, y);
      if t.Tile? {
        w[x, y] := t.zone == Corridor;
      }
      y := y + 1;
    }
  }

  // ---------------------------------------------------------------------
  // Local width

  /** The cell j steps from c along direction k of the N4 table
      (+x, -x, +y, -y). */
  function Ray(c: Cell, k: int, j: int): Cell
    requires 0 <= k < 4
  {
    if k == 0 then Cell(c.x + j, c.y)
    else if k == 1 then Cell(c.x - j, c.y)
    else if k == 2 then Cell(c.x, c.y + j)
    else Cell(c.x, c.y - j)
  }

  /** How many cells of a w x h grid lie beyond c along direction k. */
  function Room(c: Cell, k: int, w: int, h: int): int
    requires 0 <= k < 4
  {
    if k == 0 then w - 1 - c.x
    else if k == 1 then c.x
    else if k == 2 then h - 1 - c.y
    else c.y
  }

  /** The number of consecutive cells of P met when scanning from c along
      direction k, up to the first cell outside P or the grid's edge. */
  function Run(P: set<Cell>, w: int, h: int, c: Cell, k: int): nat
    requires 0 <= k < 4
    decreases Room(c, k, w, h)
  {
    var d := Ray(c, k, 1);
    if Within(d, w, h) && d in P then 1 + Run(P, w, h, d, k) else 0
  }

  /** A run is maximal: its cells are in P and the cell just past it is not. */
  lemma {:induction false} RunMeaning(P: set<Cell>, w: int, h: int, c: Cell, k: int)
    requires 0 <= k < 4
    ensures forall j :: 1 <= j <= Run(P, w, h, c, k) ==> Within(Ray(c, k, j), w, h) && Ray(c, k, j) in P
    ensures var e := Ray(c, k, Run(P, w, h, c, k) + 1); !(Within(e, w, h) && e in P)
    decreases Room(c, k, w, h)
  {
    var d := Ray(c, k, 1);
    if Within(d, w, h) && d in P {
      RunMeaning(P, w, h, d, k);
      assert forall j :: Ray(d, k, j) == Ray(c, k, j + 1);
      forall j | 1 <= j <= Run(P, w, h, c, k)
        ensures Within(Ray(c, k, j), w, h) && Ray(c, k, j) in P
      {
        if j > 1 {
          assert Ray(c, k, j) == Ray(d, k, j - 1);
        }
      }
    }
  }

  /** LocalWidthCells' value: the shorter of the horizontal and the vertical
      run of P through c, each counting c itself once. */
  function Width(P: set<Cell>, w: int, h: int, c: Cell): (n: int)
    ensures n >= 1
  {
    Min(1 + Run(P, w, h, c, 1) + Run(P, w, h, c, 0), 1 + Run(P, w, h, c, 3) + Run(P, w, h, c, 2))
  }

  /** LocalWidthCells: four counter loops scan left, right, down and up from
      (x, y) until the first unwalkable cell or the grid's edge. */
  method LocalWidthCells(g: EditorGrid, walkable: array2<bool>, x: int, y: int, ghost P: set<Cell>)
    returns (n: int)
    requires walkable.Length0 == g.cols && walkable.Length1 == g.rows && Mask(walkable, P)
    requires 0 <= x < g.cols && 0 <= y < g.rows
    ensures n == Width(P, g.cols, g.rows, Cell(x, y))
  {
    var left := ScanLeft(walkable, x, y, P);
    var right := ScanRight(walkable, x, y, P);
    var down := ScanDown(walkable, x, y, P);
    var up := ScanUp(walkable, x, y, P);
    var widthH := 1 + left + right;
    var widthV := 1 + down + up;
    n := Min(widthH, widthV);
  }

  /** The four scans of LocalWidthCells, each one counter loop. */
  method ScanLeft(walkable: array2<bool>, x: int, y: int, ghost P: set<Cell>) returns (left: int)
    requires Mask(walkable, P) && 0 <= x < walkable.Length0 && 0 <= y < walkable.Length1
    ensures left == Run(P, walkable.Length0, walkable.Length1, Cell(x, y), 1)
  {
    left := 0;
    var i := x - 1;
    while i >= 0 && walkable[i, y]
      invariant -1 <= i < x && left == x - 1 - i
      invariant left + Run(P, walkable.Length0, walkable.Length1, Cell(i + 1, y), 1)
             == Run(P, walkable.Length0, walkable.Length1, Cell(x, y), 1)
    {
      left := left + 1;
      i := i - 1;
    }
  }

  method ScanRight(walkable: array2<bool>, x: int, y: int, ghost P: set<Cell>) returns (right: int)
    requires Mask(walkable, P) && 0 <= x < walkable.Length0 && 0 <= y < walkable.Length1
    ensures right == Run(P, walkable.Length0, walkable.Length1, Cell(x, y), 0)
  {
    right := 0;
    var i := x + 1;
    while i < walkable.Length0 && walkable[i, y]
      invariant x < i <= walkable.Length0 && right == i - x - 1
      invariant right + Run(P, walkable.Length0, walkable.Length1, Cell(i - 1, y), 0)
             == Run(P, walkable.Length0, walkable.Length1, Cell(x, y), 0)
    {
      right := right + 1;
      i := i + 1;
    }
  }

  method ScanDown(walkable: array2<bool>, x: int, y: int, ghost P: set<Cell>) returns (down: int)
    requires Mask(walkable, P) && 0 <= x < walkable.Length0 && 0 <= y < walkable.Length1
    ensures down == Run(P, walkable.Length0, walkable.Length1, Cell(x, y), 3)
  {
    down := 0;
    var j := y - 1;
    while j >= 0 && walkable[x, j]
      invariant -1 <= j < y && down == y - 1 - j
      invariant down + Run(P, walkable.Length0, walkable.Length1, Cell(x, j + 1), 3)
             == Run(P, walkable.Length0, walkable.Length1, Cell(x, y), 3)
    {
      down := down + 1;
      j := j - 1;
    }
  }

  method ScanUp(walkable: array2<bool>, x: int, y: int, ghost P: set<Cell>) returns (up: int)
    requires Mask(walkable, P) && 0 <= x < walkable.Length0 && 0 <= y < walkable.Length1
    ensures up == Run(P, walkable.Length0, walkable.Length1, Cell(x, y), 2)
  {
    up := 0;
    var j := y + 1;
    while j < walkable.Length1 && walkable[x, j]
      invariant y < j <= walkable.Length1 && up == j - y - 1
      invariant up + Run(P, walkable.Length0, walkable.Length1, Cell(x, j - 1), 2)
             == Run(P, walkable.Length0, walkable.Length1, Cell(x, y), 2)
    {
      up := up + 1;
      j := j + 1;
    }
  }

  /** The narrowest width along a route: int.MaxValue lowered by each cell's
      width in turn. */
  function Narrowest(P: set<Cell>, w: int, h: int, route: seq<Cell>): (m: int)
    ensures m <= IntMax
    ensures forall i :: 0 <= i < |route| ==> m <= Width(P, w, h, route[i])
    ensures m == IntMax || exists i :: 0 <= i < |route| && m == Width(P, w, h, route[i])
  {
    if route == [] then IntMax
    else
      var m := Narrowest(P, w, h, route[..|route| - 1]);
      assert forall i :: 0 <= i < |route| - 1 ==> route[..|route| - 1][i] == route[i];
      Min(m, Width(P, w, h, route[|route| - 1]))
  }

  /** Analyze's loop over the route: minCells = min(minCells, width). */
  method NarrowestCells(g: EditorGrid, walkable: array2<bool>, route: seq<Cell>, ghost P: set<Cell>)
    returns (minCells: int)
    requires walkable.Length0 == g.cols && walkable.Length1 == g.rows && Mask(walkable, P)
    requires forall i :: 0 <= i < |route| ==> Within(route[i], g.cols, g.rows)
    ensures minCells == Narrowest(P, g.cols, g.rows, route)
  {
    minCells := IntMax;
    for i := 0 to |route|
      invariant minCells == Narrowest(P, g.cols, g.rows, route[..i])
    {
      var c := route[i];
      var n := LocalWidthCells(g, walkable, c.x, c.y, P);
      assert route[..i + 1][..i] == route[..i];
      minCells := Min(minCells, n);
    }
    assert route[..|route|] == route;
  }

  // ---------------------------------------------------------------------
  // Nearest corridor

  /** A cell the search expands from: an empty tile or a tile of zone z. */
  predicate Open(v: GridView, z: ZoneType, c: Cell)
    requires v.Wf()
  {
    v.Has(c, None) || v.Has(c, z)
  }

  /** A trail out of zone z: it starts on a tile of z, steps between
      in-grid 4-neighbours, and every cell before its last is open. */
  ghost predicate Trail(v: GridView, z: ZoneType, t: seq<Cell>)
    requires v.Wf()
  {
    && |t| >= 1 && v.Has(t[0], z)
    && (forall i, j :: 0 <= i && j == i + 1 && j < |t| ==> Adjacent(t[i], t[j]) && v.InBounds(t[j]) && Open(v, z, t[i]))
  }

  /** Some trail of n steps out of zone z ends at c. */
  ghost predicate ReachedIn(v: GridView, z: ZoneType, c: Cell, n: nat)
    requires v.Wf()
  {
    exists t :: Trail(v, z, t) && |t| == n + 1 && t[|t| - 1] == c
  }

  /** No trail out of zone z reaches c in fewer than n steps. */
  ghost predicate NoShorter(v: GridView, z: ZoneType, c: Cell, n: nat)
    requires v.Wf()
  {
    forall t :: Trail(v, z, t) && t[|t| - 1] == c ==> n + 1 <= |t|
  }

  /** What TryGetNearestCorridor reports as found: a corridor tile that a
      trail out of zone z reaches, z not being the corridor zone itself. */
  ghost predicate CorridorNearby(v: GridView, z: ZoneType)
    requires v.Wf()
  {
    z != Corridor && exists t :: Trail(v, z, t) && v.Has(t[|t| - 1], Corridor)
  }

  /** c is a corridor that a trail out of z reaches in as few steps as any
      corridor can be reached. */
  ghost predicate NearestCorridor(v: GridView, z: ZoneType, c: Cell)
    requires v.Wf()
  {
    && v.Has(c, Corridor) && z != Corridor
    && exists t :: Trail(v, z, t) && t[|t| - 1] == c
         && forall u :: Trail(v, z, u) && v.Has(u[|u| - 1], Corridor) ==> |t| <= |u|
  }

  lemma NearestIsNearby(v: GridView, z: ZoneType, c: Cell)
    requires v.Wf() && NearestCorridor(v, z, c)
    ensures CorridorNearby(v, z)
  {
  }

  // The search is argued on values: S is the set of cells the seen array
  // marks (Mask ties the two), q the queue, and, as ghosts, dq[i] the step
  // count of q[i] and D the step count of the queue's head.

  /** Every tile of z is seen, and a seen corridor tile is a tile of z. */
  ghost predicate Marked(v: GridView, z: ZoneType, S: set<Cell>)
    requires v.Wf()
  {
    && (forall c :: v.Has(c, z) ==> c in S)
    && (forall c :: c in S && v.Has(c, Corridor) ==> z == Corridor)
  }

  /** Each queued cell is seen and open, and dq holds its exact step count. */
  ghost predicate Queued(v: GridView, z: ZoneType, S: set<Cell>, q: seq<Cell>, dq: seq<nat>)
    requires v.Wf()
  {
    && |dq| == |q|
    && forall i :: 0 <= i < |q| ==>
         q[i] in S && Open(v, z, q[i]) && ReachedIn(v, z, q[i], dq[i]) && NoShorter(v, z, q[i], dq[i])
  }

  /** The queue's step counts are D or D + 1, in ascending order. */
  ghost predicate Layered(dq: seq<nat>, D: nat)
  {
    && (forall i :: 0 <= i < |dq| ==> D <= dq[i] <= D + 1)
    && (forall i, j :: 0 <= i <= j < |dq| ==> dq[i] <= dq[j])
  }

  /** Every trail of at most D steps ends on a seen cell. */
  ghost predicate Covered(v: GridView, z: ZoneType, S: set<Cell>, D: nat)
    requires v.Wf()
  {
    forall t :: Trail(v, z, t) && |t| <= D + 1 ==> t[|t| - 1] in S
  }

  /** Every seen open cell off the queue has had its in-grid neighbours
      seen, except p's neighbours from direction m on. */
  ghost predicate ClosedBut(v: GridView, z: ZoneType, S: set<Cell>, q: seq<Cell>, p: Cell, m: int)
    requires v.Wf()
  {
    forall c, k :: 0 <= k < 4 && c in S && Open(v, z, c) && c !in q && v.InBounds(Step(c, k))
      && (c == p ==> k < m)
      ==> Step(c, k) in S
  }

  ghost predicate Closed(v: GridView, z: ZoneType, S: set<Cell>, q: seq<Cell>)
    requires v.Wf()
  {
    forall c, k :: 0 <= k < 4 && c in S && Open(v, z, c) && c !in q && v.InBounds(Step(c, k))
      ==> Step(c, k) in S
  }

  /** The loop invariant of the search. */
  ghost predicate Searching(v: GridView, z: ZoneType, S: set<Cell>, q: seq<Cell>, dq: seq<nat>, D: nat)
    requires v.Wf()
  {
    && Marked(v, z, S) && Queued(v, z, S, q, dq) && Layered(dq, D)
    && (|dq| > 0 ==> dq[0] == D)
    && Covered(v, z, S, D) && Closed(v, z, S, q)
  }

  /** The invariant while the head p, taken off the queue, is expanded: p
      is a seen open cell reached in D steps, closed up to direction m. */
  ghost predicate Expanding(v: GridView, z: ZoneType, S: set<Cell>, q: seq<Cell>, dq: seq<nat>, D: nat,
                            p: Cell, m: int)
    requires v.Wf()
  {
    && Marked(v, z, S) && Queued(v, z, S, q, dq) && Layered(dq, D)
    && Covered(v, z, S, D) && ClosedBut(v, z, S, q, p, m)
    && p in S && Open(v, z, p) && ReachedIn(v, z, p, D)
  }

  /** Every unseen cell of the grid is still in left. */
  ghost predicate Unseen(v: GridView, S: set<Cell>, left: set<Cell>)
  {
    forall c :: Within(c, v.cols, v.rows) && c !in S ==> c in left
  }

  /** The seen array belongs to the search, not to the grid, whose view
      stays v; the array spans the grid. */
  ghost predicate Tracks(g: EditorGrid, v: GridView, seen: array2<bool>)
    reads g, g.Repr
  {
    g.Valid() && g.View() == v && seen !in g.Repr && seen.Length0 == v.cols && seen.Length1 == v.rows
  }

  /** TryGetNearestCorridor: a breadth-first search seeded with every tile of
      zone z. It reports the first unseen corridor met next to an expanded
      cell, and expands only from empty tiles and tiles of z. */
  method TryGetNearestCorridor(g: EditorGrid, ghost v: GridView, z: ZoneType) returns (found: bool, cell: Cell)
    requires g.Valid() && g.View() == v
    ensures g.Valid() && g.View() == v
    ensures found ==> NearestCorridor(v, z, cell)
    ensures found <==> CorridorNearby(v, z)
    ensures !found ==> cell == Cell(0, 0)
  {
    var seen, q;
    ghost var S, dq;
    seen, q, S, dq := SeedZone(g, v, z);
    ghost var D: nat := 0;
    ghost var left := AllCells(v.cols, v.rows);
    while |q| > 0
      invariant Tracks(g, v, seen) && Mask(seen, S)
      invariant Searching(v, z, S, q, dq, D) && Unseen(v, S, left)
      decreases left, |q|
    {
      found, cell, q, S, dq, D, left := Round(g, v, z, seen, q, S, dq, D, left);
      if found {
        NearestIsNearby(v, z, cell);
        return;
      }
    }
    Exhausted(v, z, S);
    found, cell := false, Cell(0, 0);
  }

  /** One round of the search loop: the head is dequeued and expanded. */
  method Round(g: EditorGrid, ghost v: GridView, z: ZoneType, seen: array2<bool>, q: seq<Cell>,
               ghost S: set<Cell>, ghost dq: seq<nat>, ghost D: nat, ghost left: set<Cell>)
    returns (found: bool, cell: Cell, q': seq<Cell>, ghost S': set<Cell>, ghost dq': seq<nat>, ghost D': nat,
             ghost left': set<Cell>)
    requires Tracks(g, v, seen) && Mask(seen, S)
    requires Searching(v, z, S, q, dq, D) && Unseen(v, S, left) && |q| > 0
    modifies seen
    ensures Tracks(g, v, seen) && Mask(seen, S')
    ensures found ==> NearestCorridor(v, z, cell)
    ensures !found ==> Searching(v, z, S', q', dq', D') && Unseen(v, S', left')
    ensures !found ==> left' < left || (left' == left && |q'| < |q|)
  {
    var p := q[0];
    Pop(v, z, S, q, dq, D);
    found, cell, q', S', dq', left' := Expand(g, v, z, seen, p, q[1..], S, dq[1..], D, left);
    D' := D;
    if found {
      return;
    }
    Expanded(v, z, S', q', dq', D, p);
    if |q'| > 0 && dq'[0] != D {
      Advance(v, z, S', q', dq', D);
      D' := D + 1;
    }
  }

  /** The seeding loops: every tile of z is queued, in column order, and
      marked seen. */
  method SeedZone(g: EditorGrid, ghost v: GridView, z: ZoneType)
    returns (seen: array2<bool>, q: seq<Cell>, ghost S: set<Cell>, ghost dq: seq<nat>)
    requires g.Valid() && g.View() == v
    ensures fresh(seen) && Tracks(g, v, seen) && Mask(seen, S)
    ensures Searching(v, z, S, q, dq, 0)
  {
    seen := new bool[g.cols, g.rows]((i, j) => false);
    q, S := [], {};
    var x := 0;
    while x < g.cols
      invariant 0 <= x <= g.cols && Tracks(g, v, seen) && Mask(seen, S)
      invariant forall c :: c in S <==> v.Has(c, z) && c.x < x
      invariant forall c :: c in S ==> c in q
      invariant forall i :: 0 <= i < |q| ==> v.Has(q[i], z)
    {
      q, S := SeedColumn(g, v, z, seen, x, q, S);
      x := x + 1;
    }
    dq := seq(|q|, i => 0);
    assert forall i :: 0 <= i < |dq| ==> dq[i] == 0;
    Seeded(v, z, S, q, dq);
  }

  /** One column of the seeding loops. */
  method SeedColumn(g: EditorGrid, ghost v: GridView, z: ZoneType, seen: array2<bool>, x: int,
                    q: seq<Cell>, ghost S: set<Cell>)
    returns (q': seq<Cell>, ghost S': set<Cell>)
    requires Tracks(g, v, seen) && Mask(seen, S) && 0 <= x < v.cols
    requires forall c :: c in S <==> v.Has(c, z) && c.x < x
    requires forall c :: c in S ==> c in q
    requires forall i :: 0 <= i < |q| ==> v.Has(q[i], z)
    modifies seen
    ensures Tracks(g, v, seen) && Mask(seen, S')
    ensures forall c :: c in S' <==> v.Has(c, z) && c.x <= x
    ensures forall c :: c in S' ==> c in q'
    ensures forall i :: 0 <= i < |q'| ==> v.Has(q'[i], z)
  {
    q', S' := q, S;
    var y := 0;
    while y < g.rows
      invariant 0 <= y <= v.rows && Tracks(g, v, seen) && Mask(seen, S')
      invariant forall c :: c in S' ==> v.Has(c, z) && (c.x < x || (c.x == x && c.y < y))
      invariant forall c :: v.Has(c, z) && (c.x < x || (c.x == x && c.y < y)) ==> c in S'
      invariant forall c :: c in S' ==> c in q'
      invariant forall i :: 0 <= i < |q'| ==> v.Has(q'[i], z)
    {
      var t := g.SlotAt(x, y);
      assert v.At(Cell(x, y)) == t;
      if t.Tile? && t.zone == z {
        q' := q' + [Cell(x, y)];
        MarkSeen(g, v, seen, S', Cell(x, y));
        S' := S' + {Cell(x, y)};
      }
      y := y + 1;
    }
  }

  /** After seeding: the seeds are the seen cells, all queued with 0 steps. */
  lemma Seeded(v: GridView, z: ZoneType, S: set<Cell>, q: seq<Cell>, dq: seq<nat>)
    requires v.Wf()
    requires forall c :: c in S <==> v.Has(c, z)
    requires forall c :: c in S ==> c in q
    requires forall i :: 0 <= i < |q| ==> v.Has(q[i], z)
    requires |dq| == |q| && forall i :: 0 <= i < |dq| ==> dq[i] == 0
    ensures Searching(v, z, S, q, dq, 0)
  {
    SeedsQueued(v, z, S, q, dq);
    SeedsCovered(v, z, S);
    SeedsClosed(v, z, S, q);
  }

  /** Each seed is reached in no steps, and by no shorter trail. */
  lemma SeedsQueued(v: GridView, z: ZoneType, S: set<Cell>, q: seq<Cell>, dq: seq<nat>)
    requires v.Wf()
    requires forall c :: c in S <==> v.Has(c, z)
    requires forall i :: 0 <= i < |q| ==> v.Has(q[i], z)
    requires |dq| == |q| && forall i :: 0 <= i < |dq| ==> dq[i] == 0
    ensures Queued(v, z, S, q, dq)
  {
    forall i | 0 <= i < |q|
      ensures ReachedIn(v, z, q[i], 0)
    {
      assert Trail(v, z, [q[i]]);
    }
  }

  /** A trail of no steps is a single tile of z. */
  lemma SeedsCovered(v: GridView, z: ZoneType, S: set<Cell>)
    requires v.Wf() && forall c :: c in S <==> v.Has(c, z)
    ensures Covered(v, z, S, 0)
  {
  }

  /** No seed is off the queue. */
  lemma SeedsClosed(v: GridView, z: ZoneType, S: set<Cell>, q: seq<Cell>)
    requires v.Wf() && forall c :: c in S ==> c in q
    ensures Closed(v, z, S, q)
  {
  }

  /** Taking the head off the queue starts its expansion. */
  lemma Pop(v: GridView, z: ZoneType, S: set<Cell>, q: seq<Cell>, dq: seq<nat>, D: nat)
    requires v.Wf() && Searching(v, z, S, q, dq, D) && |q| > 0
    ensures Expanding(v, z, S, q[1..], dq[1..], D, q[0], 0)
  {
    forall c | c !in q[1..] && c != q[0]
      ensures c !in q
    {
    }
  }

  /** Expansion of p over all four directions closes it. */
  lemma Expanded(v: GridView, z: ZoneType, S: set<Cell>, q: seq<Cell>, dq: seq<nat>, D: nat, p: Cell)
    requires v.Wf() && Expanding(v, z, S, q, dq, D, p, 4)
    ensures Marked(v, z, S) && Queued(v, z, S, q, dq) && Layered(dq, D)
    ensures Covered(v, z, S, D) && Closed(v, z, S, q)
    ensures |dq| > 0 && dq[0] == D ==> Searching(v, z, S, q, dq, D)
  {
  }

  /** The trail without its last cell is a trail. */
  lemma TrailPrefix(v: GridView, z: ZoneType, t: seq<Cell>)
    requires v.Wf() && Trail(v, z, t) && |t| >= 2
    ensures Trail(v, z, t[..|t| - 1])
  {
  }

  /** Once every cell queued with D steps is expanded, every trail of D + 1
      steps ends on a seen cell. */
  lemma Advance(v: GridView, z: ZoneType, S: set<Cell>, q: seq<Cell>, dq: seq<nat>, D: nat)
    requires v.Wf() && Marked(v, z, S) && Queued(v, z, S, q, dq) && Layered(dq, D)
    requires Covered(v, z, S, D) && Closed(v, z, S, q)
    requires |q| > 0 && dq[0] != D
    ensures Searching(v, z, S, q, dq, D + 1)
  {
    forall t | Trail(v, z, t) && |t| <= D + 2
      ensures t[|t| - 1] in S
    {
      if |t| == D + 2 {
        AdvanceTrail(v, z, S, q, dq, D, t);
      }
    }
  }

  /** A trail of D + 1 steps leaves its last-but-one cell, seen after at
      most D steps and no longer queued, so its last cell is seen too. */
  lemma AdvanceTrail(v: GridView, z: ZoneType, S: set<Cell>, q: seq<Cell>, dq: seq<nat>, D: nat, t: seq<Cell>)
    requires v.Wf() && Queued(v, z, S, q, dq) && Layered(dq, D)
    requires Covered(v, z, S, D) && Closed(v, z, S, q)
    requires |q| > 0 && dq[0] != D
    requires Trail(v, z, t) && |t| == D + 2
    ensures t[|t| - 1] in S
  {
    TrailPrefix(v, z, t);
    var u := t[D];
    assert u == t[..|t| - 1][|t| - 2];
    assert u in S;
    var k := AdjacentIsStep(u, t[D + 1]);
    assert t[D + 1] == Step(u, k);
  }

  /** With the queue empty no trail out of z ends on a corridor, unless z
      is the corridor zone itself. */
  lemma Exhausted(v: GridView, z: ZoneType, S: set<Cell>)
    requires v.Wf() && Marked(v, z, S) && Closed(v, z, S, [])
    ensures !CorridorNearby(v, z)
  {
    forall t | Trail(v, z, t)
      ensures t[|t| - 1] in S
    {
      TrailSeen(v, z, S, t, |t| - 1);
    }
  }

  lemma {:induction false} TrailSeen(v: GridView, z: ZoneType, S: set<Cell>, t: seq<Cell>, i: int)
    requires v.Wf() && Marked(v, z, S) && Closed(v, z, S, [])
    requires Trail(v, z, t) && 0 <= i < |t|
    ensures t[i] in S
  {
    if i > 0 {
      TrailSeen(v, z, S, t, i - 1);
      var k := AdjacentIsStep(t[i - 1], t[i]);
      assert t[i] == Step(t[i - 1], k);
    }
  }

  /** Examines p's four neighbours in N4 order. */
  method Expand(g: EditorGrid, ghost v: GridView, z: ZoneType, seen: array2<bool>, p: Cell,
                q: seq<Cell>, ghost S: set<Cell>, ghost dq: seq<nat>, ghost D: nat, ghost left: set<Cell>)
    returns (found: bool, cell: Cell, q': seq<Cell>, ghost S': set<Cell>, ghost dq': seq<nat>, ghost left': set<Cell>)
    requires Tracks(g, v, seen) && Mask(seen, S)
    requires Expanding(v, z, S, q, dq, D, p, 0) && Unseen(v, S, left)
    modifies seen
    ensures Tracks(g, v, seen) && Mask(seen, S')
    ensures found ==> NearestCorridor(v, z, cell)
    ensures !found ==> Expanding(v, z, S', q', dq', D, p, 4) && Unseen(v, S', left')
    ensures !found ==> left' < left || (left' == left && q' == q)
  {
    q', S', dq', left' := q, S, dq, left;
    for k := 0 to 4
      invariant Tracks(g, v, seen) && Mask(seen, S')
      invariant Expanding(v, z, S', q', dq', D, p, k) && Unseen(v, S', left')
      invariant left' < left || (left' == left && q' == q)
    {
      found, cell, q', S', dq', left' := Visit(g, v, z, seen, p, k, q', S', dq', D, left');
      if found {
        return;
      }
    }
    found, cell := false, Cell(0, 0);
  }

  /** One neighbour: skipped when outside the grid or already seen;
      otherwise marked seen and, unless its tile is missing, reported when a
      corridor and queued with D + 1 steps when empty or of zone z. */
  method Visit(g: EditorGrid, ghost v: GridView, z: ZoneType, seen: array2<bool>, p: Cell, k: int,
               q: seq<Cell>, ghost S: set<Cell>, ghost dq: seq<nat>, ghost D: nat, ghost left: set<Cell>)
    returns (found: bool, cell: Cell, q': seq<Cell>, ghost S': set<Cell>, ghost dq': seq<nat>, ghost left': set<Cell>)
    requires Tracks(g, v, seen) && Mask(seen, S) && 0 <= k < 4
    requires Expanding(v, z, S, q, dq, D, p, k) && Unseen(v, S, left)
    modifies seen
    ensures Tracks(g, v, seen) && Mask(seen, S')
    ensures found ==> NearestCorridor(v, z, cell)
    ensures !found ==> Expanding(v, z, S', q', dq', D, p, k + 1) && Unseen(v, S', left')
    ensures !found ==> left' < left || (left' == left && q' == q)
  {
    q', S', dq', left' := q, S, dq, left;
    found, cell := false, Cell(0, 0);
    var (dx, dy) := N4[k];
    var nx, ny := p.x + dx, p.y + dy;
    var n := Cell(nx, ny);
    assert n == Step(p, k);
    if nx < 0 || ny < 0 || nx >= g.cols || ny >= g.rows || seen[nx, ny] {
      Skipped(v, z, S, q, dq, D, p, k);
      return;
    }
    var tile := g.SlotAt(nx, ny);
    assert v.At(n) == tile;
    MarkSeen(g, v, seen, S, n);
    S', left' := S + {n}, left - {n};
    if tile.NoTile? {
      Dropped(v, z, S, q, dq, D, p, k);
      return;
    }
    if tile.zone == Corridor {
      Found(v, z, S, q, dq, D, p, k);
      found, cell := true, n;
      return;
    }
    if tile.zone == None || tile.zone == z {
      Enqueued(v, z, S, q, dq, D, p, k);
      q' := q + [n];
      dq' := dq + [D + 1];
    } else {
      Dropped(v, z, S, q, dq, D, p, k);
    }
  }

  /** seen[n.x, n.y] = true, for an in-grid cell n; the grid is untouched. */
  method MarkSeen(g: EditorGrid, ghost v: GridView, seen: array2<bool>, ghost S: set<Cell>, n: Cell)
    requires Tracks(g, v, seen) && Mask(seen, S) && Within(n, seen.Length0, seen.Length1)
    modifies seen
    ensures Tracks(g, v, seen) && Mask(seen, S + {n})
  {
    seen[n.x, n.y] := true;
  }

  /** A neighbour outside the grid or already seen needs nothing. */
  lemma Skipped(v: GridView, z: ZoneType, S: set<Cell>, q: seq<Cell>, dq: seq<nat>, D: nat, p: Cell, k: int)
    requires v.Wf() && 0 <= k < 4 && Expanding(v, z, S, q, dq, D, p, k)
    requires !v.InBounds(Step(p, k)) || Step(p, k) in S
    ensures Expanding(v, z, S, q, dq, D, p, k + 1)
  {
  }

  /** A newly seen neighbour that is neither open nor a corridor is only
      marked. */
  lemma Dropped(v: GridView, z: ZoneType, S: set<Cell>, q: seq<Cell>, dq: seq<nat>, D: nat, p: Cell, k: int)
    requires v.Wf() && 0 <= k < 4 && Expanding(v, z, S, q, dq, D, p, k)
    requires v.InBounds(Step(p, k)) && Step(p, k) !in S
    requires !Open(v, z, Step(p, k)) && !v.Has(Step(p, k), Corridor)
    ensures Expanding(v, z, S + {Step(p, k)}, q, dq, D, p, k + 1)
  {
  }

  /** A newly seen open neighbour is queued with D + 1 steps, which is its
      exact step count. */
  lemma Enqueued(v: GridView, z: ZoneType, S: set<Cell>, q: seq<Cell>, dq: seq<nat>, D: nat, p: Cell, k: int)
    requires v.Wf() && 0 <= k < 4 && Expanding(v, z, S, q, dq, D, p, k)
    requires v.InBounds(Step(p, k)) && Step(p, k) !in S && Open(v, z, Step(p, k))
    ensures Expanding(v, z, S + {Step(p, k)}, q + [Step(p, k)], dq + [D + 1], D, p, k + 1)
  {
    EnqueuedQueued(v, z, S, q, dq, D, p, k);
    LayeredAppend(dq, D);
  }

  /** Appending a step count of D + 1 keeps the queue layered. */
  lemma LayeredAppend(dq: seq<nat>, D: nat)
    requires Layered(dq, D)
    ensures Layered(dq + [D + 1], D)
  {
    var e := dq + [D + 1];
    assert forall i :: 0 <= i < |dq| ==> e[i] == dq[i];
  }

  lemma EnqueuedQueued(v: GridView, z: ZoneType, S: set<Cell>, q: seq<Cell>, dq: seq<nat>, D: nat, p: Cell, k: int)
    requires v.Wf() && 0 <= k < 4 && Expanding(v, z, S, q, dq, D, p, k)
    requires v.InBounds(Step(p, k)) && Step(p, k) !in S && Open(v, z, Step(p, k))
    ensures Queued(v, z, S + {Step(p, k)}, q + [Step(p, k)], dq + [D + 1])
  {
    var n := Step(p, k);
    StepIsAdjacent(p, k);
    var t := ExtendTrail(v, z, p, D, n);
    assert ReachedIn(v, z, n, D + 1);
    assert NoShorter(v, z, n, D + 1);
    var q', dq' := q + [n], dq + [D + 1];
    assert q'[|q|] == n && dq'[|q|] == D + 1;
  }

  /** A newly seen corridor neighbour is a nearest corridor. */
  lemma Found(v: GridView, z: ZoneType, S: set<Cell>, q: seq<Cell>, dq: seq<nat>, D: nat, p: Cell, k: int)
    requires v.Wf() && 0 <= k < 4 && Expanding(v, z, S, q, dq, D, p, k)
    requires v.InBounds(Step(p, k)) && Step(p, k) !in S && v.Has(Step(p, k), Corridor)
    ensures NearestCorridor(v, z, Step(p, k))
  {
    var n := Step(p, k);
    StepIsAdjacent(p, k);
    var t := ExtendTrail(v, z, p, D, n);
    forall u | Trail(v, z, u) && v.Has(u[|u| - 1], Corridor)
      ensures |t| <= |u|
    {
    }
  }

  /** A trail to p of D steps, extended by a neighbour of p. */
  lemma ExtendTrail(v: GridView, z: ZoneType, p: Cell, D: nat, n: Cell) returns (t: seq<Cell>)
    requires v.Wf() && ReachedIn(v, z, p, D) && Open(v, z, p) && Adjacent(p, n) && v.InBounds(n)
    ensures Trail(v, z, t) && |t| == D + 2 && t[|t| - 1] == n
  {
    var s :| Trail(v, z, s) && |s| == D + 1 && s[|s| - 1] == p;
    t := s + [n];
    forall i, j | 0 <= i && j == i + 1 && j < |t|
      ensures Adjacent(t[i], t[j]) && v.InBounds(t[j]) && Open(v, z, t[i])
    {
      if j < |s| {
        assert t[i] == s[i] && t[j] == s[j];
      } else {
        assert t[i] == p && t[j] == n;
      }
    }
  }

  // ---------------------------------------------------------------------
  // The report

  /** The report's why: empty, or the message naming what failed. */
  datatype Why =
    | Fine
    | NoCorridorNearby(zone: ZoneType)
    | NoPath(from: ZoneType, to: ZoneType)
    | TooNarrow(widthM: real, minWidthM: real)

  /** PathAnalyzer.PathReport. A failed report leaves the numbers at 0. */
  datatype PathReport = PathReport(hasPath: bool, lengthMeters: real, minWidthMeters: real, why: Why)

  function Failed(why: Why): PathReport
  {
    PathReport(false, 0.0, 0.0, why)
  }

  /** kNeeded: the clearance a cell needs to sit in a passage of needCells
      cells, Max(1, CeilToInt((needCells + 1) / 2)). */
  function KNeeded(needCells: int): (k: int)
    ensures k >= 1 && 2 * k - 1 >= needCells
    ensures k == 1 || 2 * k - 3 < needCells
  {
    Max(1, CeilToInt((needCells + 1) as real / 2.0))
  }

  /** The corridor cells at least k steps from every non-corridor cell of
      the grid (a clearance of at least k, which INF caps). */
  ghost function Wide(v: GridView, k: int): set<Cell>
    requires v.Wf()
  {
    set c | c in Corridors(v) && k <= INF
      && forall o :: v.InBounds(o) && !v.Has(o, Corridor) ==> k <= Manhattan(c, o)
  }

  /** The eroded mask: walkable with a clearance of at least k. */
  method Erode(walkable: array2<bool>, dist: array2<int>, k: int) returns (e: array2<bool>)
    requires dist.Length0 == walkable.Length0 && dist.Length1 == walkable.Length1
    ensures fresh(e) && e.Length0 == walkable.Length0 && e.Length1 == walkable.Length1
    ensures forall x, y :: 0 <= x < e.Length0 && 0 <= y < e.Length1 ==>
              (e[x, y] <==> walkable[x, y] && dist[x, y] >= k)
  {
    var W, H := walkable.Length0, walkable.Length1;
    e := new bool[W, H];
    for x := 0 to W
      invariant forall i, j :: 0 <= i < x && 0 <= j < H ==> (e[i, j] <==> walkable[i, j] && dist[i, j] >= k)
    {
      ErodeColumn(walkable, dist, k, e, x);
    }
  }

  /** One column of Erode. */
  method ErodeColumn(walkable: array2<bool>, dist: array2<int>, k: int, e: array2<bool>, x: int)
    requires dist.Length0 == walkable.Length0 && dist.Length1 == walkable.Length1
    requires e.Length0 == walkable.Length0 && e.Length1 == walkable.Length1 && 0 <= x < e.Length0
    requires e != walkable
    modifies e
    ensures forall i, j :: 0 <= i < e.Length0 && 0 <= j < e.Length1 && i != x ==> e[i, j] == old(e[i, j])
    ensures forall j :: 0 <= j < e.Length1 ==> (e[x, j] <==> walkable[x, j] && dist[x, j] >= k)
  {
    for y := 0 to e.Length1
      invariant forall i, j :: 0 <= i < e.Length0 && 0 <= j < e.Length1 && i != x ==> e[i, j] == old(e[i, j])
      invariant forall j :: 0 <= j < y ==> (e[x, j] <==> walkable[x, j] && dist[x, j] >= k)
    {
      e[x, y] := walkable[x, y] && dist[x, y] >= k;
    }
  }

  /** The eroded mask of the corridor mask holds exactly the wide cells. */
  lemma ErodedIsWide(v: GridView, walkable: array2<bool>, dist: array2<int>, e: array2<bool>, k: int)
    requires v.Wf() && walkable.Length0 == v.cols && walkable.Length1 == v.rows
    requires Mask(walkable, Corridors(v)) && IsClearance(walkable, dist)
    requires e.Length0 == v.cols && e.Length1 == v.rows
    requires forall x, y :: 0 <= x < e.Length0 && 0 <= y < e.Length1 ==>
               (e[x, y] <==> walkable[x, y] && dist[x, y] >= k)
    ensures Mask(e, Wide(v, k))
  {
    CorridorsMembers(v);
    forall x, y | 0 <= x < v.cols && 0 <= y < v.rows
      ensures e[x, y] <==> Cell(x, y) in Wide(v, k)
    {
      WideCell(v, walkable, dist, k, Cell(x, y));
    }
  }

  /** A clearance of at least k is being k steps from every obstacle. */
  lemma WideCell(v: GridView, walkable: array2<bool>, dist: array2<int>, k: int, c: Cell)
    requires v.Wf() && walkable.Length0 == v.cols && walkable.Length1 == v.rows
    requires Mask(walkable, Corridors(v)) && IsClearance(walkable, dist)
    requires forall c :: c in Corridors(v) <==> v.Has(c, Corridor)
    requires Within(c, v.cols, v.rows)
    ensures walkable[c.x, c.y] && At(dist, c) >= k <==> c in Wide(v, k)
  {
    ObstaclesAreWalls(v, walkable);
    assert walkable[c.x, c.y] <==> c in Corridors(v) by {
      assert c == Cell(c.x, c.y);
    }
    if At(dist, c) >= k {
      forall o | v.InBounds(o) && !v.Has(o, Corridor)
        ensures k <= Manhattan(c, o)
      {
        assert Obstacle(walkable, o);
      }
    }
  }

  /** Under the corridor mask, the obstacles are exactly the in-bounds
      cells that are not corridor tiles. */
  lemma ObstaclesAreWalls(v: GridView, walkable: array2<bool>)
    requires v.Wf() && walkable.Length0 == v.cols && walkable.Length1 == v.rows
    requires Mask(walkable, Corridors(v))
    requires forall c :: c in Corridors(v) <==> v.Has(c, Corridor)
    ensures forall o :: Obstacle(walkable, o) <==> v.InBounds(o) && !v.Has(o, Corridor)
  {
    forall o | Within(o, v.cols, v.rows)
      ensures walkable[o.x, o.y] <==> o in Corridors(v)
    {
      assert o == Cell(o.x, o.y);
    }
  }

  /** Analyze: the corridor mask is built; the nearest corridors to a and
      to b are searched for; then the route is measured. */
  method Analyze(g: EditorGrid, ghost v: GridView, a: ZoneType, b: ZoneType, minWidthM: real)
    returns (r: PathReport, start: Cell, goal: Cell, route: seq<Cell>)
    requires g.Valid() && g.View() == v && v.cellSize > 0.0
    ensures !CorridorNearby(v, a) ==> r == Failed(NoCorridorNearby(a))
    ensures CorridorNearby(v, a) && !CorridorNearby(v, b) ==> r == Failed(NoCorridorNearby(b))
    ensures CorridorNearby(v, a) && CorridorNearby(v, b) ==>
              && NearestCorridor(v, a, start) && NearestCorridor(v, b, goal)
              && Measured(v, a, b, minWidthM, start, goal, route, r)
  {
    var walkable := BuildWalkable(g, v);
    var found;
    found, start := TryGetNearestCorridor(g, v, a);
    if !found {
      return Failed(NoCorridorNearby(a)), start, start, [];
    }
    found, goal := TryGetNearestCorridor(g, v, b);
    if !found {
      return Failed(NoCorridorNearby(b)), start, goal, [];
    }
    r, route := Measure(g, v, walkable, a, b, minWidthM, start, goal);
  }

  /** What Analyze reports once both corridors are found: no path when the
      corridor cells do not join start to goal; otherwise a route chosen as
      Chosen says, and a report on it as Reports says. */
  ghost predicate Measured(v: GridView, a: ZoneType, b: ZoneType, minWidthM: real,
                           start: Cell, goal: Cell, route: seq<Cell>, r: PathReport)
    requires v.Wf() && v.cellSize > 0.0
  {
    var P := Corridors(v);
    if !Reachable(P, start, goal) then r == Failed(NoPath(a, b))
    else
      && Chosen(P, Wide(v, KNeeded(CeilToInt(minWidthM / v.cellSize))), start, goal, route)
      && Reports(P, v.cols, v.rows, v.cellSize, minWidthM, route, r)
  }

  /** The route: a shortest route through the wide cells W when there is
      one, and a shortest route through all corridor cells P otherwise. */
  ghost predicate Chosen(P: set<Cell>, W: set<Cell>, start: Cell, goal: Cell, route: seq<Cell>)
  {
    && WalkBetween(P, route, start, goal)
    && (Reachable(W, start, goal) ==> WalkBetween(W, route, start, goal) && Optimal(W, start, goal, |route| - 1))
    && (!Reachable(W, start, goal) ==> Optimal(P, start, goal, |route| - 1))
  }

  /** The report on a route: its length (0 for an empty route) and its
      narrowest width in metres, and a width complaint exactly when that
      width falls short of minWidthM by more than 1e-3. */
  ghost predicate Reports(P: set<Cell>, w: int, h: int, cs: real, minWidthM: real, route: seq<Cell>, r: PathReport)
  {
    && r.hasPath
    && (|route| > 0 ==> r.lengthMeters == Mul((|route| - 1) as real, cs))
    && (|route| == 0 ==> r.lengthMeters == 0.0)
    && r.minWidthMeters == Mul(Narrowest(P, w, h, route) as real, cs)
    && (r.minWidthMeters + 0.001 < minWidthM ==> r.why == TooNarrow(r.minWidthMeters, minWidthM))
    && (r.minWidthMeters + 0.001 >= minWidthM ==> r.why == Fine)
  }

  /** The second half of Analyze: the clearance, the eroded mask, the
      route, and the report on it. */
  method Measure(g: EditorGrid, ghost v: GridView, walkable: array2<bool>, a: ZoneType, b: ZoneType,
                 minWidthM: real, start: Cell, goal: Cell)
    returns (r: PathReport, route: seq<Cell>)
    requires g.Valid() && g.View() == v && v.cellSize > 0.0
    requires walkable.Length0 == v.cols && walkable.Length1 == v.rows && Mask(walkable, Corridors(v))
    requires v.Has(start, Corridor) && v.Has(goal, Corridor)
    ensures Measured(v, a, b, minWidthM, start, goal, route, r)
  {
    var cs := g.cellSize;
    var dist := Clearance(g, walkable);
    var needCells := CeilToInt(minWidthM / cs);
    var k := KNeeded(needCells);
    var eroded := Erode(walkable, dist, k);
    ghost var P, W := Corridors(v), Wide(v, k);
    ErodedIsWide(v, walkable, dist, eroded, k);
    var path := FindRoute(eroded, walkable, start, goal, P, W);
    if path.Null? {
      return Failed(NoPath(a, b)), [];
    }
    route := path.value;
    assert forall i :: 0 <= i < |route| ==> Within(route[i], v.cols, v.rows) by {
      CorridorsMembers(v);
    }
    r := Report(g, walkable, route, cs, minWidthM, P);
  }

  /** AStar on the eroded mask, else AStar on the full mask. */
  method FindRoute(eroded: array2<bool>, walkable: array2<bool>, start: Cell, goal: Cell,
                   ghost P: set<Cell>, ghost W: set<Cell>)
    returns (path: Option<seq<Cell>>)
    requires Mask(eroded, W) && Mask(walkable, P) && W <= P
    requires Within(start, eroded.Length0, eroded.Length1) && Within(start, walkable.Length0, walkable.Length1)
    ensures path.Null? <==> !Reachable(P, start, goal)
    ensures path.Some? ==> Chosen(P, W, start, goal, path.value)
  {
    PassSetMask(eroded);
    PassSetMask(walkable);
    MaskUnique(eroded, W, PassSet(eroded));
    MaskUnique(walkable, P, PassSet(walkable));
    path := AStar(eroded, start, goal);
    if path.Null? {
      path := AStar(walkable, start, goal);
    } else {
      SubsetWalk(W, P, path.value, start, goal);
    }
  }

  /** The report on a route found: minCells is the narrowest width along
      it, and the metres are cell counts times the cell size. */
  method Report(g: EditorGrid, walkable: array2<bool>, route: seq<Cell>, cs: real, minWidthM: real, ghost P: set<Cell>)
    returns (r: PathReport)
    requires walkable.Length0 == g.cols && walkable.Length1 == g.rows && Mask(walkable, P)
    requires forall i :: 0 <= i < |route| ==> Within(route[i], g.cols, g.rows)
    ensures Reports(P, g.cols, g.rows, cs, minWidthM, route, r)
  {
    var minCells := NarrowestCells(g, walkable, route, P);
    var length := if |route| > 0 then Mul((|route| - 1) as real, cs) else 0.0;
    var widthM := Mul(minCells as real, cs);
    var why := if widthM + 0.001 < minWidthM then TooNarrow(widthM, minWidthM) else Fine;
    r := PathReport(true, length, widthM, why);
  }

  /** A walk through a set is a walk through any larger set. */
  lemma SubsetWalk(W: set<Cell>, P: set<Cell>, w: seq<Cell>, s: Cell, t: Cell)
    requires W <= P && WalkBetween(W, w, s, t)
    ensures WalkBetween(P, w, s, t)
  {
  }
}
