# Habitat layout grid engine, in Dafny

This project models the grid engine of HabitatLayoutCreator, a Unity editor in which a space-habitat
designer paints zones onto the decks of a habitat module. Each deck is a grid of tiles, and each tile
holds a zone such as Sleep, Galley or Corridor. The editor then checks the layout. The model covers:

- **Zones, tiles and grids** (`zones.dfy`, `grid.dfy`, `common.dfy`).
  - The twelve zone codes.
  - The change-notifying tile: `GridTile` is a class whose zone is changed in place, and each real change is forwarded to its grid.
  - Grid sizing from the metre extents, the hull mask, and the local-space cell maps.
  - The C#/Unity arithmetic the code relies on: truncating `/` and `%`, and `Mathf` rounding and clamping.
- **Object occupancy** (`occupancy.dfy`).
  - The rotated rectangular footprint of a placeable object.
  - The occupancy class: a blocked flag per cell plus an owner-to-footprint index, both updated in place.
- **Pathfinding** (`pathfinding.dfy`, `pathsearch.dfy`, `pathanalyzer.dfy`).
  - The clearance distance transform, a multi-source breadth-first search over an array.
  - 4-connected A* with the Manhattan heuristic, a closed set and (f, id) tie-breaking, proved to return a shortest path exactly when the goal is reachable.
  - The route analysis between two zones: the nearest corridor to each zone, a search on the eroded corridor mask with a fallback to the full mask, and the narrowest local width along the route.
- **Rules and metrics** (`rules.dfy`, `validator.dfy`, `metrics.dfy`, `decks.dfy`, `presets.dfy`, `fairing.dfy`).
  - First-match rule lookup.
  - The layout validator's area and adjacency issues.
  - Per-zone tile counts and areas on one deck and over all decks.
  - Deck construction and active-deck switching.
  - The launch-fairing fit test.
- **Wall extraction** (`ui_walls.dfy`, `build_walls.dfy`, `meshbuilder.dfy`).
  - The editor's live wall builder: +X/+Y edges, walls wherever solidity changes, and a debounced rebuild.
  - The build scene's older wall builder: all four sides, walls only from the solid side. The two policies are kept as two separate modules.
  - The append-only mesh buffer whose indices always name existing vertices.

Read-only passes are specified over `GridView`, the value the live tile array holds at one moment. Each
loop that walks the live grid is a method proved against a function of that view. Everything the source
updates in place is a class whose methods state their whole new state: tiles, grids, the occupancy, the
deck manager, the mesh builder and the wall components.

## Model

| member | source | states |
|---|---|---|
| Zones.ToInt | Assets/Scripts/EditorScene/ZoneType.cs:6-20 | every code lies in 0..11; code 0 is exactly None and code 11 exactly Corridor |
| Zones.FromInt | Assets/Scripts/EditorScene/ZoneType.cs:6-20 | a zone exists for an integer iff it lies in 0..11 |
| Zones.DefaultIsCodeZero | Assets/Scripts/EditorScene/ZoneType.cs:8 | the enum's default value None is code 0 and code 0 decodes to it |
| Zones.ZoneRoundTrip | Assets/Scripts/EditorScene/ZoneType.cs:8-19 | zone to code to zone is the identity for every zone |
| Zones.CodeRoundTrip | Assets/Scripts/EditorScene/ZoneType.cs:8-19 | code to zone to code is the identity on 0..11 |
| Zones.CodesDistinct | Assets/Scripts/EditorScene/ZoneType.cs:8-19 | distinct zones have distinct codes |
| Zones.RoomCodes | Assets/Scripts/EditorScene/ZoneType.cs:9-19 | the room categories (neither None nor Corridor) are exactly the codes 1..10, and Corridor alone is 11 |
| Zones.TwelveZones | Assets/Scripts/EditorScene/ZoneType.cs:6-20 | there are exactly twelve zones; the zone at position i of the code order has code i and every zone is listed |
| Common.FloorToInt | Assets/Scripts/EditorScene/EditorGrid.cs:123-124 | Mathf.FloorToInt: the result is the greatest integer not above its argument |
| Common.CeilToInt | Assets/Scripts/EditorScene/Pathfind/PathAnalyzer.cs:84-85 | Mathf.CeilToInt: the result is the least integer not below its argument |
| Common.RoundToInt | Assets/Scripts/EditorScene/EditorGrid.cs:30-31 | Mathf.RoundToInt: the result is within one half of its argument, and an exact half goes to the even neighbour |
| Common.Clamp | Assets/Scripts/EditorScene/EditorGrid.cs:125-128 | Mathf.Clamp on integers: the result lies in the range and equals the value when the value already does |
| Common.CsRem | Assets/Scripts/EditorScene/Objects/PlaceableObject.cs:26 | the C# remainder: it truncates toward zero, has the dividend's sign and magnitude below the divisor, and dividend = divisor * quotient + remainder |
| Common.CsDiv | Assets/Scripts/EditorScene/Objects/PlaceableObject.cs:29-30 | the C# quotient truncates toward zero: it has the dividend's sign (0 counting as either), and its magnitude times the divisor is the largest multiple of the divisor not above the dividend's magnitude |
| Common.ClampReal | Assets/Scripts/Build/GridWalls.cs:82 | Mathf.Clamp on reals: the result lies in [lo, hi] when lo <= hi, equals the value when the value already does, and is lo whenever the value is below lo (the lower bound is tested first) |
| Common.PieceLength | Assets/Scripts/UI/GridWalls.cs:179-180 | in both wall builders, each piece beside a door gap is non-negative, and when positive the two pieces plus the gap fill the side exactly |
| Common.AdjacentIsStep | Assets/Scripts/EditorScene/Pathfind/Pathfinding.cs:9 | every 4-neighbour of a cell is produced by one entry of the N4 offset table |
| Common.StepIsAdjacent | Assets/Scripts/EditorScene/Pathfind/Pathfinding.cs:9 | every entry of the N4 offset table leads to a cell at Manhattan distance 1 |
| Grid.InsideHull | Assets/Scripts/EditorScene/EditorGrid.cs:46-53 | with the Rectangle mask every cell is inside the hull; with the Cylinder mask and a non-negative diameter, a row is inside exactly when its centre's z offset from the axis lies within half the diameter either side, which the source's squared comparison decides |
| Grid.CylinderSymmetric | Assets/Scripts/EditorScene/EditorGrid.cs:46-53 | with the Cylinder mask, row y is inside iff its mirror row rows-1-y is; the test depends on the row only |
| Grid.CellCount | Assets/Scripts/EditorScene/EditorGrid.cs:30-31 | a grid dimension is at least one, and once the extent is one and a half cells or more it is the extent in cells rounded to within one half; below one and a half cells it is exactly one |
| Grid.GridTile.constructor | Assets/Scripts/EditorScene/GridTile.cs:9 | a fresh tile (after Awake's SetZone(None), which changes nothing) has zone None, the prefab colour and no subscriber |
| Grid.GridTile.SetZone | Assets/Scripts/EditorScene/GridTile.cs:16-23 | the zone becomes z; when it already was z nothing else changes and no notification is sent; otherwise the tile is recoloured and the subscribed grid records exactly one change (x, y, old, z) with old != z |
| Grid.GridTile.SetHover | Assets/Scripts/EditorScene/GridTile.cs:32-36 | only the shade changes, to the zone's colour with or without highlight; the zone is unchanged |
| Grid.EditorGrid.constructor | Assets/Scripts/EditorScene/EditorGrid.cs:11-14 | the inspector defaults: cell size 0.5, length 10, diameter 6, Cylinder mask, and no tiles yet |
| Grid.EditorGrid.Rebuild | Assets/Scripts/EditorScene/EditorGrid.cs:28-74 | cols and rows are the CellCount of length and diameter; Tiles and Mask are cols x rows; every cell holds a fresh tile of zone None that knows its own (x, y) and forwards its changes to this grid; Mask holds the hull test of each cell; settings and earlier notifications are kept |
| Grid.EditorGrid.Fill | Assets/Scripts/EditorScene/EditorGrid.cs:43-73 | every cell of the arrays is filled with a fresh ready tile and its hull flag |
| Grid.EditorGrid.FillColumn | Assets/Scripts/EditorScene/EditorGrid.cs:44-73 | column x is filled with fresh ready tiles and hull flags and every other column is unchanged |
| Grid.EditorGrid.SetActive | Assets/Scripts/EditorScene/DeckManager.cs:51 | showing or hiding a deck's grid sets its active flag to the requested value and writes nothing else |
| Grid.EditorGrid.CellToLocalCenter | Assets/Scripts/EditorScene/EditorGrid.cs:94-102 | a cell's centre lies on the floor plane (y = 0), and for every in-range cell of a grid with a positive cell size, LocalToCell maps it back to that cell |
| Grid.EditorGrid.LocalToCell | Assets/Scripts/EditorScene/EditorGrid.cs:120-129 | the returned cell is always clamped into 0..max(0, cols-1) by 0..max(0, rows-1) |
| Grid.AxisCell | Assets/Scripts/EditorScene/EditorGrid.cs:123-127 | along one axis the cell always lies in 0..max(0, n-1), and for a position inside the grid it is the cell whose span [i, i+1) cell sizes from the grid's edge holds the position |
| Grid.AxisRoundTrip | Assets/Scripts/EditorScene/EditorGrid.cs:94-129 | the cell holding the centre of cell i along an axis is i |
| Grid.PaintTwice | Assets/Scripts/EditorScene/EditorGrid.cs:64-67 | two SetZone(z) calls on a tile of the grid forward one change (x, y, old, z) when the zone was different and none when it was already z; the tile then holds z |
| Occupancy.NormalizeRot | Assets/Scripts/EditorScene/Objects/PlaceableObject.cs:26 | (rot90 % 4 + 4) % 4 with the truncating C# remainder is the non-negative residue of rot90 modulo 4, for negative counts too |
| Occupancy.ColumnLength | Assets/Scripts/EditorScene/Objects/PlaceableObject.cs:38-39 | the inner loop lists max(0, endY-startY+1) cells |
| Occupancy.ColumnFacts | Assets/Scripts/EditorScene/Objects/PlaceableObject.cs:38-39 | the inner loop lists exactly the cells (x, startY..endY), in increasing y |
| Occupancy.ConcatOrdered | Assets/Scripts/EditorScene/Objects/PlaceableObject.cs:37-39 | two x-major ordered lists whose cells are ordered across the join concatenate to an ordered list |
| Occupancy.RectLength | Assets/Scripts/EditorScene/Objects/PlaceableObject.cs:37-39 | the nested loops list max(0, ex-sx+1) * max(0, ey-sy+1) cells |
| Occupancy.RectMembers | Assets/Scripts/EditorScene/Objects/PlaceableObject.cs:37-39 | the nested loops list exactly the cells of the rectangle [sx..ex] x [sy..ey] |
| Occupancy.RectOrdered | Assets/Scripts/EditorScene/Objects/PlaceableObject.cs:37-39 | the nested loops list cells x-major, y-minor, strictly increasing |
| Occupancy.RangeSpan | Assets/Scripts/EditorScene/Objects/PlaceableObject.cs:29-34 | a non-negative extent w spans exactly w indices from start to end |
| Occupancy.RangeHasCenter | Assets/Scripts/EditorScene/Objects/PlaceableObject.cs:29-34 | an extent of at least one covers its centre, with (w-1)/2 cells before it and w/2 after: odd extents are centred, even ones put the extra cell on the positive side |
| Occupancy.FootprintShape | Assets/Scripts/EditorScene/Objects/PlaceableObject.cs:23-42 | for non-negative sizes the footprint is exactly the rectangle between the range bounds, in x-major order, with w * h cells |
| Occupancy.OrderedDistinct | Assets/Scripts/EditorScene/Objects/PlaceableObject.cs:37-39 | an ordered footprint lists no cell twice |
| Occupancy.FootprintHasCenter | Assets/Scripts/EditorScene/Objects/PlaceableObject.cs:29-34 | the centre cell belongs to every footprint of at least one cell each way |
| Occupancy.RotationPeriodic | Assets/Scripts/EditorScene/Objects/PlaceableObject.cs:26 | rotations rot and rot + 4k give the same footprint for every k, negatives included |
| Occupancy.HalfTurn | Assets/Scripts/EditorScene/Objects/PlaceableObject.cs:26-27 | rotations 0 and 2 give the same footprint, as do 1 and 3: odd rotations only swap width and height |
| Occupancy.EditorGridOccupancy.constructor | Assets/Scripts/EditorScene/EditorGridOccupancy.cs:16-20 | Awake: attached to the grid, every cell unblocked, no object recorded |
| Occupancy.EditorGridOccupancy.Realloc | Assets/Scripts/EditorScene/EditorGridOccupancy.cs:22-26 | Blocked is a fresh cols x rows array with every cell unblocked and the owner index is empty |
| Occupancy.EditorGridOccupancy.CanPlace | Assets/Scripts/EditorScene/EditorGridOccupancy.cs:28-39 | true iff every listed cell is in bounds, has a tile whose zone is not None, and is not blocked; the empty list gives true |
| Occupancy.EditorGridOccupancy.Mark | Assets/Scripts/EditorScene/EditorGridOccupancy.cs:41-50 | every in-bounds listed cell gets the value, out-of-bounds cells are skipped and unlisted cells keep their flag; true records the list as the object's footprint, replacing an earlier one without clearing it; false drops the object |
| Occupancy.EditorGridOccupancy.UnmarkObject | Assets/Scripts/EditorScene/EditorGridOccupancy.cs:52-56 | an unknown object changes nothing; otherwise exactly that object's recorded cells are unblocked, whatever other objects list, and its entry is dropped, so a second call changes nothing |
| Occupancy.PlaceableObject.constructor | Assets/Scripts/EditorScene/Objects/PlaceableObject.cs:12-18 | the inspector defaults: a 2 x 1 footprint that occupies cells, with no occupancy attached |
| Occupancy.PlaceableObject.GetCells | Assets/Scripts/EditorScene/Objects/PlaceableObject.cs:23-42 | the nested loops build exactly the Footprint value, whose shape FootprintShape states |
| Occupancy.PlaceableObject.ApplyOccupancy | Assets/Scripts/EditorScene/Objects/PlaceableObject.cs:44-50 | nothing changes when the object does not occupy cells or has no occupancy; otherwise the new footprint is blocked, the cells of the previous footprint not in it are released, other cells keep their flag, and the new footprint is recorded |
| Occupancy.PlaceableObject.ClearOccupancy | Assets/Scripts/EditorScene/Objects/PlaceableObject.cs:52 | the object's recorded footprint is released and its entry dropped; every other cell keeps its flag |
| Occupancy.ReapplyIsIdempotent | Assets/Scripts/EditorScene/Objects/PlaceableObject.cs:44-50 | applying the same centre and rotation twice leaves Blocked and the owner index as one application does |
| Pathfinding.Clearance | Assets/Scripts/EditorScene/Pathfind/Pathfinding.cs:90-120 | the returned array has the mask's size and is a clearance transform of it: every cell holds the least Manhattan distance to a non-walkable in-bounds cell, capped at int.MaxValue/4 (and that cap when there is none); the mask is not written |
| Pathfinding.Seed | Assets/Scripts/EditorScene/Pathfind/Pathfinding.cs:96-101 | the initial pass: non-walkable cells get 0 and are all queued, walkable cells get int.MaxValue/4, and the propagation facts hold |
| Pathfinding.Expand | Assets/Scripts/EditorScene/Pathfind/Pathfinding.cs:108-117 | the neighbour loop of one dequeued cell lowers each in-bounds neighbour further than d + 1 to d + 1 and queues exactly those, in N4 order |
| Pathfinding.Store | Assets/Scripts/EditorScene/Pathfind/Pathfinding.cs:114 | writing one entry of dist updates the ghost copy at that entry only |
| Pathfinding.Pop | Assets/Scripts/EditorScene/Pathfind/Pathfinding.cs:104-106 | dequeuing the head keeps every queued cell in bounds and every unqueued cell other than the head consistent |
| Pathfinding.LowerPropagates | Assets/Scripts/EditorScene/Pathfind/Pathfinding.cs:112-115 | lowering a neighbour to d + 1 keeps every value sound (no finite value is below the distance to some obstacle) |
| Pathfinding.LowerKeepsConsistent | Assets/Scripts/EditorScene/Pathfind/Pathfinding.cs:112-115 | lowering a neighbour that is then queued leaves every other cell queued or consistent |
| Pathfinding.DequeuePropagates | Assets/Scripts/EditorScene/Pathfind/Pathfinding.cs:106-117 | a whole neighbour loop keeps the propagation facts |
| Pathfinding.DequeueQueued | Assets/Scripts/EditorScene/Pathfind/Pathfinding.cs:106-117 | after a neighbour loop every cell is queued or consistent, except perhaps the dequeued cell |
| Pathfinding.DequeueSettles | Assets/Scripts/EditorScene/Pathfind/Pathfinding.cs:106-117 | after its neighbour loop the dequeued cell is consistent |
| Pathfinding.DequeueTotal | Assets/Scripts/EditorScene/Pathfind/Pathfinding.cs:112-116 | each lowering strictly decreases the sum of all values, so the queue loop terminates |
| Pathfinding.SeedFacts | Assets/Scripts/EditorScene/Pathfind/Pathfinding.cs:96-101 | the seeded values are sound (an obstacle is its own witness) and every walkable cell is consistent |
| Pathfinding.ConsistentBound | Assets/Scripts/EditorScene/Pathfind/Pathfinding.cs:104-118 | once every cell is consistent, a cell's value is at most another cell's value plus their Manhattan distance |
| Pathfinding.ClearanceFromConsistency | Assets/Scripts/EditorScene/Pathfind/Pathfinding.cs:104-118 | an empty queue with every cell consistent and sound values means the values are the clearance transform |
| Pathfinding.MirroredClearance | Assets/Scripts/EditorScene/Pathfind/Pathfinding.cs:93 | the array holds what the value-level proof computed |
| Pathfinding.ClearanceOfObstacle | Assets/Scripts/EditorScene/Pathfind/Pathfinding.cs:100 | a non-walkable cell has clearance 0 |
| Pathfinding.ClearanceWithoutObstacles | Assets/Scripts/EditorScene/Pathfind/Pathfinding.cs:99 | with no non-walkable in-bounds cell every entry stays int.MaxValue/4; outside the grid is not an obstacle |
| Pathfinding.ClearanceNeighbours | Assets/Scripts/EditorScene/Pathfind/Pathfinding.cs:112-116 | finite clearances of 4-neighbours differ by at most one |
| Pathfinding.ClearanceUnique | Assets/Scripts/EditorScene/Pathfind/Pathfinding.cs:90-120 | the clearance transform is determined by the mask alone |
| PathSearch.Heu | Assets/Scripts/EditorScene/Pathfind/Pathfinding.cs:19 | the heuristic is 0 exactly at the goal and at least the distance along either axis |
| PathSearch.HeuConsistent | Assets/Scripts/EditorScene/Pathfind/Pathfinding.cs:19 | the Manhattan heuristic is consistent (it drops by at most one per step between neighbours) and is 0 at the goal |
| PathSearch.Insert | Assets/Scripts/EditorScene/Pathfind/Pathfinding.cs:33 | SortedSet.Add keeps the (f, id) entries in ascending order and adds exactly the new entry, once |
| PathSearch.RemoveId | Assets/Scripts/EditorScene/Pathfind/Pathfinding.cs:80 | SortedSet.RemoveWhere keeps the order and drops exactly the entries with that id |
| PathSearch.PopMin | Assets/Scripts/EditorScene/Pathfind/Pathfinding.cs:39 | SortedSet.Min is the least entry by f, ties by smaller id, and removing it leaves the rest in order |
| PathSearch.PassSetPassable | Assets/Scripts/EditorScene/Pathfind/Pathfinding.cs:61-62 | the walkable cell set is exactly the in-bounds cells the mask marks walkable |
| PathSearch.WalkSpan | Assets/Scripts/EditorScene/Pathfind/Pathfinding.cs:58-62 | a walk's ends are no further apart in Manhattan distance than its number of steps |
| PathSearch.PopFirst | Assets/Scripts/EditorScene/Pathfind/Pathfinding.cs:39-41 | the popped entry names an open cell whose f is least among open cells, and removing it keeps the dictionaries and the open set in step |
| PathSearch.OpenOnWalk | Assets/Scripts/EditorScene/Pathfind/Pathfinding.cs:56-83 | on any walk from the start, the first cell not closed is open and costs no more than its position on the walk |
| PathSearch.PopOptimal | Assets/Scripts/EditorScene/Pathfind/Pathfinding.cs:39-56 | with the consistent heuristic, the open cell of least f already holds its shortest step count |
| PathSearch.LinkNew | Assets/Scripts/EditorScene/Pathfind/Pathfinding.cs:67-74 | a new node with the next id keeps nodes, idmap, the open set and inOpen in step |
| PathSearch.LinkUpdate | Assets/Scripts/EditorScene/Pathfind/Pathfinding.cs:77-83 | a cheaper node under the same id, with its entry re-queued, keeps them in step |
| PathSearch.KnownNew | Assets/Scripts/EditorScene/Pathfind/Pathfinding.cs:67-74 | a new node reached from a closed cell keeps every node's parent a closed neighbour one step cheaper |
| PathSearch.KnownUpdate | Assets/Scripts/EditorScene/Pathfind/Pathfinding.cs:77-83 | a decrease-key from a closed cell keeps the parent facts |
| PathSearch.KnownClose | Assets/Scripts/EditorScene/Pathfind/Pathfinding.cs:56 | closing a popped cell that is not the goal keeps the search facts |
| PathSearch.WalkStaysIn | Assets/Scripts/EditorScene/Pathfind/Pathfinding.cs:37 | with nothing open, a walk that starts in the closed set stays in it |
| PathSearch.Exhausted | Assets/Scripts/EditorScene/Pathfind/Pathfinding.cs:37-87 | when the open set empties without popping the goal, the goal is unreachable |
| PathSearch.Reverse | Assets/Scripts/EditorScene/Pathfind/Pathfinding.cs:53 | List.Reverse: the same length, with the entries in reverse order |
| PathSearch.ReverseTwice | Assets/Scripts/EditorScene/Pathfind/Pathfinding.cs:53 | reversing a path twice gives back the path |
| PathSearch.BackWalk | Assets/Scripts/EditorScene/Pathfind/Pathfinding.cs:45-53 | the parent cells collected from the goal back to the start, reversed, form a walk from start to goal |
| PathSearch.TrailStep | Assets/Scripts/EditorScene/Pathfind/Pathfinding.cs:47-51 | following a parent link extends the collected cells by one step back |
| PathSearch.Reconstruct | Assets/Scripts/EditorScene/Pathfind/Pathfinding.cs:45-54 | the parent chain from the goal's node yields a walk from start to goal with one more cell than the goal's step count |
| PathSearch.RelaxKeep | Assets/Scripts/EditorScene/Pathfind/Pathfinding.cs:61-62 | an out-of-bounds, unwalkable or closed neighbour, or an open one no cheaper, changes nothing |
| PathSearch.RelaxNew | Assets/Scripts/EditorScene/Pathfind/Pathfinding.cs:67-74 | an unknown walkable neighbour gets a new node at cost g + 1 with the popped cell as parent |
| PathSearch.RelaxUpdate | Assets/Scripts/EditorScene/Pathfind/Pathfinding.cs:75-83 | an open neighbour reached more cheaply has its node replaced and its entry re-queued |
| PathSearch.RelaxNeighbour | Assets/Scripts/EditorScene/Pathfind/Pathfinding.cs:60-84 | the body of the neighbour foreach for offset k keeps the relaxation facts for neighbours 0..k |
| PathSearch.Expand | Assets/Scripts/EditorScene/Pathfind/Pathfinding.cs:58-85 | after all four neighbours, every walkable unclosed neighbour of the popped cell is open at most one step costlier, and the loop facts hold with it closed |
| PathSearch.Begin | Assets/Scripts/EditorScene/Pathfind/Pathfinding.cs:31-35 | after the start node is queued only the start is open, at cost 0 |
| PathSearch.Pop | Assets/Scripts/EditorScene/Pathfind/Pathfinding.cs:39-41 | the popped node is the node of an open, unclosed cell and holds that cell's shortest step count; when start equals goal it is the start |
| PathSearch.Close | Assets/Scripts/EditorScene/Pathfind/Pathfinding.cs:56 | closing the popped cell sets up the relaxation of its neighbours |
| PathSearch.Reopen | Assets/Scripts/EditorScene/Pathfind/Pathfinding.cs:56-85 | after the neighbour loop the main loop's facts hold again with one more closed cell |
| PathSearch.Exhaust | Assets/Scripts/EditorScene/Pathfind/Pathfinding.cs:37-87 | an empty open set means the goal is unreachable |
| PathSearch.Settle | Assets/Scripts/EditorScene/Pathfind/Pathfinding.cs:56-85 | the popped non-goal cell is closed in the closed array and its neighbours relaxed |
| PathSearch.Visit | Assets/Scripts/EditorScene/Pathfind/Pathfinding.cs:37-85 | one pass of the while loop either returns a shortest walk to the goal, or closes one more cell while keeping the loop facts (and an empty open set means unreachable) |
| PathSearch.Explore | Assets/Scripts/EditorScene/Pathfind/Pathfinding.cs:37-87 | the while loop returns a shortest walk from start to goal, or null exactly when the goal is unreachable |
| PathSearch.AStar | Assets/Scripts/EditorScene/Pathfind/Pathfinding.cs:21-88 | a returned path starts at start, ends at goal, steps between 4-neighbours onto in-bounds walkable cells (the start is not checked) and has no fewer steps than any such walk; null exactly when no such walk exists; start == goal gives [start] |
| PathSearch.Found | Assets/Scripts/EditorScene/Pathfind/Pathfinding.cs:42-55 | when the goal is popped the reconstructed path is a shortest walk, and [start] when start is the goal |
| PathAnalysis.CorridorsMembers | Assets/Scripts/EditorScene/Pathfind/PathAnalyzer.cs:21 | the corridor cell set holds exactly the in-grid cells whose tile exists and is Corridor |
| PathAnalysis.MaskUnique | Assets/Scripts/EditorScene/Pathfind/PathAnalyzer.cs:11-24 | two cell sets matching the same mask are equal, so the walkable mask determines its cell set |
| PathAnalysis.BuildWalkable | Assets/Scripts/EditorScene/Pathfind/PathAnalyzer.cs:11-24 | a fresh cols x rows mask in which a cell is walkable iff its tile exists and is Corridor (a missing tile leaves it unwalkable); the grid is unchanged |
| PathAnalysis.WalkableColumn | Assets/Scripts/EditorScene/Pathfind/PathAnalyzer.cs:16-22 | one column of the mask is set as above and every other column is unchanged |
| PathAnalysis.RunMeaning | Assets/Scripts/EditorScene/Pathfind/PathAnalyzer.cs:118-121 | a scan's count is the length of the maximal walkable run from the cell in that direction: every counted cell is in-grid and walkable, and the next one is not |
| PathAnalysis.Width | Assets/Scripts/EditorScene/Pathfind/PathAnalyzer.cs:123-125 | the local width is at least 1 |
| PathAnalysis.LocalWidthCells | Assets/Scripts/EditorScene/Pathfind/PathAnalyzer.cs:113-126 | the result is min(1 + left + right, 1 + down + up) over the maximal walkable runs through the cell |
| PathAnalysis.ScanLeft | Assets/Scripts/EditorScene/Pathfind/PathAnalyzer.cs:118 | the counter loop to the left counts exactly the walkable run in direction -x |
| PathAnalysis.ScanRight | Assets/Scripts/EditorScene/Pathfind/PathAnalyzer.cs:119 | the counter loop to the right counts exactly the walkable run in direction +x |
| PathAnalysis.ScanDown | Assets/Scripts/EditorScene/Pathfind/PathAnalyzer.cs:120 | the counter loop downwards counts exactly the walkable run in direction -y |
| PathAnalysis.ScanUp | Assets/Scripts/EditorScene/Pathfind/PathAnalyzer.cs:121 | the counter loop upwards counts exactly the walkable run in direction +y |
| PathAnalysis.Narrowest | Assets/Scripts/EditorScene/Pathfind/PathAnalyzer.cs:98-100 | the narrowest width along a route is at most int.MaxValue and at most every route cell's width, and equals one of them unless the route is empty |
| PathAnalysis.NarrowestCells | Assets/Scripts/EditorScene/Pathfind/PathAnalyzer.cs:98-100 | the loop over the route computes the narrowest width along it |
| PathAnalysis.NearestIsNearby | Assets/Scripts/EditorScene/Pathfind/PathAnalyzer.cs:26-62 | a nearest corridor exists only when some corridor is reachable |
| PathAnalysis.TryGetNearestCorridor | Assets/Scripts/EditorScene/Pathfind/PathAnalyzer.cs:26-62 | true iff a trail from a tile of z through empty or z tiles reaches a corridor tile (never when z is Corridor); the cell returned then is a corridor reached in the fewest steps; false leaves the default cell (0, 0); the grid is unchanged |
| PathAnalysis.Round | Assets/Scripts/EditorScene/Pathfind/PathAnalyzer.cs:43-58 | one dequeue and expansion either finds a nearest corridor or keeps the search invariant, with fewer unseen cells or a shorter queue |
| PathAnalysis.SeedZone | Assets/Scripts/EditorScene/Pathfind/PathAnalyzer.cs:28-41 | the seeding loops queue and mark every tile of z, with step count 0, establishing the search invariant |
| PathAnalysis.SeedColumn | Assets/Scripts/EditorScene/Pathfind/PathAnalyzer.cs:33-40 | one column of seeding marks and queues exactly that column's tiles of z |
| PathAnalysis.Seeded | Assets/Scripts/EditorScene/Pathfind/PathAnalyzer.cs:32-41 | after seeding the search invariant holds at depth 0 |
| PathAnalysis.SeedsQueued | Assets/Scripts/EditorScene/Pathfind/PathAnalyzer.cs:38 | each seed is reached in 0 steps and by no shorter trail |
| PathAnalysis.SeedsCovered | Assets/Scripts/EditorScene/Pathfind/PathAnalyzer.cs:39 | every trail of 0 steps ends on a seen cell |
| PathAnalysis.SeedsClosed | Assets/Scripts/EditorScene/Pathfind/PathAnalyzer.cs:38-39 | every seen cell is still queued |
| PathAnalysis.Pop | Assets/Scripts/EditorScene/Pathfind/PathAnalyzer.cs:44 | dequeuing the head starts its expansion at the queue's current depth |
| PathAnalysis.Expanded | Assets/Scripts/EditorScene/Pathfind/PathAnalyzer.cs:45-58 | after all four directions the head is closed: every in-grid neighbour of a seen, open, unqueued cell is seen |
| PathAnalysis.TrailPrefix | Assets/Scripts/EditorScene/Pathfind/PathAnalyzer.cs:42-59 | a trail without its last cell is a trail |
| PathAnalysis.Advance | Assets/Scripts/EditorScene/Pathfind/PathAnalyzer.cs:42-59 | once every cell of depth D is expanded, every trail of D + 1 steps ends on a seen cell (the FIFO order is breadth-first) |
| PathAnalysis.AdvanceTrail | Assets/Scripts/EditorScene/Pathfind/PathAnalyzer.cs:42-59 | a trail of D + 1 steps ends on a seen cell, because its last-but-one cell was expanded |
| PathAnalysis.Exhausted | Assets/Scripts/EditorScene/Pathfind/PathAnalyzer.cs:42-61 | an empty queue without a corridor found means no trail out of z reaches a corridor |
| PathAnalysis.TrailSeen | Assets/Scripts/EditorScene/Pathfind/PathAnalyzer.cs:42-59 | with the queue empty, every cell of every trail out of z was seen |
| PathAnalysis.Expand | Assets/Scripts/EditorScene/Pathfind/PathAnalyzer.cs:45-58 | the N4 loop for one dequeued cell either finds a nearest corridor or closes the cell, keeping the invariant |
| PathAnalysis.Visit | Assets/Scripts/EditorScene/Pathfind/PathAnalyzer.cs:47-57 | one neighbour is skipped when out of bounds or seen; otherwise it is marked seen, reported when it is a corridor, queued one step deeper when empty or of zone z, and otherwise dropped |
| PathAnalysis.MarkSeen | Assets/Scripts/EditorScene/Pathfind/PathAnalyzer.cs:49 | marking a cell seen adds exactly that cell to the seen set and leaves the grid as it was |
| PathAnalysis.Skipped | Assets/Scripts/EditorScene/Pathfind/PathAnalyzer.cs:48 | a neighbour outside the grid or already seen needs nothing |
| PathAnalysis.Dropped | Assets/Scripts/EditorScene/Pathfind/PathAnalyzer.cs:49-57 | a newly seen neighbour that is missing, or neither open nor corridor, is only marked |
| PathAnalysis.Enqueued | Assets/Scripts/EditorScene/Pathfind/PathAnalyzer.cs:57 | a newly seen open neighbour is queued with exactly one more step than its parent |
| PathAnalysis.LayeredAppend | Assets/Scripts/EditorScene/Pathfind/PathAnalyzer.cs:57 | appending a step count of D + 1 keeps the queue's counts ascending within D .. D + 1 |
| PathAnalysis.EnqueuedQueued | Assets/Scripts/EditorScene/Pathfind/PathAnalyzer.cs:57 | the queued neighbour's step count is exact: a trail reaches it in D + 1 steps and none in fewer |
| PathAnalysis.Found | Assets/Scripts/EditorScene/Pathfind/PathAnalyzer.cs:52-56 | a newly seen corridor neighbour is a nearest corridor |
| PathAnalysis.ExtendTrail | Assets/Scripts/EditorScene/Pathfind/PathAnalyzer.cs:45-57 | a trail to an open cell extended by an in-grid neighbour is a trail one step longer |
| PathAnalysis.KNeeded | Assets/Scripts/EditorScene/Pathfind/PathAnalyzer.cs:85 | kNeeded is at least 1 and is the least such k with 2k - 1 >= needCells |
| PathAnalysis.Erode | Assets/Scripts/EditorScene/Pathfind/PathAnalyzer.cs:87-90 | a fresh mask in which a cell is set iff it is walkable with clearance at least k |
| PathAnalysis.ErodeColumn | Assets/Scripts/EditorScene/Pathfind/PathAnalyzer.cs:89-90 | one column of the eroded mask is set as above and every other column is unchanged |
| PathAnalysis.ErodedIsWide | Assets/Scripts/EditorScene/Pathfind/PathAnalyzer.cs:82-90 | the eroded mask holds exactly the corridor cells at least k steps from every in-grid non-corridor cell |
| PathAnalysis.WideCell | Assets/Scripts/EditorScene/Pathfind/PathAnalyzer.cs:90 | for one cell: walkable with clearance at least k iff it is such a wide corridor cell |
| PathAnalysis.ObstaclesAreWalls | Assets/Scripts/EditorScene/Pathfind/PathAnalyzer.cs:11-24 | under the corridor mask, the obstacles are exactly the in-grid cells that are not corridor tiles |
| PathAnalysis.Analyze | Assets/Scripts/EditorScene/Pathfind/PathAnalyzer.cs:72-111 | no corridor near a gives a failed report naming a; else no corridor near b gives one naming b; otherwise start and goal are nearest corridors and the report is as Measured says |
| PathAnalysis.Measure | Assets/Scripts/EditorScene/Pathfind/PathAnalyzer.cs:81-110 | when the corridor cells do not join start to goal the report is a failed no-path; otherwise the route is chosen as FindRoute says and the report is as Report says, with kNeeded from ceil(minWidthM / cs) |
| PathAnalysis.FindRoute | Assets/Scripts/EditorScene/Pathfind/PathAnalyzer.cs:93 | null iff the goal is unreachable through corridor cells; otherwise a corridor walk from start to goal that is a shortest walk through the wide cells when they join start and goal, and a shortest corridor walk otherwise |
| PathAnalysis.Report | Assets/Scripts/EditorScene/Pathfind/PathAnalyzer.cs:97-110 | hasPath is true; the length is (Count - 1) * cs (0 for an empty route); the width is cs times the narrowest local width along the route on the un-eroded mask; the reason is a width complaint exactly when width + 0.001 < minWidthM |
| PathAnalysis.SubsetWalk | Assets/Scripts/EditorScene/Pathfind/PathAnalyzer.cs:93 | a walk through the wide cells is a walk through the corridor cells, so the eroded route is a valid corridor route |
| Rules.DefaultSpec | Assets/Scripts/EditorScene/RuleSets/ZoneSpec.cs:9-24 | a fresh spec is for the given zone, asks for positive area per crew member, per 100 days and aisle width, and has noise and odour inside their 0..1 range |
| Rules.GetSpec | Assets/Scripts/EditorScene/RuleSets/RuleSet.cs:24 | the spec found has zone t and comes from the list; there is none iff no spec in the list has zone t; the list is not modified |
| Rules.SpecFirst | Assets/Scripts/EditorScene/RuleSets/RuleSet.cs:24 | the spec found is the first in list order with zone t: no earlier spec has it |
| Rules.SpecEarliest | Assets/Scripts/EditorScene/RuleSets/RuleSet.cs:24 | conversely, a spec preceded by no other spec of its zone is the one found for that zone |
| Rules.SpecAppend | Assets/Scripts/EditorScene/RuleSets/RuleSet.cs:21-24 | appending specs to the list changes no lookup that already succeeds |
| Validation.Required | Assets/Scripts/Validation/LayoutValidator.cs:24 | the required area is never negative for non-negative rates, crew and days, and is 0 with no crew and no days |
| Validation.Area | Assets/Scripts/Validation/LayoutValidator.cs:25 | a zone's area is never negative, and is 0 exactly when the zone has no cell or the cell size is 0 |
| Validation.AreaIssue | Assets/Scripts/Validation/LayoutValidator.cs:24-32 | a zone spec raises at most one issue. It raises one exactly when the zone's area plus 0.001 is below the requirement (per-crew area times crew plus per-100-days area times days/100). The issue is an area shortfall naming the zone, the actual area and the required area. It is an Error exactly when the actual area is at most 0.0001, otherwise a Warning, and never Info |
| Validation.AreaIssuesShape | Assets/Scripts/Validation/LayoutValidator.cs:22-33 | the area pass yields at most one issue per spec; every one of them is an area shortfall of severity Warning or Error |
| Validation.Centers | Assets/Scripts/Validation/LayoutValidator.cs:68-87 | the centre map has a key for a zone iff the zone is not None and has at least one tile on the grid |
| Validation.Centroid | Assets/Scripts/Validation/LayoutValidator.cs:85 | a zone's centre (coordinate sums over count) has non-negative coordinates |
| Validation.CentroidInside | Assets/Scripts/Validation/LayoutValidator.cs:85 | a zone's centre (coordinate sums over count) lies within the grid: 0 <= x <= cols-1 and 0 <= y <= rows-1 |
| Validation.RuleIssue | Assets/Scripts/Validation/LayoutValidator.cs:39-52 | an adjacency rule raises at most one issue and none when either zone has no centre. A separation rule gives a Warning "too close" exactly when the scaled centre distance is below the rule's distance. A keep-together rule gives an Info "too far" exactly when it is above |
| Validation.BelowAboveMeaning | Assets/Scripts/Validation/LayoutValidator.cs:42-48 | the squared-distance tests used by RuleIssue decide exactly the source's comparisons dist * cellSize < limit and dist * cellSize > limit, for dist the non-negative root of the squared distance and any sign of cellSize or limit |
| Validation.AdjacencyIssuesShape | Assets/Scripts/Validation/LayoutValidator.cs:37-53 | the adjacency pass yields at most one issue per rule and never an area shortfall; rules naming None yield nothing, since None never has a centre |
| Validation.IssuesOrdered | Assets/Scripts/Validation/LayoutValidator.cs:17-54 | in the issue list every area issue precedes every adjacency issue |
| Validation.AreaOf | Assets/Scripts/Validation/LayoutValidator.cs:56-66 | the area of a zone type is the number of grid tiles of that type (None included) times the cell area |
| Validation.ComputeZoneCenters | Assets/Scripts/Validation/LayoutValidator.cs:68-87 | the loop over columns and rows returns exactly the centre map Centers of the grid: one mean cell per non-None zone present |
| Validation.TotalColumn | Assets/Scripts/Validation/LayoutValidator.cs:73-83 | after one column the running count and coordinate sums of every non-None zone cover the earlier columns plus this whole column; missing tiles and None are skipped |
| Validation.NextCell | Assets/Scripts/Validation/LayoutValidator.cs:80-82 | one more cell raises a zone's count by one and its sums by the cell's coordinates iff the cell holds the zone; otherwise the totals stay the same |
| Validation.NextColumn | Assets/Scripts/Validation/LayoutValidator.cs:72-73 | totals over a finished column are the totals over the columns done, extended by that column |
| Validation.Means | Assets/Scripts/Validation/LayoutValidator.cs:85 | the mean map has the same zones as the totals it divides |
| Validation.CentersOfTotals | Assets/Scripts/Validation/LayoutValidator.cs:84-86 | dividing the finished totals of every zone gives the centre map Centers |
| Validation.CheckArea | Assets/Scripts/Validation/LayoutValidator.cs:24-32 | checking one spec against the live grid yields exactly AreaIssue for the grid's view |
| Validation.CheckAreas | Assets/Scripts/Validation/LayoutValidator.cs:22-33 | the area pass over the live grid yields exactly AreaIssues, spec by spec in list order |
| Validation.CheckAdjacency | Assets/Scripts/Validation/LayoutValidator.cs:37-53 | the adjacency pass yields exactly AdjacencyIssues, rule by rule in list order |
| Validation.Validate | Assets/Scripts/Validation/LayoutValidator.cs:17-54 | Validate on the live grid yields exactly Issues: the area issues followed by the adjacency issues over the zone centres |
| Metrics.CellArea | Assets/Scripts/Validation/MetricsCalculator.cs:8 | a cell's floor area is never negative, and is positive for a cell of non-zero size |
| Metrics.ColumnCountPositive | Assets/Scripts/Validation/MetricsCalculator.cs:14-21 | a column counts zone z at least once iff some slot of the column holds a tile of z |
| Metrics.SlotsCountPositive | Assets/Scripts/Validation/MetricsCalculator.cs:13-21 | the columns count zone z at least once iff some slot of some column holds a tile of z |
| Metrics.CountPositive | Assets/Scripts/Validation/MetricsCalculator.cs:13-21 | a zone's count is positive iff some in-grid cell holds a tile of that zone |
| Metrics.HitsDistinct | Assets/Scripts/Validation/MetricsCalculator.cs:18-21 | a tile is counted for at most one zone of a repeat-free zone list, and for exactly one when its zone is in the list |
| Metrics.CountedZones | Assets/Scripts/Validation/MetricsCalculator.cs:19 | the counted zone list holds every zone but None, each exactly once |
| Metrics.HitsCounted | Assets/Scripts/Validation/MetricsCalculator.cs:16-21 | a slot adds one to the counts iff it holds a tile whose zone is not None; missing tiles and None add nothing |
| Metrics.ColumnTotal | Assets/Scripts/Validation/MetricsCalculator.cs:14-21 | over one column the per-zone counts add up to the number of occupied non-None slots |
| Metrics.SlotsTotal | Assets/Scripts/Validation/MetricsCalculator.cs:13-21 | over all columns the per-zone counts add up to the number of occupied non-None slots, which is at most cols * rows |
| Metrics.CountsAddUp | Assets/Scripts/Validation/MetricsCalculator.cs:10-24 | on a grid the counts of all zones but None add up to the number of tiles of those zones, at most cols * rows, so every such tile is counted exactly once |
| Metrics.Tally | Assets/Scripts/Validation/MetricsCalculator.cs:13-22 | the double loop adds each non-None zone's tile count to the running map and keeps None out of it |
| Metrics.CountTiles | Assets/Scripts/Validation/MetricsCalculator.cs:10-24 | the map has no None key; it has a key for a zone iff the zone has at least one tile; that key's value is the zone's tile count |
| Metrics.CountOf | Assets/Scripts/Validation/LayoutValidator.cs:56-64 | the loop returns the number of grid tiles of the zone type, None included |
| Metrics.ColumnCountOf | Assets/Scripts/Validation/LayoutValidator.cs:60-64 | the inner loop returns the number of tiles of the zone type in column x |
| Decks.DeckCountPositive | Assets/Scripts/EditorScene/DeckManager.cs:58-71 | a zone's total over the decks is positive iff some deck holds at least one tile of it |
| Decks.MaskOf | Assets/Scripts/EditorScene/DeckManager.cs:36 | a deck's hull mask is Rectangle iff the preset's shape is Prism, otherwise Cylinder |
| Decks.DeckManager.Views | Assets/Scripts/EditorScene/DeckManager.cs:17 | one grid view per deck, in deck order, each the deck's current contents |
| Decks.DeckManager.constructor | Assets/Scripts/EditorScene/DeckManager.cs:9-17 | a new manager holds the preset, no decks, active deck 0 and no change notifications |
| Decks.DeckManager.BuildDecks | Assets/Scripts/EditorScene/DeckManager.cs:19-43 | the decks are replaced by max(1, preset decks) fresh grids. Each has the preset's cell size, length, diameter and mask, the sizes computed from them and every cell a None tile. Only the active deck is shown; the preset, the active index and the notifications are unchanged |
| Decks.DeckManager.Append | Assets/Scripts/EditorScene/DeckManager.cs:40 | the deck list gains the grid at its end and nothing else changes in it |
| Decks.DeckManager.NewDeck | Assets/Scripts/EditorScene/DeckManager.cs:28-41 | one deck is a fresh grid set from the preset and rebuilt: preset sizes and mask, all None tiles, no tile change notifications, shown as asked |
| Decks.DeckManager.Current | Assets/Scripts/EditorScene/DeckManager.cs:45 | the current deck exists iff the active index is within the deck list, and it is the deck at that index |
| Decks.DeckManager.SetActiveDeck | Assets/Scripts/EditorScene/DeckManager.cs:47-56 | with no decks nothing changes. Otherwise the active index becomes the requested index clamped to the list, and exactly that deck is shown. One change notification carrying it is appended. Only the decks' active flags are written, so every other field of every deck (tiles, hull mask, sizes, notifications) is unchanged |
| Decks.DeckManager.ShowOnly | Assets/Scripts/EditorScene/DeckManager.cs:51 | deck k is shown and every other deck hidden; only the decks' active flags are written, so the deck list, the active index and every other field of every deck are unchanged |
| Decks.DeckManager.Show | Assets/Scripts/EditorScene/DeckManager.cs:51 | one deck's visibility is set; every other deck's visibility is unchanged |
| Decks.DeckManager.CountTilesAll | Assets/Scripts/EditorScene/DeckManager.cs:58-71 | for every zone but None the map holds the zone's tile count summed over all decks; None never appears; missing tiles are skipped |
| Decks.DeckManager.AreasAllDecksM2 | Assets/Scripts/EditorScene/DeckManager.cs:73-93 | with no decks the map is empty. Otherwise None never appears, and a zone has an entry iff it has a tile on some deck. That entry is its total tile count times the first deck's cell area |
| Decks.DeckManager.SumDeckAreas | Assets/Scripts/EditorScene/DeckManager.cs:81-91 | adding the cell area once per non-None tile, deck by deck, gives each present zone count-many copies of the cell area and gives absent zones no entry |
| Decks.CountNextDeck | Assets/Scripts/EditorScene/DeckManager.cs:61-69 | counting one more deck adds that deck's tile counts to the totals of the decks done |
| Decks.AddNextDeck | Assets/Scripts/EditorScene/DeckManager.cs:81-91 | summing one more deck adds that deck's tiles' areas to the areas of the decks done; entries appear exactly for zones now present |
| Decks.AreasAreProducts | Assets/Scripts/EditorScene/DeckManager.cs:88-89 | an area built by adding the cell area once per tile equals the tile count times the cell area |
| Decks.AddDeckArea | Assets/Scripts/EditorScene/DeckManager.cs:83-90 | one deck's loop adds the cell area once per tile of each non-None zone; an entry appears iff it was there or the deck holds the zone |
| Decks.AddColumnArea | Assets/Scripts/EditorScene/DeckManager.cs:84-90 | one column's loop adds the cell area once per tile of each non-None zone in that column |
| Decks.CellStep | Assets/Scripts/EditorScene/DeckManager.cs:86-89 | one more cell adds one to zone z's count and one cell area to its summed area iff the cell holds a tile of z, and adds nothing otherwise |
| Decks.ColumnArea | Assets/Scripts/EditorScene/DeckManager.cs:83-90 | the count and summed area over columns done plus one more column split into the two parts |
| Decks.DeckArea | Assets/Scripts/EditorScene/DeckManager.cs:81-91 | the count and summed area over decks done plus one more deck split into the two parts |
| Decks.RepeatAdd | Assets/Scripts/EditorScene/DeckManager.cs:89 | adding the cell area a + b times is adding it a times and then b times |
| Decks.RepeatIsProduct | Assets/Scripts/EditorScene/DeckManager.cs:89 | adding the cell area n times equals n times the cell area |
| Presets.CrewSize | Assets/Scripts/EditorScene/HabitatContext.cs:11 | the crew size is the mission's when a mission is set and 4 otherwise |
| Presets.MissionDays | Assets/Scripts/EditorScene/HabitatContext.cs:12 | the mission length is the mission's when a mission is set and 180 days otherwise |
| Presets.ContextDefaultsAgree | Assets/Scripts/EditorScene/Presets/MissionPreset.cs:12-13 | the context's fallbacks for a missing mission equal the default mission preset's crew size and days |
| Fairing.Fits | Assets/Scripts/Validation/FairingChecker.cs:27-36 | whichever way the module is stowed, a fit means both diameter and length are within the larger fairing dimension plus 0.001, and both within the smaller one plus 0.001 guarantees a fit |
| Fairing.Check | Assets/Scripts/Validation/FairingChecker.cs:14-43 | with either preset missing the module fits with the "no presets" message. Standing up, it fits iff diameter <= fairing diameter + 0.001 and length <= fairing height + 0.001. Lying down, the diameter is compared with the height and the length with the fairing diameter. The message is OK iff it fits, FAIL iff not, and explains the vertical comparison iff the module stands up |
| Fairing.CheckMonotone | Assets/Scripts/Validation/FairingChecker.cs:27-36 | a module no larger in either dimension, stowed the same way, in a fairing no smaller in either dimension, still fits |
| Fairing.DefaultsFit | Assets/Scripts/EditorScene/Presets/HabitatShapePreset.cs:12-23 | the default module (6 m diameter, 10 m long, standing) fits the default fairing (8 m by 20 m) |
| Meshes.FaceNormal | Assets/Scripts/Build/MeshBuilder.cs:18 | the quad's normal, taken before normalisation, is perpendicular to both edges b - a and c - a |
| Meshes.QuadIndices | Assets/Scripts/Build/MeshBuilder.cs:21-22 | a quad adds six indices forming two triangles. Each index names one of the quad's four vertices i..i+3. The triangles share the first corner i and the diagonal corner i+2 |
| Meshes.MeshBuilder.constructor | Assets/Scripts/Build/MeshBuilder.cs:9-12 | a new builder has four empty lists and satisfies the buffer invariant |
| Meshes.MeshBuilder.Quad | Assets/Scripts/Build/MeshBuilder.cs:14-23 | appending a quad keeps the invariant: the per-vertex lists stay parallel and made of whole quads, each quad's indices name its own vertices, and its texture coordinates are fixed. It appends the four corners, four copies of the face normal, the corner texture coordinates (0,0) (1,0) (1,1) (0,1) and the quad's six indices offset by the earlier vertex count. Nothing already in the lists changes |
| Meshes.IndicesInRange | Assets/Scripts/Build/MeshBuilder.cs:25-34 | in a valid builder every triangle index names an existing vertex, and there are exactly six indices per four vertices, so the lists handed to the mesh are consistent |
| BuildWalls.DoorWidth | Assets/Scripts/Build/GridWalls.cs:82 | the door gap is the requested width clamped to [0.4, 0.9 cs]. It equals the request when that is already in range, and is then narrower than 0.95 cs, so a door side is split whenever 0.4 < 0.95 cs |
| BuildWalls.EdgeSegments | Assets/Scripts/Build/GridWalls.cs:58-102 | every segment a side yields stands on that cell and side, and a side yields segments only when the cell is solid and its neighbour (maybe outside the grid) is not. Without a split door it yields one whole segment of the cell's length. With a split door it yields no segments or two: equal left and right pieces, both longer than 0.01 and together the side's length less the gap |
| BuildWalls.DoorMeansCorridorNeighbour | Assets/Scripts/Build/GridWalls.cs:81 | on a solid cell the door test (which also asks whether the cell itself is corridor) holds iff doors are on and the neighbour is corridor |
| BuildWalls.BeforeMembers | Assets/Scripts/Build/GridWalls.cs:46-56 | the segments emitted before cell (x, y) are exactly those yielded by the sides of the cells the pass visited earlier (earlier columns, then earlier rows of column x) |
| BuildWalls.EmittedMembers | Assets/Scripts/Build/GridWalls.cs:53-56 | the segments emitted before side k of a cell are those of the earlier cells plus those of the cell's first k sides in +X, -X, +Y, -Y order |
| BuildWalls.WallsMembers | Assets/Scripts/Build/GridWalls.cs:46-103 | a segment is in the rebuilt walls iff it stands on a side of an in-grid cell that yields it; cells without a tile yield nothing and are skipped |
| BuildWalls.SideWalledOnce | Assets/Scripts/Build/GridWalls.cs:67-68 | every segment between two adjacent cells stands on a solid cell facing a non-solid one. A solid/non-solid boundary is walled only from the solid cell's side. Without a split door that side carries a whole segment |
| BuildWalls.BorderWalled | Assets/Scripts/Build/GridWalls.cs:32 | a solid cell whose neighbour lies outside the grid gets a whole segment on that side, so the outer border is walled (an out-of-grid cell is neither solid nor corridor) |
| BuildWalls.GridWalls.constructor | Assets/Scripts/Build/GridWalls.cs:10-16 | a new component holds the given grid, the inspector defaults (2.4 m high, 0.08 m thick, build on awake, doors on, 0.9 m doors, Corridor) and no mesh |
| BuildWalls.GridWalls.Awake | Assets/Scripts/Build/GridWalls.cs:20 | with build-on-awake set and a grid present, the mesh becomes the grid's walls; otherwise the mesh is unchanged |
| BuildWalls.GridWalls.Rebuild | Assets/Scripts/Build/GridWalls.cs:21-106 | without a grid nothing changes; otherwise the mesh holds exactly the grid's walls in pass order and three quads per segment |
| BuildWalls.GridWalls.WallPass | Assets/Scripts/Build/GridWalls.cs:46-56 | the column loop emits exactly the grid's walls |
| BuildWalls.GridWalls.WallColumn | Assets/Scripts/Build/GridWalls.cs:47-56 | one column's row loop adds exactly that column's segments to those of the earlier columns |
| BuildWalls.GridWalls.WallCell | Assets/Scripts/Build/GridWalls.cs:49-56 | a cell without a tile adds nothing; otherwise its four sides' segments are added in +X, -X, +Y, -Y order |
| BuildWalls.GridWalls.SolidAt | Assets/Scripts/Build/GridWalls.cs:30-36 | the live test is false outside the grid and otherwise agrees with IsSolid: a tile whose zone is neither None nor the corridor zone |
| BuildWalls.GridWalls.CorridorAt | Assets/Scripts/Build/GridWalls.cs:38-43 | the live test is false outside the grid and otherwise agrees with IsCorridor: a tile of the corridor zone |
| BuildWalls.GridWalls.TryEdge | Assets/Scripts/Build/GridWalls.cs:58-102 | examining one side appends exactly the segments that side yields |
| UiWalls.SolidityMeaning | Assets/Scripts/UI/GridWalls.cs:118-130 | outside the grid nothing is solid or corridor; a solid cell is never a corridor; inside the grid a tile is solid iff its zone is neither None nor the corridor zone |
| UiWalls.DoorWidth | Assets/Scripts/UI/GridWalls.cs:175 | the door gap is the requested width clamped to [0.4, 0.95 cs], and equals the request when that is already in range |
| UiWalls.EdgeSegments | Assets/Scripts/UI/GridWalls.cs:140-192 | an edge yields at most two segments, and some exactly when solidity changes across it and, at a door, the side pieces are longer than 0.01 |
| UiWalls.EdgeSegmentsMeaning | Assets/Scripts/UI/GridWalls.cs:140-192 | every segment of an edge stands on that edge and faces away from the solid side. Without a door it yields one whole segment of the cell's length. With a door it yields two equal pieces beside the gap when they are longer than 0.01, and none otherwise |
| UiWalls.BeforeMembers | Assets/Scripts/UI/GridWalls.cs:133-138 | the segments emitted before cell (x, y) are exactly those yielded by the +X and +Y edges of the cells the pass visited earlier |
| UiWalls.WallsMembers | Assets/Scripts/UI/GridWalls.cs:133-138 | a segment is in the rebuilt walls iff it stands on an examined edge of an in-grid cell and that edge yields it |
| UiWalls.EdgeWalled | Assets/Scripts/UI/GridWalls.cs:144-191 | an examined edge carries wall iff solidity changes across it and, at a door, the pieces beside the gap are longer than 0.01 |
| UiWalls.EdgeExaminedOnce | Assets/Scripts/UI/GridWalls.cs:132-138 | examining only +X and +Y edges visits each edge between two cells at most once. An edge is visited exactly when both cells are in the grid or it leaves the grid on the +X or +Y side. Edges on the x = 0 and y = 0 borders are never visited |
| UiWalls.OuterBorders | Assets/Scripts/UI/GridWalls.cs:136-148 | every segment stands on a cell with non-negative coordinates, so the outer edges left of column 0 and below row 0, which only a cell at x = -1 or y = -1 would examine, never get a wall. A solid cell in the last column or last row gets a whole wall on its outer edge, since the outside is never corridor |
| UiWalls.Deadline | Assets/Scripts/UI/GridWalls.cs:86-89 | the scheduled rebuild time is now plus the debounce in play mode and 0 in the editor, never negative for a non-negative clock and debounce |
| UiWalls.EditsCoalesce | Assets/Scripts/UI/GridWalls.cs:80-89 | a burst of tile edits never rebuilds by itself. With live update on, only the last edit's deadline survives; with it off, the deadline is unchanged |
| UiWalls.FramesRebuildOnce | Assets/Scripts/UI/GridWalls.cs:61-69 | frames with no edits between them rebuild at most once, and never when no rebuild is pending |
| UiWalls.GridWalls.constructor | Assets/Scripts/UI/GridWalls.cs:11-28 | a new component has no grid, the inspector defaults, no pending rebuild (-1), zero segments and no mesh |
| UiWalls.GridWalls.SetGrid | Assets/Scripts/UI/GridWalls.cs:72-78 | switching grids stores the new grid and schedules a rebuild |
| UiWalls.GridWalls.ScheduleRebuild | Assets/Scripts/UI/GridWalls.cs:86-89 | the pending time becomes the deadline: now plus the debounce in play mode, 0 in the editor |
| UiWalls.GridWalls.HandleTileChanged | Assets/Scripts/UI/GridWalls.cs:80-84 | a tile edit reschedules the rebuild when live update is on and changes nothing otherwise |
| UiWalls.GridWalls.Update | Assets/Scripts/UI/GridWalls.cs:61-69 | a frame rebuilds and goes idle exactly when a rebuild is pending and (in the editor, or in play mode once the deadline has passed); otherwise the mesh and the segment counter are unchanged |
| UiWalls.GridWalls.Rebuild | Assets/Scripts/UI/GridWalls.cs:94-198 | a missing or unbuilt grid clears the mesh and keeps the counter. Otherwise the mesh holds exactly the walls of every examined edge in pass order, with three quads per segment, and the counter equals the number of segments |
| UiWalls.GridWalls.WallPass | Assets/Scripts/UI/GridWalls.cs:111-138 | the column loop yields exactly the grid's walls, three quads per segment, and counts them |
| UiWalls.GridWalls.WallColumn | Assets/Scripts/UI/GridWalls.cs:134-138 | one column's row loop adds exactly that column's segments after the earlier columns' |
| UiWalls.GridWalls.WallCell | Assets/Scripts/UI/GridWalls.cs:136-137 | one cell adds its +X edge's segments, then its +Y edge's |
| UiWalls.GridWalls.SolidAt | Assets/Scripts/UI/GridWalls.cs:118-123 | the live test is false outside the grid and otherwise agrees with IsSolid |
| UiWalls.GridWalls.CorridorAt | Assets/Scripts/UI/GridWalls.cs:125-130 | the live test is false outside the grid and otherwise agrees with IsCorridor |
| UiWalls.GridWalls.TryEdge | Assets/Scripts/UI/GridWalls.cs:140-192 | examining one edge appends exactly the segments that edge yields, three quads and one count each |
| UiWalls.GridWalls.AddWallSegment | Assets/Scripts/UI/GridWalls.cs:200-227 | one segment raises the counter by one and adds three quads (outer face, inner face, top) |

## Left out

- Floating point: every `float` is a Dafny `real` except in the A* search, so rounding error is not modelled. Mathf rounding, flooring and ceiling are exact on reals, and a product of two metre values is exact.
- Rendering and geometry: the wall segments' world positions, directions and normals are not modelled, in either wall builder. A segment is recorded by the cell edge it stands on, its part, its length and its facing. `MeshBuilder.Build` and the Unity `Mesh` are not modelled.
- Meshes.FaceNormal: the normal is not normalised, because normalising needs a square root; only its direction (perpendicular to the quad's edges) is stated.
- Unity transforms: `WorldToCell`, `CellToWorldCenter` and `SnapWorldToCellCenter` depend on the object's transform; only the local-space maps are modelled.
- Unity object lifecycle: `Instantiate`, `DestroyImmediate`, prefabs, colliders, renderers, colours and the deck height offset are not modelled. A tile's colour is kept only as the shade value `SetHover` and `SetZone` write.
- Logging: `Debug.Log` and `Debug.LogWarning` calls are dropped.
- Time: `Time.time` and `Application.isPlaying` are parameters of the live wall builder's methods.
- UiWalls.GridWalls: `Awake`, `Start` and `OnValidate` only call `Rebuild` under inspector flags and play mode, and are not modelled. `OnEnable`/`OnDisable` event subscription is not modelled; the grid's tile-change event is delivered by calling `HandleTileChanged`.
- Event delegates: a tile's `OnZoneChanged` subscriber is its owning grid, the one subscriber the source installs. `OnTileChanged` and `OnActiveDeckChanged` are recorded as lists of notifications rather than calls into unknown subscribers.
- Validation.Issues: the issue messages are datatypes carrying the figures they print, not formatted strings. An adjacency message carries the squared centre distance, not the printed distance.
- Validation.RuleIssue: the centre distance is compared through squares (`Below`/`Above`) instead of a square root; `BelowAboveMeaning` proves that this decides the same comparisons as the source's `Vector2.Distance(a, b) * cellSize`.
- Validation.ComputeZoneCenters: the source's two dictionaries (sums and counts) are merged into one map from zone to running totals.
- PathSearch.Node and PathSearch.Heu: the source's `float` costs g, h and f only ever hold small whole numbers of steps, so they are modelled exactly as `nat`; float precision loss above 2^24 steps is not modelled.
- Grid.CellCount, Grid.EditorGrid.Rebuild, Grid.EditorGrid.LocalToCell, Decks.DeckManager.BuildDecks, Decks.DeckManager.NewDeck and PathAnalysis.Analyze require a positive cell size: the source divides by it, and float division by zero (infinities, NaN casts to int) is not modelled.
- PathAnalysis.Analyze: 32-bit overflow when the needed width in cells is computed is not modelled.
- PathAnalysis.TryGetNearestCorridor: the corridor returned is proved to be a nearest one, at minimal step distance, but which of several equally near corridors the FIFO order returns is not pinned down.
- PathSearch.AStar requires an in-grid start unless start equals goal: the source indexes the closed array at the start cell and throws outside it. It takes the grid size from the mask's dimensions where the source uses the grid's cols and rows; every caller builds the mask at the grid's size.
- Occupancy.PlaceableObject.ApplyOccupancy requires sizeX * sizeY >= 0 when the object occupies cells and has an occupancy map. The source then unmarks the previous footprint before GetCells throws on a negative size; that partial effect is not modelled.
- Occupancy.PlaceableObject.GetCells requires sizeX * sizeY >= 0, because the source's list capacity throws on a negative size.
- Ghost view parameters: methods over a live grid take a ghost snapshot of its tiles to state what they compute; the snapshot is not part of the program.
- Zone specs and adjacency rules: `ZoneSpec` and `AdjacencyRule` are modelled as values. A null entry in the rule lists is not modelled.
- Integer widths: `int` is unbounded. The only C# sentinels that matter are `int.MaxValue / 4` (clearance with no obstacle) and `int.MaxValue` (the starting narrowest width), and they are kept as constants.
- The editor's input, UI and scene plumbing are not part of this model (ObjectPlacer, EditorCameraController, ShapePanelUI, BrushPanelUI, MetricsHUD, Buttons, HabitatShapeView, PathOverlay). Neither is ZoneBrush's paint guard, which asks for the hull mask before painting.
- Persistence and I/O (JSONManager, SnapshotIO, ReportExporter) are not part of this model. VariantManager's capture and apply are empty stubs and are not modelled. SimpleMetrics is a logging copy of the tile count.
