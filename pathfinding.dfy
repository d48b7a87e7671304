/** Grid search over a walkability mask (Pathfinding.cs): the clearance
    distance transform and 4-connected A* with a Manhattan heuristic. The
    mask has the grid's dimensions; a cell outside it is never walkable. */
module Pathfinding {
  import opened Common
  import opened Grid

  /** int.MaxValue / 4: the clearance of a cell with no obstacle anywhere. */
  const INF: int := 536870911

  predicate Within(c: Cell, w: int, h: int)
  {
    0 <= c.x < w && 0 <= c.y < h
  }

  /** An in-bounds walkable cell. */
  predicate Passable(wk: array2<bool>, c: Cell)
    reads wk
  {
    Within(c, wk.Length0, wk.Length1) && wk[c.x, c.y]
  }

  /** An in-bounds cell that is not walkable; outside the grid there is none. */
  predicate Obstacle(wk: array2<bool>, c: Cell)
    reads wk
  {
    Within(c, wk.Length0, wk.Length1) && !wk[c.x, c.y]
  }

  function At(dist: array2<int>, c: Cell): int
    reads dist
    requires Within(c, dist.Length0, dist.Length1)
  {
    dist[c.x, c.y]
  }

  // ---------------------------------------------------------------------
  // Clearance

  /** What Clearance computes: every cell holds its Manhattan distance to the
      nearest obstacle, capped at INF (and INF when there is no obstacle). */
  ghost predicate IsClearance(wk: array2<bool>, dist: array2<int>)
    reads wk, dist
  {
    && dist.Length0 == wk.Length0 && dist.Length1 == wk.Length1
    && (forall c :: Within(c, wk.Length0, wk.Length1) ==> 0 <= At(dist, c) <= INF)
    && (forall c, o :: Within(c, wk.Length0, wk.Length1) && Obstacle(wk, o) ==>
          At(dist, c) <= Manhattan(c, o))
    && (forall c :: Within(c, wk.Length0, wk.Length1) ==>
          At(dist, c) == INF || exists o :: Obstacle(wk, o) && At(dist, c) == Manhattan(c, o))
  }

  // The propagation is argued on values: the mask as a Layout (its size and
  // its set of obstacle cells) and a ghost copy of the distance array, a
  // w x h grid of values d[x][y]. Only Mirrors ties the copy to the heap.

  datatype Layout = Layout(w: int, h: int, obs: set<Cell>)

  ghost function LayoutOf(wk: array2<bool>): (l: Layout)
    reads wk
    ensures l.w == wk.Length0 && l.h == wk.Length1
    ensures forall o :: o in l.obs <==> Obstacle(wk, o)
  {
    Layout(wk.Length0, wk.Length1,
      set x, y | 0 <= x < wk.Length0 && 0 <= y < wk.Length1 && !wk[x, y] :: Cell(x, y))
  }

  ghost predicate Shaped(d: seq<seq<nat>>, w: int, h: int)
  {
    |d| == w && forall x :: 0 <= x < w ==> |d[x]| == h
  }

  /** The value of cell c in d; 0 outside d. */
  ghost function Val(d: seq<seq<nat>>, c: Cell): nat
  {
    if 0 <= c.x < |d| && 0 <= c.y < |d[c.x]| then d[c.x][c.y] else 0
  }

  /** d copies the array entry by entry. */
  ghost predicate Mirrors(d: seq<seq<nat>>, dist: array2<int>)
    reads dist
  {
    && Shaped(d, dist.Length0, dist.Length1)
    && (forall x, y :: 0 <= x < dist.Length0 && 0 <= y < dist.Length1 ==> d[x][y] == dist[x, y])
  }

  /** No in-bounds 4-neighbour of c is more than one step further than c. */
  ghost predicate Consistent(d: seq<seq<nat>>, w: int, h: int, c: Cell)
  {
    forall k :: 0 <= k < 4 && Within(Step(c, k), w, h) ==> Val(d, Step(c, k)) <= Val(d, c) + 1
  }

  /** Every cell not waiting in the queue is consistent, except perhaps skip. */
  ghost predicate QueuedOrConsistent(d: seq<seq<nat>>, w: int, h: int, q: seq<Cell>, skip: Option<Cell>)
  {
    forall c {:trigger Consistent(d, w, h, c)} :: Within(c, w, h) && skip != Some(c) ==> c in q || Consistent(d, w, h, c)
  }

  /** Every value is at most INF, and a finite one is no less than the
      distance to some obstacle; every obstacle is in bounds and at 0. */
  ghost predicate Sound(l: Layout, d: seq<seq<nat>>)
  {
    && Shaped(d, l.w, l.h)
    && (forall c {:trigger Within(c, l.w, l.h)} :: Within(c, l.w, l.h) ==>
          Val(d, c) <= INF && (Val(d, c) < INF ==> exists o :: o in l.obs && Manhattan(c, o) <= Val(d, c)))
    && (forall o :: o in l.obs ==> 0 <= o.x < l.w && 0 <= o.y < l.h && Val(d, o) == 0)
  }

  /** The facts the propagation keeps: sound values and only in-bounds cells
      queued. */
  ghost predicate Propagating(l: Layout, d: seq<seq<nat>>, q: seq<Cell>)
  {
    Sound(l, d) && forall i :: 0 <= i < |q| ==> Within(q[i], l.w, l.h)
  }

  function RowSum(r: seq<nat>): nat
  {
    if r == [] then 0 else r[0] + RowSum(r[1..])
  }

  function Total(d: seq<seq<nat>>): nat
  {
    if d == [] then 0 else RowSum(d[0]) + Total(d[1..])
  }

  lemma {:induction false} RowSumUpdate(r: seq<nat>, y: int, v: nat)
    requires 0 <= y < |r|
    ensures RowSum(r[y := v]) == RowSum(r) - r[y] + v
  {
    if y > 0 {
      assert r[y := v][1..] == r[1..][y - 1 := v];
      RowSumUpdate(r[1..], y - 1, v);
    }
  }

  /** d with entry [x][y] replaced by v (d itself when [x][y] is outside d). */
  function Put(d: seq<seq<nat>>, x: int, y: int, v: nat): (r: seq<seq<nat>>)
    ensures |r| == |d| && forall i :: 0 <= i < |d| ==> |r[i]| == |d[i]|
  {
    if 0 <= x < |d| && 0 <= y < |d[x]| then
      var row: seq<nat> := d[x][y := v];
      d[x := row]
    else d
  }

  lemma PutAt(d: seq<seq<nat>>, x: int, y: int, v: nat)
    requires 0 <= x < |d| && 0 <= y < |d[x]|
    ensures forall c {:trigger Val(Put(d, x, y, v), c)} ::
              Val(Put(d, x, y, v), c) == if c == Cell(x, y) then v else Val(d, c)
  {
  }

  lemma {:induction false} TotalUpdate(d: seq<seq<nat>>, x: int, y: int, v: nat)
    requires 0 <= x < |d| && 0 <= y < |d[x]|
    ensures Total(Put(d, x, y, v)) == Total(d) - d[x][y] + v
  {
    if x == 0 {
      RowSumUpdate(d[0], y, v);
      assert Put(d, x, y, v)[1..] == d[1..];
    } else {
      assert Put(d, x, y, v)[1..] == Put(d[1..], x - 1, y, v);
      TotalUpdate(d[1..], x - 1, y, v);
    }
  }

  /** Lowering the k-th neighbour n of p to one more than p's value and
      queueing it keeps the propagation facts; p keeps its value. */
  lemma LowerPropagates(l: Layout, d: seq<seq<nat>>, q: seq<Cell>, p: Cell, k: int, v: nat)
    requires 0 <= k < 4 && Propagating(l, d, q)
    requires Within(p, l.w, l.h) && Within(Step(p, k), l.w, l.h)
    requires v == Val(d, p) + 1 < Val(d, Step(p, k))
    ensures Propagating(l, Put(d, Step(p, k).x, Step(p, k).y, v), q + [Step(p, k)])
    ensures Val(Put(d, Step(p, k).x, Step(p, k).y, v), p) == Val(d, p)
  {
    var n := Step(p, k);
    StepIsAdjacent(p, k);
    LowerSound(l, d, p, n, v);
    assert forall i :: 0 <= i < |q + [n]| ==> (q + [n])[i] == if i < |q| then q[i] else n;
  }

  /** Lowering a neighbour n of p to one more than p's value keeps the values
      sound: n is then within its new value of the obstacle p is within its
      value of. */
  lemma LowerSound(l: Layout, d: seq<seq<nat>>, p: Cell, n: Cell, v: nat)
    requires Sound(l, d) && Within(p, l.w, l.h) && Within(n, l.w, l.h) && Adjacent(p, n)
    requires v == Val(d, p) + 1 < Val(d, n)
    ensures Sound(l, Put(d, n.x, n.y, v))
    ensures Val(Put(d, n.x, n.y, v), p) == Val(d, p)
  {
    PutAt(d, n.x, n.y, v);
    LowerCells(l, d, p, n, v);
    var d' := Put(d, n.x, n.y, v);
    forall o | o in l.obs
      ensures Val(d', o) == 0
    {
      assert Val(d, o) == 0;
    }
  }

  lemma LowerCells(l: Layout, d: seq<seq<nat>>, p: Cell, n: Cell, v: nat)
    requires Sound(l, d) && Within(p, l.w, l.h) && Within(n, l.w, l.h) && Adjacent(p, n)
    requires v == Val(d, p) + 1 < Val(d, n)
    ensures forall c {:trigger Within(c, l.w, l.h)} :: Within(c, l.w, l.h) ==>
              Val(Put(d, n.x, n.y, v), c) <= INF &&
              (Val(Put(d, n.x, n.y, v), c) < INF ==> exists o :: o in l.obs && Manhattan(c, o) <= Val(Put(d, n.x, n.y, v), c))
  {
    var d' := Put(d, n.x, n.y, v);
    PutAt(d, n.x, n.y, v);
    assert Within(p, l.w, l.h);
    var o :| o in l.obs && Manhattan(p, o) <= Val(d, p);
    ManhattanTriangle(n, p, o);
    forall c | Within(c, l.w, l.h)
      ensures Val(d', c) <= INF && (Val(d', c) < INF ==> exists o :: o in l.obs && Manhattan(c, o) <= Val(d', c))
    {
      if c == n {
        assert o in l.obs && Manhattan(c, o) <= Val(d', c);
      } else {
        assert Val(d', c) == Val(d, c);
      }
    }
  }

  /** Lowering one cell n and queueing it keeps every cell not in the queue
      consistent: n itself is queued, and every other consistent cell stays
      consistent because lowering a neighbour cannot break it. */
  lemma LowerKeepsConsistent(d: seq<seq<nat>>, w: int, h: int, q: seq<Cell>, skip: Option<Cell>, n: Cell, v: nat)
    requires Shaped(d, w, h) && Within(n, w, h) && v <= Val(d, n)
    requires QueuedOrConsistent(d, w, h, q, skip)
    ensures QueuedOrConsistent(Put(d, n.x, n.y, v), w, h, q + [n], skip)
  {
    var d' := Put(d, n.x, n.y, v);
    PutAt(d, n.x, n.y, v);
    forall c | Within(c, w, h) && skip != Some(c)
      ensures c in q + [n] || Consistent(d', w, h, c)
    {
      if c != n && c !in q {
        assert Consistent(d, w, h, c);
        forall k | 0 <= k < 4 && Within(Step(c, k), w, h)
          ensures Val(d', Step(c, k)) <= Val(d', c) + 1
        {
          assert Val(d, Step(c, k)) <= Val(d, c) + 1;
        }
      }
    }
  }

  /** Multi-source breadth-first distance transform: obstacles start at 0 and
      are queued, walkable cells start at INF, and a dequeued cell lowers each
      in-bounds neighbour that is more than one step further. */
  method Clearance(g: EditorGrid, walkable: array2<bool>) returns (dist: array2<int>)
    requires g.cols == walkable.Length0 && g.rows == walkable.Length1
    ensures fresh(dist)
    ensures IsClearance(walkable, dist)
  {
    var W, H := g.cols, g.rows;
    ghost var L := LayoutOf(walkable);
    var q: seq<Cell>;
    ghost var D: seq<seq<nat>>;
    dist, q, D := Seed(walkable);
    while |q| > 0
      invariant dist.Length0 == W && dist.Length1 == H
      invariant Mirrors(D, dist) && Propagating(L, D, q)
      invariant QueuedOrConsistent(D, W, H, q, Null)
      decreases Total(D), |q|
    {
      var p := q[0];
      Pop(L, D, q);
      q := q[1..];
      var d := dist[p.x, p.y];
      assert d == Val(D, p);
      ghost var D0, q0 := D, q;
      DequeuePropagates(L, D0, q0, p, d);
      DequeueQueued(D0, W, H, q0, p, d);
      DequeueSettles(D0, W, H, p, d);
      DequeueTotal(D0, W, H, p, d);
      D, q := Expand(dist, p, d, D, q);
      Settled(D, W, H, q, p);
    }
    ClearanceFromConsistency(L, D);
    MirroredClearance(walkable, D, dist);
  }

  /** Taking the head p off the queue keeps the propagation facts, and every
      cell other than p that is neither queued nor consistent was already
      so before. */
  lemma Pop(l: Layout, d: seq<seq<nat>>, q: seq<Cell>)
    requires |q| > 0 && Propagating(l, d, q) && QueuedOrConsistent(d, l.w, l.h, q, Null)
    ensures Within(q[0], l.w, l.h)
    ensures Propagating(l, d, q[1..]) && QueuedOrConsistent(d, l.w, l.h, q[1..], Some(q[0]))
  {
    forall c | Within(c, l.w, l.h) && Some(q[0]) != Some(c)
      ensures c in q[1..] || Consistent(d, l.w, l.h, c)
    {
      if c in q {
        var i :| 0 <= i < |q| && q[i] == c;
        assert q[1..][i - 1] == c;
      }
    }
  }

  // The neighbour loop of a dequeued cell p with value v, on values. One
  // direction k changes the grid by RelaxStep and appends EnqueueStep to the
  // queue; Relaxed and Enqueued are the state after the first k directions.

  /** Direction k lowers its neighbour: in bounds and more than one step
      further than v. */
  ghost predicate Lowers(d: seq<seq<nat>>, w: int, h: int, p: Cell, v: nat, k: int)
    requires 0 <= k < 4
  {
    Within(Step(p, k), w, h) && Val(d, Step(p, k)) > v + 1
  }

  ghost function RelaxStep(d: seq<seq<nat>>, w: int, h: int, p: Cell, v: nat, k: int): seq<seq<nat>>
    requires 0 <= k < 4
  {
    var n := Step(p, k);
    if Lowers(d, w, h, p, v, k) then Put(d, n.x, n.y, v + 1) else d
  }

  ghost function EnqueueStep(d: seq<seq<nat>>, w: int, h: int, p: Cell, v: nat, k: int): seq<Cell>
    requires 0 <= k < 4
  {
    if Lowers(d, w, h, p, v, k) then [Step(p, k)] else []
  }

  ghost function Relaxed(d: seq<seq<nat>>, w: int, h: int, p: Cell, v: nat, k: int): seq<seq<nat>>
    requires 0 <= k <= 4
  {
    if k == 0 then d else RelaxStep(Relaxed(d, w, h, p, v, k - 1), w, h, p, v, k - 1)
  }

  ghost function Enqueued(d: seq<seq<nat>>, w: int, h: int, p: Cell, v: nat, k: int): seq<Cell>
    requires 0 <= k <= 4
  {
    if k == 0 then []
    else Enqueued(d, w, h, p, v, k - 1) + EnqueueStep(Relaxed(d, w, h, p, v, k - 1), w, h, p, v, k - 1)
  }

  /** One direction keeps the propagation facts, and p its value. */
  lemma PropagateStep(l: Layout, d: seq<seq<nat>>, q: seq<Cell>, p: Cell, v: nat, k: int)
    requires 0 <= k < 4 && Propagating(l, d, q) && Within(p, l.w, l.h) && Val(d, p) == v
    ensures Propagating(l, RelaxStep(d, l.w, l.h, p, v, k), q + EnqueueStep(d, l.w, l.h, p, v, k))
    ensures Val(RelaxStep(d, l.w, l.h, p, v, k), p) == v
  {
    if Lowers(d, l.w, l.h, p, v, k) {
      LowerPropagates(l, d, q, p, k, v + 1);
    } else {
      assert q + [] == q;
    }
  }

  /** One direction keeps every unqueued cell other than p consistent and
      keeps p's value. */
  lemma QueueStep(d: seq<seq<nat>>, w: int, h: int, q: seq<Cell>, p: Cell, v: nat, k: int)
    requires 0 <= k < 4 && Shaped(d, w, h) && QueuedOrConsistent(d, w, h, q, Some(p))
    requires Within(p, w, h) && Val(d, p) == v
    ensures Shaped(RelaxStep(d, w, h, p, v, k), w, h)
    ensures QueuedOrConsistent(RelaxStep(d, w, h, p, v, k), w, h, q + EnqueueStep(d, w, h, p, v, k), Some(p))
    ensures Val(RelaxStep(d, w, h, p, v, k), p) == v
  {
    var n := Step(p, k);
    if Lowers(d, w, h, p, v, k) {
      StepIsAdjacent(p, k);
      PutAt(d, n.x, n.y, v + 1);
      LowerKeepsConsistent(d, w, h, q, Some(p), n, v + 1);
    } else {
      assert q + [] == q;
    }
  }

  /** One direction keeps p's value, leaves direction k's neighbour at most
      v + 1 and raises no value. */
  lemma SettleStep(d: seq<seq<nat>>, w: int, h: int, p: Cell, v: nat, k: int)
    requires 0 <= k < 4 && Shaped(d, w, h) && Within(p, w, h) && Val(d, p) == v
    ensures Shaped(RelaxStep(d, w, h, p, v, k), w, h)
    ensures Val(RelaxStep(d, w, h, p, v, k), p) == v
    ensures Within(Step(p, k), w, h) ==> Val(RelaxStep(d, w, h, p, v, k), Step(p, k)) <= v + 1
    ensures forall c {:trigger Val(RelaxStep(d, w, h, p, v, k), c)} ::
              Val(RelaxStep(d, w, h, p, v, k), c) <= Val(d, c)
  {
    var n := Step(p, k);
    if Lowers(d, w, h, p, v, k) {
      StepIsAdjacent(p, k);
      PutAt(d, n.x, n.y, v + 1);
    }
  }

  /** One direction lowers the total, or changes nothing and queues nothing. */
  lemma TotalStep(d: seq<seq<nat>>, w: int, h: int, p: Cell, v: nat, k: int)
    requires 0 <= k < 4 && Shaped(d, w, h)
    ensures Total(RelaxStep(d, w, h, p, v, k)) < Total(d)
         || (RelaxStep(d, w, h, p, v, k) == d && EnqueueStep(d, w, h, p, v, k) == [])
  {
    var n := Step(p, k);
    if Lowers(d, w, h, p, v, k) {
      TotalUpdate(d, n.x, n.y, v + 1);
    }
  }

  /** The state after k + 1 directions is one step from the state after k. */
  lemma Unroll(d: seq<seq<nat>>, w: int, h: int, p: Cell, v: nat, k: int)
    requires 0 <= k < 4
    ensures Relaxed(d, w, h, p, v, k + 1) == RelaxStep(Relaxed(d, w, h, p, v, k), w, h, p, v, k)
    ensures Enqueued(d, w, h, p, v, k + 1) == Enqueued(d, w, h, p, v, k) + EnqueueStep(Relaxed(d, w, h, p, v, k), w, h, p, v, k)
  {
  }

  /** Expanding a dequeued cell p of value v keeps the propagation facts. */
  lemma DequeuePropagates(l: Layout, d0: seq<seq<nat>>, q0: seq<Cell>, p: Cell, v: nat)
    requires Propagating(l, d0, q0) && Within(p, l.w, l.h) && Val(d0, p) == v
    ensures Propagating(l, Relaxed(d0, l.w, l.h, p, v, 4), q0 + Enqueued(d0, l.w, l.h, p, v, 4))
  {
    var d, q := d0, q0;
    assert q0 + [] == q0;
    for k := 0 to 4
      invariant d == Relaxed(d0, l.w, l.h, p, v, k) && q == q0 + Enqueued(d0, l.w, l.h, p, v, k)
      invariant Propagating(l, d, q) && Val(d, p) == v
    {
      PropagateStep(l, d, q, p, v, k);
      Unroll(d0, l.w, l.h, p, v, k);
      var e := EnqueueStep(d, l.w, l.h, p, v, k);
      assert q + e == q0 + (Enqueued(d0, l.w, l.h, p, v, k) + e);
      d, q := RelaxStep(d, l.w, l.h, p, v, k), q + e;
    }
  }

  /** Expanding a dequeued cell p of value v keeps every unqueued cell other
      than p consistent. */
  lemma DequeueQueued(d0: seq<seq<nat>>, w: int, h: int, q0: seq<Cell>, p: Cell, v: nat)
    requires Shaped(d0, w, h) && QueuedOrConsistent(d0, w, h, q0, Some(p))
    requires Within(p, w, h) && Val(d0, p) == v
    ensures QueuedOrConsistent(Relaxed(d0, w, h, p, v, 4), w, h, q0 + Enqueued(d0, w, h, p, v, 4), Some(p))
  {
    var d, q := d0, q0;
    assert q0 + [] == q0;
    for k := 0 to 4
      invariant d == Relaxed(d0, w, h, p, v, k) && q == q0 + Enqueued(d0, w, h, p, v, k)
      invariant Shaped(d, w, h) && QueuedOrConsistent(d, w, h, q, Some(p)) && Val(d, p) == v
    {
      QueueStep(d, w, h, q, p, v, k);
      Unroll(d0, w, h, p, v, k);
      var e := EnqueueStep(d, w, h, p, v, k);
      assert q + e == q0 + (Enqueued(d0, w, h, p, v, k) + e);
      d, q := RelaxStep(d, w, h, p, v, k), q + e;
    }
  }

  /** After its expansion a dequeued cell is consistent. */
  lemma DequeueSettles(d0: seq<seq<nat>>, w: int, h: int, p: Cell, v: nat)
    requires Shaped(d0, w, h) && Within(p, w, h) && Val(d0, p) == v
    ensures Consistent(Relaxed(d0, w, h, p, v, 4), w, h, p)
  {
    var d := d0;
    for k := 0 to 4
      invariant d == Relaxed(d0, w, h, p, v, k) && Shaped(d, w, h) && Val(d, p) == v
      invariant forall j :: 0 <= j < k && Within(Step(p, j), w, h) ==> Val(d, Step(p, j)) <= v + 1
    {
      SettleStep(d, w, h, p, v, k);
      Unroll(d0, w, h, p, v, k);
      d := RelaxStep(d, w, h, p, v, k);
    }
  }

  /** A consistent p need not be excepted. */
  lemma Settled(d: seq<seq<nat>>, w: int, h: int, q: seq<Cell>, p: Cell)
    requires QueuedOrConsistent(d, w, h, q, Some(p)) && Consistent(d, w, h, p)
    ensures QueuedOrConsistent(d, w, h, q, Null)
  {
  }

  /** Expanding a dequeued cell lowers the total, or changes nothing and
      queues nothing. */
  lemma DequeueTotal(d0: seq<seq<nat>>, w: int, h: int, p: Cell, v: nat)
    requires Shaped(d0, w, h)
    ensures Total(Relaxed(d0, w, h, p, v, 4)) < Total(d0)
         || (Relaxed(d0, w, h, p, v, 4) == d0 && Enqueued(d0, w, h, p, v, 4) == [])
  {
    var d := d0;
    for k := 0 to 4
      invariant d == Relaxed(d0, w, h, p, v, k) && Shaped(d, w, h)
      invariant Total(d) < Total(d0) || (d == d0 && Enqueued(d0, w, h, p, v, k) == [])
    {
      TotalStep(d, w, h, p, v, k);
      Unroll(d0, w, h, p, v, k);
      d := RelaxStep(d, w, h, p, v, k);
    }
  }

  /** The neighbour loop for a dequeued cell p of value d: each in-bounds
      4-neighbour more than one step further is lowered to d + 1 and queued. */
  method Expand(dist: array2<int>, p: Cell, d: nat, ghost D0: seq<seq<nat>>, q0: seq<Cell>)
    returns (ghost D: seq<seq<nat>>, q: seq<Cell>)
    requires Mirrors(D0, dist)
    modifies dist
    ensures Mirrors(D, dist)
    ensures D == Relaxed(D0, dist.Length0, dist.Length1, p, d, 4)
    ensures q == q0 + Enqueued(D0, dist.Length0, dist.Length1, p, d, 4)
  {
    var W, H := dist.Length0, dist.Length1;
    D, q := D0, q0;
    for k := 0 to 4
      invariant Mirrors(D, dist)
      invariant D == Relaxed(D0, W, H, p, d, k)
      invariant q == q0 + Enqueued(D0, W, H, p, d, k)
    {
      var n := Step(p, k);
      if 0 <= n.x < W && 0 <= n.y < H && dist[n.x, n.y] > d + 1 {
        assert Lowers(D, W, H, p, d, k);
        Store(dist, D, n.x, n.y, d + 1);
        D, q := Put(D, n.x, n.y, d + 1), q + [n];
        assert q == q0 + (Enqueued(D0, W, H, p, d, k) + [n]);
      } else {
        assert !Lowers(D, W, H, p, d, k);
      }
    }
  }

  lemma StepsDistinct(c: Cell, j: int, k: int)
    requires 0 <= j < 4 && 0 <= k < 4 && j != k
    ensures Step(c, j) != Step(c, k)
  {
  }

  /** Writes v at [x, y], which the ghost copy then reflects. */
  method Store(dist: array2<int>, ghost d: seq<seq<nat>>, x: int, y: int, v: nat)
    requires Mirrors(d, dist) && 0 <= x < dist.Length0 && 0 <= y < dist.Length1
    modifies dist
    ensures Mirrors(Put(d, x, y, v), dist)
  {
    dist[x, y] := v;
  }

  /** The initial pass, in x-major order: obstacles get 0 and are queued,
      walkable cells get INF. */
  method Seed(walkable: array2<bool>)
    returns (dist: array2<int>, q: seq<Cell>, ghost D: seq<seq<nat>>)
    ensures fresh(dist)
    ensures dist.Length0 == walkable.Length0 && dist.Length1 == walkable.Length1
    ensures Mirrors(D, dist) && Propagating(LayoutOf(walkable), D, q)
    ensures QueuedOrConsistent(D, walkable.Length0, walkable.Length1, q, Null)
  {
    var W, H := walkable.Length0, walkable.Length1;
    dist := new int[W, H];
    q := [];
    D := [];
    for x := 0 to W
      invariant |D| == x && forall i :: 0 <= i < x ==> |D[i]| == H
      invariant forall i, j :: 0 <= i < x && 0 <= j < H ==>
                  D[i][j] == dist[i, j] == (if walkable[i, j] then INF else 0)
      invariant forall c :: c in q ==> Within(c, W, H)
      invariant forall c :: Obstacle(walkable, c) && c.x < x ==> c in q
    {
      ghost var col: seq<nat> := [];
      for y := 0 to H
        invariant |col| == y
        invariant forall i, j :: 0 <= i < x && 0 <= j < H ==>
                    D[i][j] == dist[i, j] == (if walkable[i, j] then INF else 0)
        invariant forall j :: 0 <= j < y ==> col[j] == dist[x, j] == (if walkable[x, j] then INF else 0)
        invariant forall c :: c in q ==> Within(c, W, H)
        invariant forall c :: Obstacle(walkable, c) && (c.x < x || (c.x == x && c.y < y)) ==> c in q
      {
        if walkable[x, y] {
          dist[x, y] := INF;
        } else {
          dist[x, y] := 0;
          q := q + [Cell(x, y)];
        }
        col := col + [dist[x, y]];
      }
      D := D + [col];
    }
    SeedFacts(walkable, D, q);
  }

  /** The seeded values meet the propagation facts (an obstacle is its own
      witness), and every walkable cell (at INF) is consistent; obstacle
      cells are all queued. */
  lemma SeedFacts(walkable: array2<bool>, D: seq<seq<nat>>, q: seq<Cell>)
    requires Shaped(D, walkable.Length0, walkable.Length1)
    requires forall i, j :: 0 <= i < walkable.Length0 && 0 <= j < walkable.Length1 ==>
               D[i][j] == (if walkable[i, j] then INF else 0)
    requires forall c :: c in q ==> Within(c, walkable.Length0, walkable.Length1)
    requires forall c :: Obstacle(walkable, c) ==> c in q
    ensures Propagating(LayoutOf(walkable), D, q)
    ensures QueuedOrConsistent(D, walkable.Length0, walkable.Length1, q, Null)
  {
    var W, H := walkable.Length0, walkable.Length1;
    var l := LayoutOf(walkable);
    forall c | Within(c, W, H)
      ensures c in q || Consistent(D, W, H, c)
    {
      if walkable[c.x, c.y] {
        assert Val(D, c) == INF;
      }
    }
    forall c | Within(c, l.w, l.h)
      ensures Val(D, c) <= INF && (Val(D, c) < INF ==> exists o :: o in l.obs && Manhattan(c, o) <= Val(D, c))
    {
      if Val(D, c) < INF {
        assert c in l.obs && Manhattan(c, c) <= Val(D, c);
      }
    }
  }

  /** With every cell consistent, a cell is at most its Manhattan distance
      further than any other cell. */
  lemma {:induction false} ConsistentBound(d: seq<seq<nat>>, w: int, h: int, c: Cell, o: Cell)
    requires Shaped(d, w, h)
    requires forall a :: Within(a, w, h) ==> Consistent(d, w, h, a)
    requires Within(c, w, h) && Within(o, w, h)
    ensures Val(d, c) <= Val(d, o) + Manhattan(c, o)
    decreases Manhattan(c, o)
  {
    if c != o {
      var c', k;
      if c.x < o.x { c', k := Cell(c.x + 1, c.y), 1; }
      else if c.x > o.x { c', k := Cell(c.x - 1, c.y), 0; }
      else if c.y < o.y { c', k := Cell(c.x, c.y + 1), 3; }
      else { c', k := Cell(c.x, c.y - 1), 2; }
      assert Step(c', k) == c;
      assert Consistent(d, w, h, c');
      ConsistentBound(d, w, h, c', o);
    }
  }

  /** The value-level statement of IsClearance. */
  ghost predicate IsClearanceOf(l: Layout, d: seq<seq<nat>>)
  {
    && Shaped(d, l.w, l.h)
    && (forall c :: Within(c, l.w, l.h) ==> Val(d, c) <= INF)
    && (forall c, o :: Within(c, l.w, l.h) && o in l.obs ==> Val(d, c) <= Manhattan(c, o))
    && (forall c :: Within(c, l.w, l.h) ==>
          Val(d, c) == INF || exists o :: o in l.obs && Val(d, c) == Manhattan(c, o))
  }

  lemma ClearanceFromConsistency(l: Layout, d: seq<seq<nat>>)
    requires Propagating(l, d, [])
    requires QueuedOrConsistent(d, l.w, l.h, [], Null)
    ensures IsClearanceOf(l, d)
  {
    forall a | Within(a, l.w, l.h)
      ensures Consistent(d, l.w, l.h, a)
    {
      assert a !in [];
    }
    forall c, o | Within(c, l.w, l.h) && o in l.obs
      ensures Val(d, c) <= Manhattan(c, o)
    {
      ConsistentBound(d, l.w, l.h, c, o);
    }
    forall c | Within(c, l.w, l.h)
      ensures Val(d, c) == INF || exists o :: o in l.obs && Val(d, c) == Manhattan(c, o)
    {
      if Val(d, c) < INF {
        var o :| o in l.obs && Manhattan(c, o) <= Val(d, c);
        ConsistentBound(d, l.w, l.h, c, o);
        assert o in l.obs && Val(d, c) == Manhattan(c, o);
      }
    }
  }

  lemma MirroredClearance(wk: array2<bool>, d: seq<seq<nat>>, dist: array2<int>)
    requires dist.Length0 == wk.Length0 && dist.Length1 == wk.Length1
    requires IsClearanceOf(LayoutOf(wk), d) && Mirrors(d, dist)
    ensures IsClearance(wk, dist)
  {
    var l := LayoutOf(wk);
    assert forall c :: Within(c, wk.Length0, wk.Length1) ==> At(dist, c) == Val(d, c);
    forall c | Within(c, wk.Length0, wk.Length1) && At(dist, c) < INF
      ensures exists o :: Obstacle(wk, o) && At(dist, c) == Manhattan(c, o)
    {
      var o :| o in l.obs && Val(d, c) == Manhattan(c, o);
      assert Obstacle(wk, o);
    }
  }

  /** A non-walkable cell has clearance 0. */
  lemma ClearanceOfObstacle(wk: array2<bool>, dist: array2<int>, o: Cell)
    requires IsClearance(wk, dist) && Obstacle(wk, o)
    ensures At(dist, o) == 0
  {
    assert At(dist, o) <= Manhattan(o, o);
  }

  /** With no obstacle at all, every cell keeps INF. */
  lemma ClearanceWithoutObstacles(wk: array2<bool>, dist: array2<int>, c: Cell)
    requires IsClearance(wk, dist) && Within(c, wk.Length0, wk.Length1)
    requires forall o :: !Obstacle(wk, o)
    ensures At(dist, c) == INF
  {
  }

  /** Finite clearances of 4-neighbours differ by at most one. */
  lemma ClearanceNeighbours(wk: array2<bool>, dist: array2<int>, a: Cell, b: Cell)
    requires IsClearance(wk, dist)
    requires Within(a, wk.Length0, wk.Length1) && Within(b, wk.Length0, wk.Length1) && Adjacent(a, b)
    requires At(dist, a) < INF && At(dist, b) < INF
    ensures At(dist, a) <= At(dist, b) + 1 && At(dist, b) <= At(dist, a) + 1
  {
    var oa :| Obstacle(wk, oa) && At(dist, a) == Manhattan(a, oa);
    var ob :| Obstacle(wk, ob) && At(dist, b) == Manhattan(b, ob);
    ManhattanTriangle(b, a, oa);
    ManhattanTriangle(a, b, ob);
  }

  /** The clearance transform is determined by the mask. */
  lemma ClearanceUnique(wk: array2<bool>, d1: array2<int>, d2: array2<int>, c: Cell)
    requires IsClearance(wk, d1) && IsClearance(wk, d2) && Within(c, wk.Length0, wk.Length1)
    ensures At(d1, c) == At(d2, c)
  {
    if At(d1, c) < INF {
      var o :| Obstacle(wk, o) && At(d1, c) == Manhattan(c, o);
      assert At(d2, c) <= At(d1, c);
    }
    if At(d2, c) < INF {
      var o :| Obstacle(wk, o) && At(d2, c) == Manhattan(c, o);
      assert At(d1, c) <= At(d2, c);
    }
  }
}
