module PathSearch {
  import opened Common
  import opened Pathfinding

  // ---------------------------------------------------------------------
  // A*

  /** Pathfinding.Heu: the Manhattan distance from (x1, y1) to (x2, y2). */
  function Heu(x1: int, y1: int, x2: int, y2: int): (h: nat)
    ensures h == 0 <==> x1 == x2 && y1 == y2
    ensures h >= Abs(x1 - x2) && h >= Abs(y1 - y2)
  {
    Abs(x1 - x2) + Abs(y1 - y2)
  }

  /** The heuristic never overestimates by more than a step between
      neighbours (it is consistent) and is 0 at the goal. */
  lemma HeuConsistent(a: Cell, b: Cell, t: Cell)
    requires Adjacent(a, b)
    ensures Heu(a.x, a.y, t.x, t.y) <= 1 + Heu(b.x, b.y, t.x, t.y)
    ensures Heu(t.x, t.y, t.x, t.y) == 0
  {
    ManhattanTriangle(a, b, t);
  }

  /** A search node: its cell, cost so far g, estimate h and parent cell,
      (-1, -1) for the start. g and h are whole numbers of steps. */
  datatype Node = Node(x: int, y: int, g: nat, h: nat, px: int, py: int)

  function F(n: Node): int
  {
    n.g + n.h
  }

  /** The order of the open set's (f, id) entries: by f, ties by id. */
  predicate Less(a: (int, int), b: (int, int))
  {
    a.0 < b.0 || (a.0 == b.0 && a.1 < b.1)
  }

  /** The open set as the ascending list of its entries (a SortedSet). */
  predicate Sorted(s: seq<(int, int)>)
  {
    forall i, j :: 0 <= i < j < |s| ==> Less(s[i], s[j])
  }

  /** SortedSet.Add: e takes its place in order; an entry already there is
      kept once. */
  function Insert(s: seq<(int, int)>, e: (int, int)): (r: seq<(int, int)>)
    ensures Sorted(s) ==> Sorted(r)
    ensures forall x :: x in r <==> x in s || x == e
  {
    if s == [] then [e]
    else if Less(e, s[0]) then [e] + s
    else if e == s[0] then s
    else
      var r := Insert(s[1..], e);
      assert Sorted(s) ==> forall x :: x in r ==> Less(s[0], x);
      [s[0]] + r
  }

  /** SortedSet.RemoveWhere(t => t.id == id). */
  function RemoveId(s: seq<(int, int)>, id: int): (r: seq<(int, int)>)
    ensures Sorted(s) ==> Sorted(r)
    ensures forall x :: x in r <==> x in s && x.1 != id
  {
    if s == [] then []
    else
      var r := RemoveId(s[1..], id);
      assert Sorted(s) ==> forall x :: x in r ==> Less(s[0], x);
      if s[0].1 == id then r else [s[0]] + r
  }

  /** SortedSet.Min is the first entry, and removing it leaves the rest in
      order. */
  lemma PopMin(s: seq<(int, int)>)
    requires Sorted(s) && |s| > 0
    ensures Sorted(s[1..])
    ensures forall x :: x in s[1..] <==> x in s && x != s[0]
    ensures forall x :: x in s && x != s[0] ==> Less(s[0], x)
  {
  }

  /** P holds exactly the in-bounds cells the mask marks walkable. */
  ghost predicate Mask(wk: array2<bool>, P: set<Cell>)
    reads wk
  {
    && (forall x, y :: 0 <= x < wk.Length0 && 0 <= y < wk.Length1 ==> (wk[x, y] <==> Cell(x, y) in P))
    && (forall c :: c in P ==> Within(c, wk.Length0, wk.Length1))
  }

  /** The in-bounds walkable cells of a mask. */
  ghost function PassSet(wk: array2<bool>): set<Cell>
    reads wk
  {
    set x, y | 0 <= x < wk.Length0 && 0 <= y < wk.Length1 && wk[x, y] :: Cell(x, y)
  }

  lemma PassSetMask(wk: array2<bool>)
    ensures Mask(wk, PassSet(wk))
  {
    forall c | c in PassSet(wk)
      ensures Within(c, wk.Length0, wk.Length1)
    {
    }
  }

  /** The walkable cells are the in-bounds cells the mask marks passable. */
  lemma PassSetPassable(wk: array2<bool>)
    ensures forall c :: c in PassSet(wk) <==> Passable(wk, c)
  {
    PassSetMask(wk);
    forall c | Passable(wk, c)
      ensures c in PassSet(wk)
    {
      assert c == Cell(c.x, c.y);
    }
  }

  /** The cells of a w x h grid. */
  ghost function Cells(w: int, h: int): set<Cell>
  {
    set x, y | 0 <= x < w && 0 <= y < h :: Cell(x, y)
  }

  /** A walk: every cell after the first is a walkable 4-neighbour of the
      one before it. The first cell is not checked. */
  predicate IsWalk(P: set<Cell>, w: seq<Cell>)
  {
    |w| >= 1 && forall i :: 1 <= i < |w| ==> Adjacent(w[i - 1], w[i]) && w[i] in P
  }

  predicate WalkBetween(P: set<Cell>, w: seq<Cell>, a: Cell, b: Cell)
  {
    IsWalk(P, w) && w[0] == a && w[|w| - 1] == b
  }

  ghost predicate Reachable(P: set<Cell>, a: Cell, b: Cell)
  {
    exists w :: WalkBetween(P, w, a, b)
  }

  /** No walk from s to c takes fewer than g steps (has fewer than g + 1 cells). */
  ghost predicate Optimal(P: set<Cell>, s: Cell, c: Cell, g: int)
  {
    forall w :: WalkBetween(P, w, s, c) ==> g < |w|
  }

  /** A walk's ends are no further apart than its number of steps. */
  lemma {:induction false} WalkSpan(P: set<Cell>, w: seq<Cell>, i: int, j: int)
    requires IsWalk(P, w) && 0 <= i <= j < |w|
    ensures Manhattan(w[i], w[j]) <= j - i
    decreases j - i
  {
    if i < j {
      WalkSpan(P, w, i, j - 1);
      ManhattanTriangle(w[i], w[j - 1], w[j]);
    }
  }

  /** The first cell of a walk outside a set the walk ends outside of. */
  lemma FirstOutside(w: seq<Cell>, C: set<Cell>) returns (i: int)
    requires |w| >= 1 && w[|w| - 1] !in C
    ensures 0 <= i < |w| && w[i] !in C
    ensures forall j :: 0 <= j < i ==> w[j] in C
  {
    i := 0;
    while w[i] in C
      invariant 0 <= i < |w|
      invariant forall j :: 0 <= j < i ==> w[j] in C
      decreases |w| - i
    {
      i := i + 1;
    }
  }

  // The search state: nodes (id -> node), idmap (cell -> id), the open set
  // of (f, id) entries, inOpen (its cells) and the closed cells. The proof
  // follows K, the node currently held for each known cell, and Cl, the
  // closed cells.

  /** idmap names, for each known cell, the id whose node is K's. */
  ghost predicate Indexed(nodes: map<int, Node>, idmap: map<Cell, int>, K: map<Cell, Node>)
  {
    forall c :: c in K ==> c in idmap && idmap[c] >= 1 && idmap[c] in nodes && nodes[idmap[c]] == K[c]
                           && K[c].x == c.x && K[c].y == c.y
  }

  /** The dictionaries and the open set agree with K. */
  ghost predicate Linked(nodes: map<int, Node>, idmap: map<Cell, int>, open: seq<(int, int)>,
                         inOpen: set<Cell>, nextId: int, K: map<Cell, Node>)
  {
    && nextId >= 1
    && (forall c :: c in idmap <==> c in K)
    && Indexed(nodes, idmap, K)
    && (forall id :: id in nodes ==> 1 <= id < nextId && Cell(nodes[id].x, nodes[id].y) in idmap
                                     && idmap[Cell(nodes[id].x, nodes[id].y)] == id)
    && Sorted(open)
    && (forall e :: e in open ==> e.1 in nodes && e.0 == F(nodes[e.1]))
    && (forall c :: c in inOpen <==> c in K && (F(K[c]), idmap[c]) in open)
  }

  /** Every known cell's estimate is its Manhattan distance to t. */
  ghost predicate Estimates(t: Cell, K: map<Cell, Node>)
  {
    forall c :: c in K ==> K[c].h == Heu(c.x, c.y, t.x, t.y)
  }

  /** Where the node of a known cell came from: the start has no parent;
      any other cell is a walkable 4-neighbour of its closed parent and
      costs one step more. */
  ghost predicate Chained(P: set<Cell>, s: Cell, K: map<Cell, Node>, Cl: set<Cell>, c: Cell)
    requires c in K
  {
    if K[c].px < 0 then c == s
    else
      var p := Cell(K[c].px, K[c].py);
      p in Cl && p in K && Adjacent(p, c) && c in P && K[c].g == K[p].g + 1
  }

  ghost predicate Parents(P: set<Cell>, s: Cell, K: map<Cell, Node>, Cl: set<Cell>)
  {
    forall c {:trigger Chained(P, s, K, Cl, c)} :: c in K ==> Chained(P, s, K, Cl, c)
  }

  /** The known cells are the open and the closed ones. */
  ghost predicate Covered(K: map<Cell, Node>, inOpen: set<Cell>, Cl: set<Cell>)
  {
    (forall c :: c in K <==> c in inOpen || c in Cl) && inOpen !! Cl
  }

  /** The start is known, parentless and at cost 0; the goal is never closed. */
  ghost predicate Known(P: set<Cell>, s: Cell, t: Cell, K: map<Cell, Node>, inOpen: set<Cell>, Cl: set<Cell>)
  {
    && Covered(K, inOpen, Cl)
    && s in K && K[s].px < 0 && K[s].g == 0
    && t !in Cl
    && Estimates(t, K)
    && Parents(P, s, K, Cl)
  }

  /** Closed cells hold their shortest cost. */
  ghost predicate ClosedOptimal(P: set<Cell>, s: Cell, K: map<Cell, Node>, Cl: set<Cell>)
  {
    forall c :: c in Cl ==> c in K && Optimal(P, s, c, K[c].g)
  }

  /** Every walkable neighbour of a cell of C0 that is not closed is open,
      at most one step costlier. */
  ghost predicate Frontier(P: set<Cell>, K: map<Cell, Node>, inOpen: set<Cell>, C0: set<Cell>, Cl: set<Cell>)
  {
    forall c, k :: c in C0 && 0 <= k < 4 && Step(c, k) in P && Step(c, k) !in Cl ==>
      c in K && Step(c, k) in inOpen && Step(c, k) in K && K[Step(c, k)].g <= K[c].g + 1
  }

  /** The first open entry names an open cell whose f is least. Removing it
      keeps the bookkeeping in step. */
  lemma PopFirst(nodes: map<int, Node>, idmap: map<Cell, int>, open: seq<(int, int)>,
                 inOpen: set<Cell>, nextId: int, K: map<Cell, Node>, u: Cell)
    requires Linked(nodes, idmap, open, inOpen, nextId, K) && |open| > 0
    requires open[0].1 in nodes && u == Cell(nodes[open[0].1].x, nodes[open[0].1].y)
    ensures u in inOpen && u in K && K[u] == nodes[open[0].1] && idmap[u] == open[0].1
    ensures forall v :: v in inOpen ==> v in K && F(K[u]) <= F(K[v])
    ensures Linked(nodes, idmap, open[1..], inOpen - {u}, nextId, K)
  {
    PopMin(open);
    var id := open[0].1;
    assert u in idmap && idmap[u] == id;
    assert u in K && K[u] == nodes[id];
    assert (F(K[u]), idmap[u]) == open[0];
    forall c | c in inOpen - {u}
      ensures (F(K[c]), idmap[c]) in open[1..]
    {
      assert idmap[c] != idmap[u];
    }
  }

  /** On a walk from the start, the first cell that is not closed is open
      and costs no more than its position on the walk. */
  lemma OpenOnWalk(P: set<Cell>, s: Cell, K: map<Cell, Node>, inOpen: set<Cell>, Cl: set<Cell>,
                   w: seq<Cell>, i: int)
    requires s in K && K[s].g == 0 && (s in Cl || s in inOpen)
    requires ClosedOptimal(P, s, K, Cl) && Frontier(P, K, inOpen, Cl, Cl)
    requires IsWalk(P, w) && w[0] == s && 0 <= i < |w| && w[i] !in Cl
    requires forall j :: 0 <= j < i ==> w[j] in Cl
    ensures w[i] in inOpen && w[i] in K && K[w[i]].g <= i
  {
    if i > 0 {
      var p := w[i - 1];
      assert WalkBetween(P, w[..i], s, p);
      var k := AdjacentIsStep(p, w[i]);
    }
  }

  /** Optimality at the pop: with a consistent heuristic, the least open
      cell already holds its shortest cost. */
  lemma PopOptimal(P: set<Cell>, s: Cell, t: Cell, K: map<Cell, Node>, inOpen: set<Cell>, Cl: set<Cell>, u: Cell)
    requires s in K && K[s].g == 0 && (s in Cl || s in inOpen) && Estimates(t, K)
    requires ClosedOptimal(P, s, K, Cl) && Frontier(P, K, inOpen, Cl, Cl)
    requires u in inOpen && u in K && u !in Cl
    requires forall v :: v in inOpen ==> v in K && F(K[u]) <= F(K[v])
    ensures Optimal(P, s, u, K[u].g)
  {
    forall w | WalkBetween(P, w, s, u)
      ensures K[u].g < |w|
    {
      var i := FirstOutside(w, Cl);
      OpenOnWalk(P, s, K, inOpen, Cl, w, i);
      var v := w[i];
      WalkSpan(P, w, i, |w| - 1);
      ManhattanTriangle(v, u, t);
    }
  }

  /** A new node for an unknown cell. */
  lemma LinkNew(nodes: map<int, Node>, idmap: map<Cell, int>, open: seq<(int, int)>,
                inOpen: set<Cell>, nextId: int, K: map<Cell, Node>, c: Cell, nd: Node)
    requires Linked(nodes, idmap, open, inOpen, nextId, K)
    requires c !in K && nd.x == c.x && nd.y == c.y
    ensures Linked(nodes[nextId := nd], idmap[c := nextId], Insert(open, (F(nd), nextId)),
                   inOpen + {c}, nextId + 1, K[c := nd])
  {
    var nodes', idmap', open', K' := nodes[nextId := nd], idmap[c := nextId], Insert(open, (F(nd), nextId)), K[c := nd];
    assert nextId !in nodes;
    forall id | id in nodes'
      ensures 1 <= id < nextId + 1 && Cell(nodes'[id].x, nodes'[id].y) in idmap'
              && idmap'[Cell(nodes'[id].x, nodes'[id].y)] == id
    {
      if id != nextId {
        assert Cell(nodes[id].x, nodes[id].y) != c;
      }
    }
    forall c' | c' in K'
      ensures c' in inOpen + {c} <==> (F(K'[c']), idmap'[c']) in open'
    {
      if c' != c {
        assert idmap'[c'] == idmap[c'] != nextId;
      }
    }
  }

  /** A cheaper node for an open cell, under the same id. */
  lemma LinkUpdate(nodes: map<int, Node>, idmap: map<Cell, int>, open: seq<(int, int)>,
                   inOpen: set<Cell>, nextId: int, K: map<Cell, Node>, c: Cell, nd: Node)
    requires Linked(nodes, idmap, open, inOpen, nextId, K)
    requires c in inOpen && nd.x == c.x && nd.y == c.y
    ensures Linked(nodes[idmap[c] := nd], idmap, Insert(RemoveId(open, idmap[c]), (F(nd), idmap[c])),
                   inOpen, nextId, K[c := nd])
  {
  }

  /** A new node reached from the closed cell u keeps the search's facts. */
  lemma KnownNew(P: set<Cell>, s: Cell, t: Cell, K: map<Cell, Node>, inOpen: set<Cell>, Cl: set<Cell>,
                 u: Cell, c: Cell, nd: Node)
    requires Known(P, s, t, K, inOpen, Cl)
    requires u in Cl && u in K && u.x >= 0 && s in Cl && c !in K && c in P && Adjacent(u, c)
    requires nd == Node(c.x, c.y, K[u].g + 1, Heu(c.x, c.y, t.x, t.y), u.x, u.y)
    ensures Known(P, s, t, K[c := nd], inOpen + {c}, Cl)
  {
    var K' := K[c := nd];
    forall c' | c' in K'
      ensures Chained(P, s, K', Cl, c')
    {
      if c' != c {
        assert Chained(P, s, K, Cl, c');
      }
    }
  }

  /** A cheaper node for an open cell, reached from the closed cell u. */
  lemma KnownUpdate(P: set<Cell>, s: Cell, t: Cell, K: map<Cell, Node>, inOpen: set<Cell>, Cl: set<Cell>,
                    u: Cell, c: Cell, nd: Node)
    requires Known(P, s, t, K, inOpen, Cl)
    requires u in Cl && u in K && u.x >= 0 && s in Cl && c in inOpen && c in P && Adjacent(u, c)
    requires nd == Node(c.x, c.y, K[u].g + 1, K[c].h, u.x, u.y)
    ensures Known(P, s, t, K[c := nd], inOpen, Cl)
  {
    var K' := K[c := nd];
    forall c' | c' in K'
      ensures Chained(P, s, K', Cl, c')
    {
      if c' != c {
        assert Chained(P, s, K, Cl, c');
      }
    }
  }

  /** Closing the popped cell u, which is not the goal. */
  lemma KnownClose(P: set<Cell>, s: Cell, t: Cell, K: map<Cell, Node>, inOpen: set<Cell>, Cl: set<Cell>, u: Cell)
    requires Known(P, s, t, K, inOpen, Cl) && u in inOpen && u != t
    ensures Known(P, s, t, K, inOpen - {u}, Cl + {u})
  {
    forall c | c in K
      ensures Chained(P, s, K, Cl + {u}, c)
    {
      assert Chained(P, s, K, Cl, c);
    }
  }

  /** Popping u from the open set and closing it keeps the frontier of the
      cells closed before. */
  lemma FrontierPop(P: set<Cell>, K: map<Cell, Node>, inOpen: set<Cell>, Cl: set<Cell>, u: Cell)
    requires Frontier(P, K, inOpen, Cl, Cl)
    ensures Frontier(P, K, inOpen - {u}, Cl, Cl + {u})
  {
  }

  /** The frontier survives new open cells and cheaper nodes, as long as
      the nodes of C0 stay. */
  lemma FrontierGrows(P: set<Cell>, K: map<Cell, Node>, inOpen: set<Cell>, K': map<Cell, Node>, inOpen': set<Cell>,
                      C0: set<Cell>, Cl: set<Cell>)
    requires Frontier(P, K, inOpen, C0, Cl)
    requires forall c :: c in K ==> c in K' && K'[c].g <= K[c].g
    requires forall c :: c in C0 && c in K ==> K'[c] == K[c]
    requires inOpen <= inOpen'
    ensures Frontier(P, K', inOpen', C0, Cl)
  {
  }

  lemma FrontierJoin(P: set<Cell>, K: map<Cell, Node>, inOpen: set<Cell>, C0: set<Cell>, u: Cell, Cl: set<Cell>)
    requires Frontier(P, K, inOpen, C0, Cl) && Frontier(P, K, inOpen, {u}, Cl)
    ensures Frontier(P, K, inOpen, C0 + {u}, Cl)
  {
  }

  /** Closed costs stay shortest while the closed cells' nodes stay. */
  lemma ClosedOptimalKeep(P: set<Cell>, s: Cell, K: map<Cell, Node>, K': map<Cell, Node>, Cl: set<Cell>)
    requires ClosedOptimal(P, s, K, Cl)
    requires forall c :: c in Cl ==> c in K' && c in K && K'[c] == K[c]
    ensures ClosedOptimal(P, s, K', Cl)
  {
  }

  /** With nothing open, a walk that starts closed stays closed. */
  lemma {:induction false} WalkStaysIn(P: set<Cell>, K: map<Cell, Node>, Cl: set<Cell>, w: seq<Cell>)
    requires Frontier(P, K, {}, Cl, Cl) && IsWalk(P, w) && w[0] in Cl
    ensures w[|w| - 1] in Cl
    decreases |w|
  {
    if |w| > 1 {
      var w' := w[..|w| - 1];
      assert IsWalk(P, w');
      WalkStaysIn(P, K, Cl, w');
      var k := AdjacentIsStep(w[|w| - 2], w[|w| - 1]);
    }
  }

  /** An exhausted search closed everything reachable, so a goal it did
      not close is unreachable. */
  lemma Exhausted(P: set<Cell>, s: Cell, t: Cell, K: map<Cell, Node>, Cl: set<Cell>)
    requires s in Cl && t !in Cl && Frontier(P, K, {}, Cl, Cl)
    ensures !Reachable(P, s, t)
  {
    forall w | WalkBetween(P, w, s, t)
      ensures false
    {
      WalkStaysIn(P, K, Cl, w);
    }
  }

  /** List.Reverse. */
  function Reverse(s: seq<Cell>): (r: seq<Cell>)
    ensures |r| == |s| && forall i :: 0 <= i < |s| ==> r[i] == s[|s| - 1 - i]
  {
    seq(|s|, i requires 0 <= i < |s| => s[|s| - 1 - i])
  }

  /** Reversing twice gives back the list. */
  lemma ReverseTwice(s: seq<Cell>)
    ensures Reverse(Reverse(s)) == s
  {
  }

  /** Cells listed from the end of a walk back to its first cell: each
      is a walkable 4-neighbour of the one listed after it. */
  ghost predicate BackChain(P: set<Cell>, rev: seq<Cell>)
  {
    forall i :: 0 <= i < |rev| - 1 ==> Adjacent(rev[i + 1], rev[i]) && rev[i] in P
  }

  lemma BackWalk(P: set<Cell>, rev: seq<Cell>, s: Cell, u: Cell)
    requires |rev| >= 1 && rev[0] == u && rev[|rev| - 1] == s && BackChain(P, rev)
    ensures WalkBetween(P, Reverse(rev), s, u)
  {
    var path := Reverse(rev);
    forall i | 1 <= i < |path|
      ensures Adjacent(path[i - 1], path[i]) && path[i] in P
    {
      var j := |rev| - 1 - i;
      assert path[i - 1] == rev[j + 1] && path[i] == rev[j];
    }
  }

  /** The cells collected so far walk back from u to c's successor. */
  ghost predicate Trail(P: set<Cell>, rev: seq<Cell>, u: Cell, c: Cell)
  {
    && (rev == [] ==> c == u)
    && (rev != [] ==> rev[0] == u && Adjacent(c, rev[|rev| - 1]) && rev[|rev| - 1] in P)
    && BackChain(P, rev)
  }

  /** Collecting c, which has a parent, extends the trail to the parent. */
  lemma TrailStep(P: set<Cell>, s: Cell, K: map<Cell, Node>, Cl: set<Cell>, rev: seq<Cell>, u: Cell, c: Cell)
    requires c in K && Chained(P, s, K, Cl, c) && K[c].px >= 0 && Trail(P, rev, u, c)
    ensures Cell(K[c].px, K[c].py) in K && K[Cell(K[c].px, K[c].py)].g + 1 == K[c].g
    ensures Trail(P, rev + [c], u, Cell(K[c].px, K[c].py))
  {
    var r := rev + [c];
    forall i | 0 <= i < |r| - 1
      ensures Adjacent(r[i + 1], r[i]) && r[i] in P
    {
      assert r[i] == rev[i];
      if i < |rev| - 1 {
        assert r[i + 1] == rev[i + 1];
      }
    }
  }

  /** The node held under idmap's id for a known cell is that cell's. */
  lemma NodeOf(nodes: map<int, Node>, idmap: map<Cell, int>, K: map<Cell, Node>, c: Cell)
    requires Indexed(nodes, idmap, K) && c in K
    ensures c in idmap && idmap[c] >= 1 && idmap[c] in nodes && nodes[idmap[c]] == K[c]
    ensures Cell(K[c].x, K[c].y) == c
  {
  }

  /** Follows the parents from node id (the cell u) back to the start and
      reverses the cells collected: a walk from the start to u, one cell
      longer than u's cost. */
  method Reconstruct(nodes: map<int, Node>, idmap: map<Cell, int>, id: int,
                     ghost P: set<Cell>, ghost s: Cell, ghost K: map<Cell, Node>, ghost Cl: set<Cell>, ghost u: Cell)
    returns (path: seq<Cell>)
    requires Indexed(nodes, idmap, K) && Parents(P, s, K, Cl) && s in K && K[s].g == 0
    requires u in K && idmap[u] == id
    ensures WalkBetween(P, path, s, u) && |path| == K[u].g + 1
  {
    var rev: seq<Cell> := [];
    var k := id;
    ghost var c := u;
    while k != 0
      invariant c in K && idmap[c] == k && |rev| + K[c].g == K[u].g
      invariant Trail(P, rev, u, c)
      decreases K[c].g
    {
      NodeOf(nodes, idmap, K, c);
      var nd := nodes[k];
      assert Chained(P, s, K, Cl, c);
      if nd.px < 0 {
        rev := rev + [Cell(nd.x, nd.y)];
        break;
      }
      TrailStep(P, s, K, Cl, rev, u, c);
      rev := rev + [Cell(nd.x, nd.y)];
      k := idmap[Cell(nd.px, nd.py)];
      c := Cell(nd.px, nd.py);
    }
    BackWalk(P, rev, s, u);
    path := Reverse(rev);
  }

  /** Relaxing only adds known and open cells and lowers costs; the closed
      cells' nodes stay. */
  ghost predicate Grown(K0: map<Cell, Node>, inOpen0: set<Cell>, K: map<Cell, Node>, inOpen: set<Cell>, Cl: set<Cell>)
  {
    && (forall c :: c in K0 ==> c in K && K[c].g <= K0[c].g)
    && (forall c :: c in Cl ==> c in K0 && K[c] == K0[c])
    && inOpen0 <= inOpen
  }

  /** The neighbours 0 .. k-1 of u (at cost g) that are walkable and not
      closed are open, at most one step costlier than u. */
  ghost predicate Around(P: set<Cell>, K: map<Cell, Node>, inOpen: set<Cell>, Cl: set<Cell>, u: Cell, g: nat, k: int)
  {
    forall j :: 0 <= j < 4 && j < k && Step(u, j) in P && Step(u, j) !in Cl ==>
      Step(u, j) in inOpen && Step(u, j) in K && K[Step(u, j)].g <= g + 1
  }

  /** The whole search state, with K, as one value. */
  datatype Search = Search(nodes: map<int, Node>, idmap: map<Cell, int>, open: seq<(int, int)>,
                           inOpen: set<Cell>, nextId: int, K: map<Cell, Node>)

  /** The facts kept while the closed cell u, at cost g, relaxes its
      neighbours 0 .. k-1, starting from the known nodes K0 and open
      cells inOpen0. */
  ghost predicate Relaxing(P: set<Cell>, s: Cell, t: Cell, S: Search,
                           K0: map<Cell, Node>, inOpen0: set<Cell>, Cl: set<Cell>, u: Cell, g: nat, k: int)
  {
    match S
    case Search(nodes, idmap, open, inOpen, nextId, K) =>
      && Linked(nodes, idmap, open, inOpen, nextId, K)
      && Known(P, s, t, K, inOpen, Cl)
      && Grown(K0, inOpen0, K, inOpen, Cl)
      && Around(P, K, inOpen, Cl, u, g, k)
      && u in Cl && u in K0 && K0[u].g == g && u.x >= 0 && s in Cl && 0 <= k <= 4
  }

  lemma GrowNew(K0: map<Cell, Node>, inOpen0: set<Cell>, K: map<Cell, Node>, inOpen: set<Cell>, Cl: set<Cell>,
                c: Cell, nd: Node)
    requires Grown(K0, inOpen0, K, inOpen, Cl) && c !in K
    ensures Grown(K0, inOpen0, K[c := nd], inOpen + {c}, Cl)
  {
  }

  lemma GrowUpdate(K0: map<Cell, Node>, inOpen0: set<Cell>, K: map<Cell, Node>, inOpen: set<Cell>, Cl: set<Cell>,
                   c: Cell, nd: Node)
    requires Grown(K0, inOpen0, K, inOpen, Cl) && c in K && c !in Cl && nd.g <= K[c].g
    ensures Grown(K0, inOpen0, K[c := nd], inOpen, Cl)
  {
  }

  lemma AroundNew(P: set<Cell>, K: map<Cell, Node>, inOpen: set<Cell>, Cl: set<Cell>, u: Cell, g: nat, k: int,
                  nd: Node)
    requires Around(P, K, inOpen, Cl, u, g, k) && 0 <= k < 4 && Step(u, k) !in K && nd.g == g + 1
    ensures Around(P, K[Step(u, k) := nd], inOpen + {Step(u, k)}, Cl, u, g, k + 1)
  {
  }

  lemma AroundUpdate(P: set<Cell>, K: map<Cell, Node>, inOpen: set<Cell>, Cl: set<Cell>, u: Cell, g: nat, k: int,
                     nd: Node)
    requires Around(P, K, inOpen, Cl, u, g, k) && 0 <= k < 4 && Step(u, k) in inOpen && nd.g == g + 1
    ensures Around(P, K[Step(u, k) := nd], inOpen, Cl, u, g, k + 1)
  {
  }

  lemma AroundKeep(P: set<Cell>, K: map<Cell, Node>, inOpen: set<Cell>, Cl: set<Cell>, u: Cell, g: nat, k: int)
    requires Around(P, K, inOpen, Cl, u, g, k) && 0 <= k < 4
    requires Step(u, k) in P && Step(u, k) !in Cl ==> Step(u, k) in inOpen && Step(u, k) in K && K[Step(u, k)].g <= g + 1
    ensures Around(P, K, inOpen, Cl, u, g, k + 1)
  {
  }

  /** Neighbour k is out of bounds, not walkable or closed, or open at a
      cost no higher than g + 1: nothing changes. */
  lemma RelaxKeep(P: set<Cell>, s: Cell, t: Cell, S: Search,
                  K0: map<Cell, Node>, inOpen0: set<Cell>, Cl: set<Cell>, u: Cell, g: nat, k: int)
    requires Relaxing(P, s, t, S, K0, inOpen0, Cl, u, g, k) && k < 4
    requires Step(u, k) in P && Step(u, k) !in Cl ==> Step(u, k) in S.inOpen && Step(u, k) in S.K && S.K[Step(u, k)].g <= g + 1
    ensures Relaxing(P, s, t, S, K0, inOpen0, Cl, u, g, k + 1)
  {
    AroundKeep(P, S.K, S.inOpen, Cl, u, g, k);
  }

  /** Neighbour k is walkable and unknown: it gets a new node and id. */
  lemma RelaxNew(P: set<Cell>, s: Cell, t: Cell, S: Search,
                 K0: map<Cell, Node>, inOpen0: set<Cell>, Cl: set<Cell>, u: Cell, g: nat, k: int, nd: Node)
    requires Relaxing(P, s, t, S, K0, inOpen0, Cl, u, g, k) && k < 4
    requires Step(u, k) in P && Step(u, k) !in Cl && Step(u, k) !in S.inOpen
    requires nd == Node(Step(u, k).x, Step(u, k).y, g + 1, Heu(Step(u, k).x, Step(u, k).y, t.x, t.y), u.x, u.y)
    ensures Relaxing(P, s, t, Search(S.nodes[S.nextId := nd], S.idmap[Step(u, k) := S.nextId],
                                     Insert(S.open, (F(nd), S.nextId)), S.inOpen + {Step(u, k)}, S.nextId + 1,
                                     S.K[Step(u, k) := nd]), K0, inOpen0, Cl, u, g, k + 1)
  {
    var c := Step(u, k);
    assert c !in S.K;
    StepIsAdjacent(u, k);
    LinkNew(S.nodes, S.idmap, S.open, S.inOpen, S.nextId, S.K, c, nd);
    KnownNew(P, s, t, S.K, S.inOpen, Cl, u, c, nd);
    GrowNew(K0, inOpen0, S.K, S.inOpen, Cl, c, nd);
    AroundNew(P, S.K, S.inOpen, Cl, u, g, k, nd);
  }

  /** Neighbour k is open at a higher cost: its node is replaced. */
  lemma RelaxUpdate(P: set<Cell>, s: Cell, t: Cell, S: Search,
                    K0: map<Cell, Node>, inOpen0: set<Cell>, Cl: set<Cell>, u: Cell, g: nat, k: int, nd: Node)
    requires Relaxing(P, s, t, S, K0, inOpen0, Cl, u, g, k) && k < 4
    requires Step(u, k) in P && Step(u, k) in S.inOpen && Step(u, k) in S.K && g + 1 < S.K[Step(u, k)].g
    requires nd == Node(Step(u, k).x, Step(u, k).y, g + 1, S.K[Step(u, k)].h, u.x, u.y)
    ensures Relaxing(P, s, t, Search(S.nodes[S.idmap[Step(u, k)] := nd], S.idmap,
                                     Insert(RemoveId(S.open, S.idmap[Step(u, k)]), (F(nd), S.idmap[Step(u, k)])),
                                     S.inOpen, S.nextId, S.K[Step(u, k) := nd]), K0, inOpen0, Cl, u, g, k + 1)
  {
    var c := Step(u, k);
    StepIsAdjacent(u, k);
    LinkUpdate(S.nodes, S.idmap, S.open, S.inOpen, S.nextId, S.K, c, nd);
    KnownUpdate(P, s, t, S.K, S.inOpen, Cl, u, c, nd);
    GrowUpdate(K0, inOpen0, S.K, S.inOpen, Cl, c, nd);
    AroundUpdate(P, S.K, S.inOpen, Cl, u, g, k, nd);
  }

  /** A walkable, unclosed cell as read from the two arrays. */
  lemma OpenNeighbour(wk: array2<bool>, closed: array2<bool>, P: set<Cell>, Cl: set<Cell>, x: int, y: int)
    requires closed.Length0 == wk.Length0 && closed.Length1 == wk.Length1
    requires Mask(wk, P)
    requires forall x, y :: 0 <= x < wk.Length0 && 0 <= y < wk.Length1 ==> (closed[x, y] <==> Cell(x, y) in Cl)
    requires 0 <= x < wk.Length0 && 0 <= y < wk.Length1 && wk[x, y] && !closed[x, y]
    ensures Cell(x, y) in P && Cell(x, y) !in Cl
  {
  }

  /** The body of the foreach over N4 for neighbour k of the popped node
      n: an in-bounds, walkable, unclosed neighbour gets a new node at cost
      g + 1, or, when it is open at a higher cost, its node is replaced and
      its entry re-queued. */
  method RelaxNeighbour(wk: array2<bool>, closed: array2<bool>, goal: Cell, n: Node, k: int,
                        nodes0: map<int, Node>, idmap0: map<Cell, int>, open0: seq<(int, int)>,
                        inOpen0: set<Cell>, nextId0: int,
                        ghost P: set<Cell>, ghost s: Cell, ghost K0: map<Cell, Node>, ghost Cl: set<Cell>,
                        ghost Kstart: map<Cell, Node>, ghost inOpenStart: set<Cell>, ghost u: Cell)
    returns (nodes: map<int, Node>, idmap: map<Cell, int>, open: seq<(int, int)>,
             inOpen: set<Cell>, nextId: int, ghost K: map<Cell, Node>)
    requires 0 <= k < 4 && u == Cell(n.x, n.y)
    requires closed.Length0 == wk.Length0 && closed.Length1 == wk.Length1
    requires Mask(wk, P)
    requires forall x, y :: 0 <= x < wk.Length0 && 0 <= y < wk.Length1 ==> (closed[x, y] <==> Cell(x, y) in Cl)
    requires Relaxing(P, s, goal, Search(nodes0, idmap0, open0, inOpen0, nextId0, K0), Kstart, inOpenStart, Cl,
                      u, n.g, k)
    ensures Relaxing(P, s, goal, Search(nodes, idmap, open, inOpen, nextId, K), Kstart, inOpenStart, Cl,
                     u, n.g, k + 1)
  {
    nodes, idmap, open, inOpen, nextId, K := nodes0, idmap0, open0, inOpen0, nextId0, K0;
    var nx, ny := n.x + N4[k].0, n.y + N4[k].1;
    ghost var c := Cell(nx, ny);
    assert c == Step(u, k);
    if nx < 0 || ny < 0 || nx >= wk.Length0 || ny >= wk.Length1 || !wk[nx, ny] || closed[nx, ny] {
      assert c !in P || c in Cl;
      RelaxKeep(P, s, goal, Search(nodes, idmap, open, inOpen, nextId, K), Kstart, inOpenStart, Cl, u, n.g, k);
      return;
    }
    OpenNeighbour(wk, closed, P, Cl, nx, ny);
    var gScore := n.g + 1;
    var wasOpen := Cell(nx, ny) in inOpen;
    if !wasOpen {
      var nd := Node(nx, ny, gScore, Heu(nx, ny, goal.x, goal.y), n.x, n.y);
      RelaxNew(P, s, goal, Search(nodes, idmap, open, inOpen, nextId, K), Kstart, inOpenStart, Cl, u, n.g, k, nd);
      var nid := nextId;
      nextId := nextId + 1;
      nodes := nodes[nid := nd];
      idmap := idmap[Cell(nx, ny) := nid];
      open := Insert(open, (F(nodes[nid]), nid));
      inOpen := inOpen + {Cell(nx, ny)};
      K := K[c := nd];
    } else {
      var nid := idmap[Cell(nx, ny)];
      if gScore < nodes[nid].g {
        var nd := Node(nx, ny, gScore, nodes[nid].h, n.x, n.y);
        RelaxUpdate(P, s, goal, Search(nodes, idmap, open, inOpen, nextId, K), Kstart, inOpenStart, Cl, u, n.g, k, nd);
        open := RemoveId(open, nid);
        nodes := nodes[nid := nd];
        open := Insert(open, (F(nodes[nid]), nid));
        K := K[c := nd];
      } else {
        RelaxKeep(P, s, goal, Search(nodes, idmap, open, inOpen, nextId, K), Kstart, inOpenStart, Cl, u, n.g, k);
      }
    }
  }

  /** The foreach over N4 for the popped node n. */
  method Expand(wk: array2<bool>, closed: array2<bool>, goal: Cell, n: Node,
                nodes0: map<int, Node>, idmap0: map<Cell, int>, open0: seq<(int, int)>,
                inOpen0: set<Cell>, nextId0: int,
                ghost P: set<Cell>, ghost s: Cell, ghost K0: map<Cell, Node>, ghost Cl0: set<Cell>, ghost u: Cell)
    returns (nodes: map<int, Node>, idmap: map<Cell, int>, open: seq<(int, int)>,
             inOpen: set<Cell>, nextId: int, ghost K: map<Cell, Node>)
    requires u == Cell(n.x, n.y)
    requires closed.Length0 == wk.Length0 && closed.Length1 == wk.Length1
    requires Mask(wk, P)
    requires forall x, y :: 0 <= x < wk.Length0 && 0 <= y < wk.Length1 ==> (closed[x, y] <==> Cell(x, y) in Cl0 + {u})
    requires Relaxing(P, s, goal, Search(nodes0, idmap0, open0, inOpen0, nextId0, K0), K0, inOpen0, Cl0 + {u},
                      u, n.g, 0)
    requires Frontier(P, K0, inOpen0, Cl0, Cl0 + {u}) && ClosedOptimal(P, s, K0, Cl0 + {u})
    ensures Searching(P, s, goal, Search(nodes, idmap, open, inOpen, nextId, K), Cl0 + {u})
  {
    nodes, idmap, open, inOpen, nextId, K := nodes0, idmap0, open0, inOpen0, nextId0, K0;
    for k := 0 to 4
      invariant Relaxing(P, s, goal, Search(nodes, idmap, open, inOpen, nextId, K), K0, inOpen0, Cl0 + {u},
                         u, n.g, k)
    {
      nodes, idmap, open, inOpen, nextId, K :=
        RelaxNeighbour(wk, closed, goal, n, k, nodes, idmap, open, inOpen, nextId, P, s, K, Cl0 + {u}, K0, inOpen0, u);
    }
    Reopen(P, s, goal, Search(nodes, idmap, open, inOpen, nextId, K), K0, inOpen0, Cl0, u, n.g);
  }

  /** All four neighbours relaxed: u's frontier is in place. */
  lemma Relaxed(P: set<Cell>, s: Cell, t: Cell, S: Search, K0: map<Cell, Node>, inOpen0: set<Cell>,
                Cl: set<Cell>, u: Cell, g: nat)
    requires Relaxing(P, s, t, S, K0, inOpen0, Cl, u, g, 4)
    ensures Frontier(P, S.K, S.inOpen, {u}, Cl)
  {
  }

  // ---------------------------------------------------------------------
  // The main loop of AStar

  /** What holds each time the while loop tests the open set: the
      bookkeeping is in step, the closed cells hold shortest costs, and
      every walkable neighbour of a closed cell is closed or open. Before
      the first pop, only the start is open. */
  ghost predicate Searching(P: set<Cell>, s: Cell, t: Cell, S: Search, Cl: set<Cell>)
  {
    match S
    case Search(nodes, idmap, open, inOpen, nextId, K) =>
      && Linked(nodes, idmap, open, inOpen, nextId, K)
      && Known(P, s, t, K, inOpen, Cl)
      && (s in Cl || (Cl == {} && inOpen == {s}))
      && ClosedOptimal(P, s, K, Cl)
      && Frontier(P, K, inOpen, Cl, Cl)
  }

  /** The state right after the start node is queued. */
  lemma Begin(P: set<Cell>, s: Cell, t: Cell, nodes: map<int, Node>, idmap: map<Cell, int>, open: seq<(int, int)>,
              inOpen: set<Cell>, nextId: int, K: map<Cell, Node>)
    requires nodes == map[1 := Node(s.x, s.y, 0, Heu(s.x, s.y, t.x, t.y), -1, -1)]
    requires open == Insert([], (F(nodes[1]), 1)) && inOpen == {s} && idmap == map[s := 1] && nextId == 2
    requires K == map[s := nodes[1]]
    ensures Searching(P, s, t, Search(nodes, idmap, open, inOpen, nextId, K), {}) && |open| == 1
  {
    assert open == [(F(nodes[1]), 1)];
  }

  /** The first open entry names a node that exists. */
  lemma Peek(P: set<Cell>, s: Cell, t: Cell, nodes: map<int, Node>, idmap: map<Cell, int>, open: seq<(int, int)>,
             inOpen: set<Cell>, nextId: int, K: map<Cell, Node>, Cl: set<Cell>)
    requires Searching(P, s, t, Search(nodes, idmap, open, inOpen, nextId, K), Cl) && |open| > 0
    ensures open[0].1 in nodes
  {
    assert open[0] in open;
  }

  /** The popped node n is the known node of an open cell u and holds u's
      shortest cost; when start and goal coincide, u is the start. */
  lemma Pop(P: set<Cell>, s: Cell, t: Cell, nodes: map<int, Node>, idmap: map<Cell, int>, open: seq<(int, int)>,
            inOpen: set<Cell>, nextId: int, K: map<Cell, Node>, Cl: set<Cell>, n: Node, u: Cell)
    requires Searching(P, s, t, Search(nodes, idmap, open, inOpen, nextId, K), Cl) && |open| > 0
    requires open[0].1 in nodes && n == nodes[open[0].1] && u == Cell(n.x, n.y)
    ensures u in inOpen && u in K && K[u] == n && idmap[u] == open[0].1 && u !in Cl
    ensures Optimal(P, s, u, n.g)
    ensures s == t ==> u == s
    ensures Indexed(nodes, idmap, K) && Parents(P, s, K, Cl) && s in K && K[s].g == 0
  {
    PopFirst(nodes, idmap, open, inOpen, nextId, K, u);
    PopOptimal(P, s, t, K, inOpen, Cl, u);
  }

  /** A known cell is the start or walkable. */
  lemma Placed(P: set<Cell>, s: Cell, K: map<Cell, Node>, Cl: set<Cell>, u: Cell)
    requires Parents(P, s, K, Cl) && u in K
    ensures u == s || u in P
  {
    assert Chained(P, s, K, Cl, u);
  }

  lemma GrowStart(K: map<Cell, Node>, inOpen: set<Cell>, Cl: set<Cell>)
    requires forall c :: c in Cl ==> c in K
    ensures Grown(K, inOpen, K, inOpen, Cl)
  {
  }

  /** Closing the popped cell u, which is not the goal, sets up the foreach
      over its neighbours. */
  lemma Close(P: set<Cell>, s: Cell, t: Cell, nodes: map<int, Node>, idmap: map<Cell, int>, open: seq<(int, int)>,
              inOpen: set<Cell>, nextId: int, K: map<Cell, Node>, Cl: set<Cell>, n: Node, u: Cell)
    requires Searching(P, s, t, Search(nodes, idmap, open, inOpen, nextId, K), Cl) && |open| > 0
    requires open[0].1 in nodes && n == nodes[open[0].1] && u == Cell(n.x, n.y)
    requires Optimal(P, s, u, n.g) && u != t && u.x >= 0
    ensures Relaxing(P, s, t, Search(nodes, idmap, open[1..], inOpen - {Cell(n.x, n.y)}, nextId, K), K,
                     inOpen - {Cell(n.x, n.y)}, Cl + {u}, u, n.g, 0)
    ensures Frontier(P, K, inOpen - {Cell(n.x, n.y)}, Cl, Cl + {u})
    ensures ClosedOptimal(P, s, K, Cl + {u})
  {
    PopFirst(nodes, idmap, open, inOpen, nextId, K, u);
    KnownClose(P, s, t, K, inOpen, Cl, u);
    GrowStart(K, inOpen - {u}, Cl + {u});
    FrontierPop(P, K, inOpen, Cl, u);
  }

  /** After the foreach, the loop's facts hold again with u closed. */
  lemma Reopen(P: set<Cell>, s: Cell, t: Cell, S: Search, K0: map<Cell, Node>, inOpen0: set<Cell>,
               Cl: set<Cell>, u: Cell, g: nat)
    requires Relaxing(P, s, t, S, K0, inOpen0, Cl + {u}, u, g, 4)
    requires Frontier(P, K0, inOpen0, Cl, Cl + {u}) && ClosedOptimal(P, s, K0, Cl + {u})
    ensures Searching(P, s, t, S, Cl + {u})
  {
    Relaxed(P, s, t, S, K0, inOpen0, Cl + {u}, u, g);
    FrontierGrows(P, K0, inOpen0, S.K, S.inOpen, Cl, Cl + {u});
    FrontierJoin(P, S.K, S.inOpen, Cl, u, Cl + {u});
    ClosedOptimalKeep(P, s, K0, S.K, Cl + {u});
  }

  /** An empty open set: everything reachable was closed, the goal was not. */
  lemma Exhaust(P: set<Cell>, s: Cell, t: Cell, nodes: map<int, Node>, idmap: map<Cell, int>, open: seq<(int, int)>,
                inOpen: set<Cell>, nextId: int, K: map<Cell, Node>, Cl: set<Cell>)
    requires Searching(P, s, t, Search(nodes, idmap, open, inOpen, nextId, K), Cl) && |open| == 0
    ensures !Reachable(P, s, t)
  {
    assert inOpen == {};
    Exhausted(P, s, t, K, Cl);
  }

  /** The popped node n is not the goal: remove it from the open set,
      close it and relax its neighbours. */
  method Settle(wk: array2<bool>, closed: array2<bool>, goal: Cell, n: Node,
               nodes0: map<int, Node>, idmap0: map<Cell, int>, open0: seq<(int, int)>,
               inOpen0: set<Cell>, nextId0: int,
               ghost P: set<Cell>, ghost s: Cell, ghost K0: map<Cell, Node>, ghost Cl: set<Cell>, ghost u: Cell)
    returns (nodes: map<int, Node>, idmap: map<Cell, int>, open: seq<(int, int)>,
             inOpen: set<Cell>, nextId: int, ghost K: map<Cell, Node>)
    requires wk != closed
    requires closed.Length0 == wk.Length0 && closed.Length1 == wk.Length1
    requires Mask(wk, P)
    requires forall x, y :: 0 <= x < wk.Length0 && 0 <= y < wk.Length1 ==> (closed[x, y] <==> Cell(x, y) in Cl)
    requires Searching(P, s, goal, Search(nodes0, idmap0, open0, inOpen0, nextId0, K0), Cl) && |open0| > 0
    requires open0[0].1 in nodes0 && n == nodes0[open0[0].1] && u == Cell(n.x, n.y)
    requires Optimal(P, s, u, n.g) && u != goal && Within(u, wk.Length0, wk.Length1)
    modifies closed
    ensures forall x, y :: 0 <= x < wk.Length0 && 0 <= y < wk.Length1 ==> (closed[x, y] <==> Cell(x, y) in Cl + {u})
    ensures Searching(P, s, goal, Search(nodes, idmap, open, inOpen, nextId, K), Cl + {u})
  {
    Close(P, s, goal, nodes0, idmap0, open0, inOpen0, nextId0, K0, Cl, n, u);
    closed[n.x, n.y] := true;
    nodes, idmap, open, inOpen, nextId, K :=
      Expand(wk, closed, goal, n, nodes0, idmap0, open0[1..], inOpen0 - {Cell(n.x, n.y)}, nextId0,
             P, s, K0, Cl, u);
  }

  /** One pass of the while loop: pop the open node with the least f,
      and either rebuild the path to the goal or close the node and relax
      its neighbours. */
  method Visit(wk: array2<bool>, closed: array2<bool>, start: Cell, goal: Cell,
               nodes0: map<int, Node>, idmap0: map<Cell, int>, open0: seq<(int, int)>,
               inOpen0: set<Cell>, nextId0: int, ghost P: set<Cell>, ghost K0: map<Cell, Node>, ghost Cl0: set<Cell>,
               ghost left0: set<Cell>)
    returns (done: bool, path: Option<seq<Cell>>, nodes: map<int, Node>, idmap: map<Cell, int>,
             open: seq<(int, int)>, inOpen: set<Cell>, nextId: int, ghost K: map<Cell, Node>,
             ghost Cl: set<Cell>, ghost left: set<Cell>)
    requires Within(start, wk.Length0, wk.Length1) || start == goal
    requires wk != closed
    requires closed.Length0 == wk.Length0 && closed.Length1 == wk.Length1
    requires Mask(wk, P)
    requires forall x, y :: 0 <= x < wk.Length0 && 0 <= y < wk.Length1 ==> (closed[x, y] <==> Cell(x, y) in Cl0)
    requires Searching(P, start, goal, Search(nodes0, idmap0, open0, inOpen0, nextId0, K0), Cl0) && |open0| > 0
    requires forall c {:trigger Within(c, wk.Length0, wk.Length1)} ::
               Within(c, wk.Length0, wk.Length1) && c !in Cl0 ==> c in left0
    modifies closed
    ensures done ==> path.Some? && WalkBetween(P, path.value, start, goal)
    ensures done ==> Optimal(P, start, goal, |path.value| - 1) && Reachable(P, start, goal)
    ensures done && start == goal ==> path == Some([start])
    ensures !done ==> |left| < |left0|
    ensures !done ==> forall c {:trigger Within(c, wk.Length0, wk.Length1)} ::
                        Within(c, wk.Length0, wk.Length1) && c !in Cl ==> c in left
    ensures !done ==> forall x, y :: 0 <= x < wk.Length0 && 0 <= y < wk.Length1 ==> (closed[x, y] <==> Cell(x, y) in Cl)
    ensures !done ==> Searching(P, start, goal, Search(nodes, idmap, open, inOpen, nextId, K), Cl)
    ensures !done && |open| == 0 ==> !Reachable(P, start, goal)
  {
    Peek(P, start, goal, nodes0, idmap0, open0, inOpen0, nextId0, K0, Cl0);
    var cur := open0[0];
    var n := nodes0[cur.1];
    ghost var u := Cell(n.x, n.y);
    Pop(P, start, goal, nodes0, idmap0, open0, inOpen0, nextId0, K0, Cl0, n, u);
    if n.x == goal.x && n.y == goal.y {
      path := Found(nodes0, idmap0, cur.1, P, start, goal, K0, Cl0, u);
      return true, path, nodes0, idmap0, open0, inOpen0, nextId0, K0, Cl0, left0;
    }
    Placed(P, start, K0, Cl0, u);
    done, path, Cl := false, Null, Cl0 + {u};
    Shrinks(left0, u);
    left := left0 - {u};
    nodes, idmap, open, inOpen, nextId, K :=
      Settle(wk, closed, goal, n, nodes0, idmap0, open0, inOpen0, nextId0, P, start, K0, Cl0, u);
    if |open| == 0 {
      Exhaust(P, start, goal, nodes, idmap, open, inOpen, nextId, K, Cl);
    }
  }

  /** The while loop of AStar, from the queued start node on. */
  method Explore(wk: array2<bool>, closed: array2<bool>, start: Cell, goal: Cell,
                 nodes0: map<int, Node>, idmap0: map<Cell, int>, open0: seq<(int, int)>,
                 inOpen0: set<Cell>, nextId0: int, ghost P: set<Cell>, ghost K0: map<Cell, Node>)
    returns (path: Option<seq<Cell>>)
    requires Within(start, wk.Length0, wk.Length1) || start == goal
    requires wk != closed
    requires closed.Length0 == wk.Length0 && closed.Length1 == wk.Length1
    requires Mask(wk, P)
    requires forall x, y :: 0 <= x < wk.Length0 && 0 <= y < wk.Length1 ==> !closed[x, y]
    requires Searching(P, start, goal, Search(nodes0, idmap0, open0, inOpen0, nextId0, K0), {}) && |open0| > 0
    modifies closed
    ensures path.Some? ==> WalkBetween(P, path.value, start, goal) && Optimal(P, start, goal, |path.value| - 1)
    ensures path.Null? <==> !Reachable(P, start, goal)
    ensures start == goal ==> path == Some([start])
  {
    var nodes, idmap, open, inOpen, nextId := nodes0, idmap0, open0, inOpen0, nextId0;
    ghost var K := K0;
    ghost var Cl: set<Cell> := {};
    ghost var left := AllCells(wk.Length0, wk.Length1);
    while |open| > 0
      invariant Mask(wk, P)
      invariant forall x, y :: 0 <= x < wk.Length0 && 0 <= y < wk.Length1 ==> (closed[x, y] <==> Cell(x, y) in Cl)
      invariant Searching(P, start, goal, Search(nodes, idmap, open, inOpen, nextId, K), Cl)
      invariant forall c {:trigger Within(c, wk.Length0, wk.Length1)} ::
                  Within(c, wk.Length0, wk.Length1) && c !in Cl ==> c in left
      invariant |open| == 0 ==> !Reachable(P, start, goal)
      decreases |left|
    {
      var done: bool;
      done, path, nodes, idmap, open, inOpen, nextId, K, Cl, left :=
        Visit(wk, closed, start, goal, nodes, idmap, open, inOpen, nextId, P, K, Cl, left);
      if done {
        return;
      }
    }
    return Null;
  }

  /** Pathfinding.AStar on a grid the size of the walkable mask: a shortest
      4-connected walk from start to goal over walkable cells, or null when
      the goal cannot be reached. The start cell itself need not be walkable. */
  method AStar(wk: array2<bool>, start: Cell, goal: Cell) returns (path: Option<seq<Cell>>)
    requires Within(start, wk.Length0, wk.Length1) || start == goal
    ensures path.Some? ==> WalkBetween(PassSet(wk), path.value, start, goal)
    ensures path.Some? ==> Optimal(PassSet(wk), start, goal, |path.value| - 1)
    ensures path.Null? <==> !Reachable(PassSet(wk), start, goal)
    ensures start == goal ==> path == Some([start])
  {
    var W, H := wk.Length0, wk.Length1;
    ghost var P := PassSet(wk);
    PassSetMask(wk);
    var closed := new bool[W, H]((x, y) => false);
    var nextId := 1;
    var sid := nextId;
    nextId := nextId + 1;
    var nodes := map[sid := Node(start.x, start.y, 0, Heu(start.x, start.y, goal.x, goal.y), -1, -1)];
    var open := Insert([], (F(nodes[sid]), sid));
    var inOpen := {start};
    var idmap := map[start := sid];
    ghost var K := map[start := nodes[sid]];
    Begin(P, start, goal, nodes, idmap, open, inOpen, nextId, K);
    path := Explore(wk, closed, start, goal, nodes, idmap, open, inOpen, nextId, P, K);
  }

  /** A finite set holding every cell of a w-by-h grid. */
  lemma AllCells(w: int, h: int) returns (A: set<Cell>)
    ensures forall c {:trigger Within(c, w, h)} :: Within(c, w, h) ==> c in A
  {
    A := Cells(w, h);
    forall c | Within(c, w, h)
      ensures c in A
    {
      assert c == Cell(c.x, c.y);
    }
  }

  lemma Shrinks(A: set<Cell>, u: Cell)
    requires u in A
    ensures |A - {u}| < |A|
  {
    assert A == (A - {u}) + {u};
  }

  /** The goal was popped: the reconstructed path is a shortest walk. */
  method Found(nodes: map<int, Node>, idmap: map<Cell, int>, id: int,
               ghost P: set<Cell>, ghost s: Cell, ghost t: Cell, ghost K: map<Cell, Node>, ghost Cl: set<Cell>,
               ghost u: Cell)
    returns (path: Option<seq<Cell>>)
    requires Indexed(nodes, idmap, K) && Parents(P, s, K, Cl) && s in K && K[s].g == 0
    requires u in K && idmap[u] == id && u == t && Optimal(P, s, u, K[u].g)
    requires s == t ==> u == s
    ensures path.Some? && WalkBetween(P, path.value, s, t) && Optimal(P, s, t, |path.value| - 1)
    ensures Reachable(P, s, t)
    ensures s == t ==> path == Some([s])
  {
    var p := Reconstruct(nodes, idmap, id, P, s, K, Cl, u);
    assert WalkBetween(P, p, s, t);
    if s == t {
      assert |p| == 1 && p[0] == s;
      assert p == [s];
    }
    path := Some(p);
  }



}
