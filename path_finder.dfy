/**
 * Shortest route from an attacking unit to its target: breadth-first search
 * over the 8-connected battle field, avoiding the cells of other living units.
 */
module PathFinder {
  import opened Grid
  import opened Seqs

  /** The eight moves, in the order the search tries them. */
  const MovementOffsets: seq<(int, int)> :=
    [(-1, 0), (1, 0), (0, -1), (0, 1), (-1, -1), (-1, 1), (1, -1), (1, 1)]

  /** The cell one move of kind `k` away from `c`. */
  function Step(c: Cell, k: nat): Cell
    requires k < |MovementOffsets|
  {
    Cell(c.x + MovementOffsets[k].0, c.y + MovementOffsets[k].1)
  }

  /** `a` and `b` are one king's move apart. */
  predicate Adjacent(a: Cell, b: Cell) {
    a != b && -1 <= b.x - a.x <= 1 && -1 <= b.y - a.y <= 1
  }

  /** The movement offsets are exactly the eight king's moves. */
  lemma StepsAreTheEightMoves(a: Cell, b: Cell)
    ensures Adjacent(a, b) <==> exists k :: 0 <= k < |MovementOffsets| && b == Step(a, k)
  {
    if Adjacent(a, b) {
      var dx, dy := b.x - a.x, b.y - a.y;
      var k :=
        if dx == -1 && dy == 0 then 0
        else if dx == 1 && dy == 0 then 1
        else if dx == 0 && dy == -1 then 2
        else if dx == 0 && dy == 1 then 3
        else if dx == -1 && dy == -1 then 4
        else if dx == -1 && dy == 1 then 5
        else if dx == 1 && dy == -1 then 6
        else 7;
      assert b == Step(a, k);
    }
    forall k | 0 <= k < |MovementOffsets|
      ensures Adjacent(a, Step(a, k))
    {
      assert k == 0 || k == 1 || k == 2 || k == 3 || k == 4 || k == 5 || k == 6 || k == 7;
    }
  }

  /** Different moves lead to different cells. */
  lemma StepsDistinct(c: Cell, j: nat, k: nat)
    requires j < k < |MovementOffsets|
    ensures Step(c, j) != Step(c, k)
  {
    assert j == 0 || j == 1 || j == 2 || j == 3 || j == 4 || j == 5 || j == 6;
    assert k == 1 || k == 2 || k == 3 || k == 4 || k == 5 || k == 6 || k == 7;
  }

  // ---------------------------------------------------------------------------
  // Routes

  /** A cell the search may enter: on the field and not an obstacle. */
  predicate Open(c: Cell, walls: set<Cell>) {
    InBounds(c) && c !in walls
  }

  /** `p` walks from `src` to `dst` by king's moves through open cells. */
  ghost predicate IsRoute(p: seq<Cell>, src: Cell, dst: Cell, walls: set<Cell>) {
    && |p| > 0
    && p[0] == src
    && p[|p| - 1] == dst
    && (forall i :: 0 <= i < |p| ==> Open(p[i], walls))
    && (forall i :: 0 <= i < |p| - 1 ==> Adjacent(p[i], p[i + 1]))
  }

  ghost predicate Reachable(src: Cell, dst: Cell, walls: set<Cell>) {
    exists p :: IsRoute(p, src, dst, walls)
  }

  /** `p` is a route with the fewest cells (hence the fewest moves). */
  ghost predicate IsShortestRoute(p: seq<Cell>, src: Cell, dst: Cell, walls: set<Cell>) {
    IsRoute(p, src, dst, walls) && forall q :: IsRoute(q, src, dst, walls) ==> |p| <= |q|
  }

  /** Cells holding a living unit of the list. */
  ghost function LivingCells(units: seq<Unit>): set<Cell> {
    set i | 0 <= i < |units| && Alive(units[i]) :: Pos(units[i])
  }

  ghost function LivingCellsUpTo(units: seq<Unit>, n: nat): set<Cell>
    requires n <= |units|
  {
    set i | 0 <= i < n && Alive(units[i]) :: Pos(units[i])
  }

  /** The obstacles of a search: living units' cells except the attacker's and the target's. */
  ghost function ObstacleCells(units: seq<Unit>, attacker: Unit, target: Unit): set<Cell> {
    LivingCells(units) - {Pos(attacker), Pos(target)}
  }

  // ---------------------------------------------------------------------------
  // The obstacle map

  method CreateObstacleMap(units: seq<Unit>, attacker: Unit, target: Unit) returns (obstacles: array2<bool>)
    requires forall i :: 0 <= i < |units| && Alive(units[i]) ==> InBounds(Pos(units[i]))
    requires InBounds(Pos(attacker)) && InBounds(Pos(target))
    ensures fresh(obstacles) && FieldSized(obstacles)
    ensures forall x, y :: 0 <= x < FieldWidth && 0 <= y < FieldHeight ==>
              (obstacles[x, y] <==> Cell(x, y) in ObstacleCells(units, attacker, target))
  {
    obstacles := new bool[FieldWidth, FieldHeight]((_, _) => false);
    for i := 0 to |units|
      invariant forall x, y :: 0 <= x < FieldWidth && 0 <= y < FieldHeight ==>
                  (obstacles[x, y] <==> Cell(x, y) in LivingCellsUpTo(units, i))
    {
      var unit := units[i];
      if Alive(unit) {
        obstacles[unit.x, unit.y] := true;
        assert LivingCellsUpTo(units, i + 1) == LivingCellsUpTo(units, i) + {Pos(unit)};
      } else {
        assert LivingCellsUpTo(units, i + 1) == LivingCellsUpTo(units, i);
      }
    }
    assert LivingCellsUpTo(units, |units|) == LivingCells(units);
    obstacles[attacker.x, attacker.y] := false;
    obstacles[target.x, target.y] := false;
  }

  // ---------------------------------------------------------------------------
  // The state of the search, described by ghost values

  /**
   * `par` is the parent relation of the cells found so far (`dist` holds
   * their levels): every found cell except the source has a found parent one
   * move and one level closer to the source.
   */
  ghost predicate ParentTree(src: Cell, walls: set<Cell>, dist: map<Cell, nat>, par: map<Cell, Cell>) {
    && src in dist && dist[src] == 0 && src !in par
    && (forall c :: c in dist ==> Open(c, walls))
    && (forall c :: c in par ==> c in dist)
    && (forall c :: c in dist && c != src ==> c in par)
    && (forall c {:trigger par[c]} :: c in par ==>
          par[c] in dist && Adjacent(par[c], c) && dist[c] == dist[par[c]] + 1)
  }

  /** No route reaches a found cell in fewer moves than its level. */
  ghost predicate ExactLevels(src: Cell, walls: set<Cell>, dist: map<Cell, nat>) {
    forall c, w {:trigger IsRoute(w, src, c, walls)} :: c in dist && IsRoute(w, src, c, walls) ==> dist[c] <= |w| - 1
  }

  /** The queue holds found cells, ordered by level, spanning at most two levels. */
  ghost predicate Frontier(dist: map<Cell, nat>, queue: seq<Cell>) {
    && (forall i :: 0 <= i < |queue| ==> queue[i] in dist)
    && (forall i, j :: 0 <= i <= j < |queue| ==> dist[queue[i]] <= dist[queue[j]] <= dist[queue[i]] + 1)
  }

  /** Every found cell that has left the queue has all its open neighbours found. */
  ghost predicate Expanded(walls: set<Cell>, dist: map<Cell, nat>, queue: seq<Cell>) {
    forall z, n {:trigger Adjacent(z, n)} :: z in dist && z !in queue && Adjacent(z, n) && Open(n, walls) ==> n in dist
  }

  ghost predicate SearchInvariant(src: Cell, walls: set<Cell>, dist: map<Cell, nat>, par: map<Cell, Cell>, queue: seq<Cell>) {
    ParentTree(src, walls, dist, par) && ExactLevels(src, walls, dist) && Frontier(dist, queue) && Expanded(walls, dist, queue)
  }

  /** What one expansion of `u` discovers: the open neighbours not yet found, each once. */
  ghost predicate FoundFacts(u: Cell, found: seq<Cell>, dist: map<Cell, nat>, walls: set<Cell>) {
    && Distinct(found)
    && (forall n {:trigger n in found} :: n in found ==> Open(n, walls) && n !in dist && Adjacent(u, n))
    && (forall n {:trigger Adjacent(u, n)} :: Adjacent(u, n) && Open(n, walls) ==> n in dist || n in found)
  }

  /** `m` with every cell of `found` mapped to `v`. */
  ghost function Assign<V>(m: map<Cell, V>, found: seq<Cell>, v: V): (r: map<Cell, V>)
    ensures forall c :: c in r <==> c in m || c in found
    ensures forall c :: c in r ==> r[c] == if c in found then v else m[c]
  {
    if found == [] then m else Assign(m, found[..|found| - 1], v)[found[|found| - 1] := v]
  }

  /** Level of found cells after `u` at `level` discovers `found`. */
  ghost function Grow(dist: map<Cell, nat>, found: seq<Cell>, level: nat): map<Cell, nat> {
    Assign(dist, found, level)
  }

  /** Parents of found cells after `u` discovers `found`. */
  ghost function Adopt(par: map<Cell, Cell>, found: seq<Cell>, u: Cell): map<Cell, Cell> {
    Assign(par, found, u)
  }

  /**
   * Every cell a route of at most `level` moves reaches is found, provided the
   * found cells below `level` have been expanded.
   */
  lemma {:induction false} ReachWithin(src: Cell, walls: set<Cell>, dist: map<Cell, nat>, level: nat, w: seq<Cell>, c: Cell)
    requires src in dist && ExactLevels(src, walls, dist)
    requires forall z, n {:trigger Adjacent(z, n)} :: z in dist && dist[z] < level && Adjacent(z, n) && Open(n, walls) ==> n in dist
    requires IsRoute(w, src, c, walls)
    ensures |w| - 1 <= level ==> c in dist
    decreases |w|
  {
    if |w| > 1 && |w| - 1 <= level {
      var v := w[..|w| - 1];
      var z := w[|w| - 2];
      assert IsRoute(v, src, z, walls);
      ReachWithin(src, walls, dist, level, v, z);
      assert dist[z] <= |v| - 1;
      assert Adjacent(z, c) && Open(c, walls);
    }
  }

  /** When the queue is empty, every cell reachable from the source is found. */
  lemma ClosedSearchReach(src: Cell, walls: set<Cell>, dist: map<Cell, nat>, c: Cell)
    requires src in dist && ExactLevels(src, walls, dist) && Expanded(walls, dist, [])
    ensures Reachable(src, c, walls) ==> c in dist
  {
    if Reachable(src, c, walls) {
      var w :| IsRoute(w, src, c, walls);
      ReachWithin(src, walls, dist, |w|, w, c);
    }
  }

  /**
   * The shared precondition of one search step: `u` heads the queue, `rest`
   * follows it, `found` is what expanding `u` discovers, at level `level`.
   */
  ghost predicate StepFacts(src: Cell, walls: set<Cell>, dist: map<Cell, nat>, par: map<Cell, Cell>, queue: seq<Cell>,
                            u: Cell, rest: seq<Cell>, found: seq<Cell>, level: nat) {
    && SearchInvariant(src, walls, dist, par, queue)
    && queue == [u] + rest && u in dist && level == dist[u] + 1
    && FoundFacts(u, found, dist, walls)
  }

  /** Expanding the head of the queue keeps the parent tree. */
  lemma ExpandKeepsTree(src: Cell, walls: set<Cell>, dist: map<Cell, nat>, par: map<Cell, Cell>, u: Cell, found: seq<Cell>, level: nat)
    requires ParentTree(src, walls, dist, par)
    requires u in dist && level == dist[u] + 1
    requires FoundFacts(u, found, dist, walls)
    ensures ParentTree(src, walls, Grow(dist, found, level), Adopt(par, found, u))
  {
    var dist', par' := Grow(dist, found, level), Adopt(par, found, u);
    forall c | c in par'
      ensures par'[c] in dist' && Adjacent(par'[c], c) && dist'[c] == dist'[par'[c]] + 1
    {
      if c in found {
        assert par'[c] == u && dist'[c] == level;
      } else {
        assert par'[c] == par[c] && dist'[c] == dist[c];
      }
    }
  }

  /** Expanding the head of the queue gives the discovered cells their exact level. */
  lemma ExpandKeepsLevels(src: Cell, walls: set<Cell>, dist: map<Cell, nat>, queue: seq<Cell>, u: Cell, found: seq<Cell>, level: nat)
    requires src in dist && ExactLevels(src, walls, dist) && Frontier(dist, queue) && Expanded(walls, dist, queue)
    requires queue != [] && u == queue[0] && u in dist && level == dist[u] + 1
    requires FoundFacts(u, found, dist, walls)
    ensures ExactLevels(src, walls, Grow(dist, found, level))
  {
    var dist' := Grow(dist, found, level);
    assert forall j :: 0 <= j < |queue| ==> level - 1 <= dist[queue[j]];
    forall c, w | c in dist' && IsRoute(w, src, c, walls)
      ensures dist'[c] <= |w| - 1
    {
      if c in found {
        ReachWithin(src, walls, dist, level - 1, w, c);
      }
    }
  }

  /** Expanding the head of the queue keeps the queue ordered by level. */
  lemma ExpandKeepsFrontier(dist: map<Cell, nat>, queue: seq<Cell>, u: Cell, rest: seq<Cell>, found: seq<Cell>, level: nat)
    requires Frontier(dist, queue)
    requires queue == [u] + rest && u in dist && level == dist[u] + 1
    requires forall n :: n in found ==> n !in dist
    ensures Frontier(Grow(dist, found, level), rest + found)
  {
    var dist' := Grow(dist, found, level);
    var q := rest + found;
    assert queue[0] == u;
    forall i | 0 <= i < |rest|
      ensures rest[i] == queue[i + 1] && rest[i] in dist && rest[i] !in found
      ensures q[i] == rest[i] && rest[i] in dist' && dist'[rest[i]] == dist[rest[i]]
      ensures level - 1 <= dist[rest[i]] <= level
    {
      assert rest[i] == queue[i + 1];
    }
    forall i | |rest| <= i < |q|
      ensures q[i] == found[i - |rest|] && q[i] in dist' && dist'[q[i]] == level
    {
    }
    forall i, j | 0 <= i < j < |rest|
      ensures rest[i] in dist && rest[j] in dist && dist[rest[i]] <= dist[rest[j]]
    {
      assert rest[i] == queue[i + 1] && rest[j] == queue[j + 1];
    }
  }

  /** Expanding the head of the queue finds all its open neighbours. */
  lemma ExpandKeepsExpanded(walls: set<Cell>, dist: map<Cell, nat>, queue: seq<Cell>, u: Cell, rest: seq<Cell>, found: seq<Cell>, level: nat)
    requires Expanded(walls, dist, queue)
    requires queue == [u] + rest
    requires FoundFacts(u, found, dist, walls)
    ensures Expanded(walls, Grow(dist, found, level), rest + found)
  {
    var dist' := Grow(dist, found, level);
    forall z, n | z in dist' && z !in rest + found && Adjacent(z, n) && Open(n, walls)
      ensures n in dist'
    {
      if z != u {
        assert z in dist && z !in queue;
      }
    }
  }

  /** A route with as many moves as the level of its end is a shortest one. */
  lemma LevelRouteIsShortest(src: Cell, dst: Cell, walls: set<Cell>, dist: map<Cell, nat>, route: seq<Cell>)
    requires ExactLevels(src, walls, dist) && dst in dist
    requires IsRoute(route, src, dst, walls) && |route| == dist[dst] + 1
    ensures Reachable(src, dst, walls) && IsShortestRoute(route, src, dst, walls)
  {
  }

  /** The search finds at most the 27 * 21 cells of the field. */
  lemma FoundCellsBound(dist: map<Cell, nat>, walls: set<Cell>)
    requires forall c :: c in dist ==> Open(c, walls)
    ensures |dist| <= FieldWidth * FieldHeight
  {
    forall c | c in dist.Keys
      ensures c in AllCells()
    {
      AllCellsSpec(c);
    }
    AllCellsSpec(Cell(0, 0));
    SubsetCardinality(dist.Keys, AllCells());
  }

  /**
   * One step of the search: the head of the queue leaves it and the cells it
   * discovers join it at the next level; the search state stays valid and
   * either finds new cells or shortens the queue.
   */
  lemma ExpandStep(src: Cell, walls: set<Cell>, dist: map<Cell, nat>, par: map<Cell, Cell>, queue: seq<Cell>,
                   u: Cell, rest: seq<Cell>, found: seq<Cell>, level: nat)
    requires StepFacts(src, walls, dist, par, queue, u, rest, found, level)
    ensures SearchInvariant(src, walls, Grow(dist, found, level), Adopt(par, found, u), rest + found)
  {
    assert queue[0] == u;
    ExpandKeepsTree(src, walls, dist, par, u, found, level);
    ExpandKeepsLevels(src, walls, dist, queue, u, found, level);
    ExpandKeepsFrontier(dist, queue, u, rest, found, level);
    ExpandKeepsExpanded(walls, dist, queue, u, rest, found, level);
  }

  /** The found cells never outnumber the field's cells, and a step that discovers cells adds some. */
  lemma GrowCount(walls: set<Cell>, dist: map<Cell, nat>, found: seq<Cell>, level: nat)
    requires forall c :: c in Grow(dist, found, level) ==> Open(c, walls)
    requires forall n :: n in found ==> n !in dist
    ensures |Grow(dist, found, level)| <= FieldWidth * FieldHeight
    ensures found != [] ==> |dist| < |Grow(dist, found, level)|
  {
    var dist' := Grow(dist, found, level);
    FoundCellsBound(dist', walls);
    if found != [] {
      assert found[0] in dist'.Keys - dist.Keys;
      SubsetCardinality(dist.Keys, dist'.Keys);
    }
  }

  /**
   * The cells ever put on the queue, `entered`, are the found cells, each
   * entered once; `polls` of them have been taken off, the rest are `queue`.
   */
  ghost predicate Enqueued(entered: seq<Cell>, dist: map<Cell, nat>, polls: nat, queue: seq<Cell>) {
    && Distinct(entered)
    && (forall c :: c in entered <==> c in dist)
    && polls + |queue| == |entered|
  }

  /** Polling the head of the queue moves one entered cell to the polled ones. */
  lemma EnqueuedPoll(entered: seq<Cell>, dist: map<Cell, nat>, polls: nat, queue: seq<Cell>, next: nat)
    requires queue != [] && Enqueued(entered, dist, polls, queue) && next == polls + 1
    ensures Enqueued(entered, dist, next, queue[1..])
  {
  }

  /** The cells an expansion discovers enter the queue, none of them for the second time. */
  lemma EnqueuedGrow(entered: seq<Cell>, dist: map<Cell, nat>, polls: nat, queue: seq<Cell>, found: seq<Cell>, level: nat)
    requires Enqueued(entered, dist, polls, queue)
    requires Distinct(found) && forall n :: n in found ==> n !in dist
    ensures Enqueued(entered + found, Grow(dist, found, level), polls, queue + found)
  {
    DistinctAppend(entered, found);
  }

  /** No more cells are polled than entered, and no more entered than the field has. */
  lemma EnqueuedBound(entered: seq<Cell>, dist: map<Cell, nat>, polls: nat, queue: seq<Cell>)
    requires Enqueued(entered, dist, polls, queue) && |dist| <= FieldWidth * FieldHeight
    ensures polls <= |entered| <= FieldWidth * FieldHeight
  {
    DistinctCardinality(entered);
    assert (set x | x in entered) == dist.Keys;
  }

  // ---------------------------------------------------------------------------
  // The search

  /** The neighbours among the first `k` moves that are on the field, unvisited and free. */
  function Discovered(c: Cell, obstacles: array2<bool>, visited: array2<bool>, k: nat): (r: seq<Cell>)
    requires k <= |MovementOffsets|
    requires FieldSized(obstacles) && FieldSized(visited)
    reads obstacles, visited
    ensures Distinct(r)
    ensures forall n :: n in r ==> InBounds(n) && !obstacles[n.x, n.y] && !visited[n.x, n.y] && Adjacent(c, n)
    ensures forall j :: (0 <= j < k && InBounds(Step(c, j)) && !visited[Step(c, j).x, Step(c, j).y]
                         && !obstacles[Step(c, j).x, Step(c, j).y]) ==> Step(c, j) in r
    ensures forall j :: k <= j < |MovementOffsets| ==> Step(c, j) !in r
  {
    if k == 0 then []
    else
      var prev := Discovered(c, obstacles, visited, k - 1);
      var n := Step(c, k - 1);
      StepsAreTheEightMoves(c, n);
      assert forall j :: k <= j < |MovementOffsets| ==> Step(c, j) != n by {
        forall j | k <= j < |MovementOffsets| ensures Step(c, j) != n { StepsDistinct(c, k - 1, j); }
      }
      if InBounds(n) && !visited[n.x, n.y] && !obstacles[n.x, n.y] then prev + [n] else prev
  }

  /** The cells one expansion of `u` discovers are exactly its open neighbours not yet found. */
  lemma DiscoveredAreFound(u: Cell, obstacles: array2<bool>, visited: array2<bool>, walls: set<Cell>, dist: map<Cell, nat>)
    requires FieldSized(obstacles) && FieldSized(visited)
    requires forall x, y {:trigger obstacles[x, y]} :: 0 <= x < FieldWidth && 0 <= y < FieldHeight ==> (obstacles[x, y] <==> Cell(x, y) in walls)
    requires forall x, y {:trigger visited[x, y]} :: 0 <= x < FieldWidth && 0 <= y < FieldHeight ==> (visited[x, y] <==> Cell(x, y) in dist)
    ensures FoundFacts(u, Discovered(u, obstacles, visited, |MovementOffsets|), dist, walls)
  {
    var found := Discovered(u, obstacles, visited, |MovementOffsets|);
    forall n | Adjacent(u, n) && Open(n, walls)
      ensures n in dist || n in found
    {
      StepsAreTheEightMoves(u, n);
      var k :| 0 <= k < |MovementOffsets| && n == Step(u, k);
      assert !obstacles[n.x, n.y];
    }
  }

  /** The visited and parent arrays hold exactly the found cells and their parents. */
  ghost predicate Mirrors(visited: array2<bool>, parent: array2<Option<Cell>>, dist: map<Cell, nat>, par: map<Cell, Cell>)
    requires FieldSized(visited) && FieldSized(parent)
    reads visited, parent
  {
    && (forall x, y {:trigger visited[x, y]} :: 0 <= x < FieldWidth && 0 <= y < FieldHeight ==>
          (visited[x, y] <==> Cell(x, y) in dist))
    && (forall x, y {:trigger parent[x, y]} :: 0 <= x < FieldWidth && 0 <= y < FieldHeight ==>
          parent[x, y] == if Cell(x, y) in par then Some(par[Cell(x, y)]) else None)
  }

  /** `Mirrors`, with the cells `found` so far added as children of `current`. */
  ghost predicate MirrorsPartly(visited: array2<bool>, parent: array2<Option<Cell>>, dist: map<Cell, nat>,
                                par: map<Cell, Cell>, found: seq<Cell>, current: Cell)
    requires FieldSized(visited) && FieldSized(parent)
    reads visited, parent
  {
    && (forall x, y {:trigger visited[x, y]} :: 0 <= x < FieldWidth && 0 <= y < FieldHeight ==>
          (visited[x, y] <==> Cell(x, y) in dist || Cell(x, y) in found))
    && (forall x, y {:trigger parent[x, y]} :: 0 <= x < FieldWidth && 0 <= y < FieldHeight ==>
          parent[x, y] == if Cell(x, y) in found then Some(current)
                          else if Cell(x, y) in par then Some(par[Cell(x, y)]) else None)
  }

  /**
   * Tries the eight moves from `current` in order; each cell on the field that
   * is neither visited nor an obstacle is marked visited, gets `current` as its
   * parent and joins the queue.  `dist` and `par` are the search's view of the
   * two arrays before the call, and `level` the level of the new cells.
   */
  method ExploreNeighbors(current: Cell, obstacles: array2<bool>, visited: array2<bool>,
                          parent: array2<Option<Cell>>, queue: seq<Cell>,
                          ghost dist: map<Cell, nat>, ghost par: map<Cell, Cell>, ghost level: nat)
    returns (queue': seq<Cell>)
    requires FieldSized(obstacles) && FieldSized(visited) && FieldSized(parent)
    requires obstacles != visited
    requires Mirrors(visited, parent, dist, par)
    modifies visited, parent
    ensures queue' == queue + old(Discovered(current, obstacles, visited, |MovementOffsets|))
    ensures Mirrors(visited, parent,
                    Grow(dist, old(Discovered(current, obstacles, visited, |MovementOffsets|)), level),
                    Adopt(par, old(Discovered(current, obstacles, visited, |MovementOffsets|)), current))
  {
    queue' := queue;
    ghost var found: seq<Cell> := [];
    for k := 0 to |MovementOffsets|
      invariant found == old(Discovered(current, obstacles, visited, k))
      invariant queue' == queue + found
      invariant MirrorsPartly(visited, parent, dist, par, found, current)
    {
      var nextX := current.x + MovementOffsets[k].0;
      var nextY := current.y + MovementOffsets[k].1;
      var next := Cell(nextX, nextY);
      assert next == Step(current, k);
      if InBounds(next) {
        assert next !in found;
        assert visited[nextX, nextY] == old(visited[nextX, nextY]);
      }
      if InBounds(next) && !visited[nextX, nextY] && !obstacles[nextX, nextY] {
        visited[nextX, nextY] := true;
        parent[nextX, nextY] := Some(current);
        queue' := queue' + [next];
        found := found + [next];
      }
    }
  }

  /**
   * The search loop of `findRoute`: breadth-first search from `src` until the
   * queue is exhausted or `dst` is polled.  `visited` and `parent` then record
   * the levels and the parent tree of the found cells; `entered` is every cell
   * ever put on the queue and `polls` the number of cells taken off it.
   */
  method Search(src: Cell, dst: Cell, obstacles: array2<bool>, parent: array2<Option<Cell>>, ghost walls: set<Cell>)
    returns (visited: array2<bool>, ghost dist: map<Cell, nat>, ghost par: map<Cell, Cell>,
             ghost entered: seq<Cell>, ghost polls: nat)
    requires FieldSized(obstacles) && FieldSized(parent)
    requires InBounds(src)
    requires forall x, y {:trigger obstacles[x, y]} :: 0 <= x < FieldWidth && 0 <= y < FieldHeight ==> (obstacles[x, y] <==> Cell(x, y) in walls)
    requires src !in walls
    requires forall x, y {:trigger parent[x, y]} :: 0 <= x < FieldWidth && 0 <= y < FieldHeight ==> parent[x, y] == None
    modifies parent
    ensures fresh(visited) && FieldSized(visited)
    ensures Mirrors(visited, parent, dist, par)
    ensures ParentTree(src, walls, dist, par) && ExactLevels(src, walls, dist)
    ensures dst !in dist ==> Expanded(walls, dist, [])
    ensures entered != [] && entered[0] == src && Distinct(entered)
    ensures forall c :: c in entered <==> c in dist
    ensures polls <= |entered| <= FieldWidth * FieldHeight
  {
    var queue := [src];
    entered, polls := [src], 0;
    visited := new bool[FieldWidth, FieldHeight]((_, _) => false);
    visited[src.x, src.y] := true;
    dist, par := map[src := 0], map[];

    while queue != []
      invariant FieldSized(visited)
      invariant Mirrors(visited, parent, dist, par)
      invariant SearchInvariant(src, walls, dist, par, queue)
      invariant |dist| <= FieldWidth * FieldHeight
      invariant Enqueued(entered, dist, polls, queue) && entered[0] == src
      decreases FieldWidth * FieldHeight - |dist|, |queue|
    {
      var current := queue[0];
      ghost var queue0 := queue;
      ghost var polled := polls + 1;
      EnqueuedPoll(entered, dist, polls, queue, polled);
      queue, polls := queue[1..], polled;
      if current == dst {
        break;
      }
      ghost var found := Discovered(current, obstacles, visited, |MovementOffsets|);
      ghost var level := dist[current] + 1;
      assert queue0 == [current] + queue;
      DiscoveredAreFound(current, obstacles, visited, walls, dist);
      ExpandStep(src, walls, dist, par, queue0, current, queue, found, level);
      GrowCount(walls, dist, found, level);
      EnqueuedGrow(entered, dist, polls, queue, found, level);
      queue := ExploreNeighbors(current, obstacles, visited, parent, queue, dist, par, level);
      dist, par := Grow(dist, found, level), Adopt(par, found, current);
      entered := entered + found;
    }
    EnqueuedBound(entered, dist, polls, queue);
  }

  /**
   * `findRoute`: breadth-first search from `src`; `parent` records the tree
   * it builds and the route to `dst` is read off that tree.  `walls` names the
   * cells the obstacle map marks.
   */
  method FindRoute(src: Cell, dst: Cell, obstacles: array2<bool>, parent: array2<Option<Cell>>, ghost walls: set<Cell>)
    returns (route: seq<Cell>, ghost entered: seq<Cell>, ghost polls: nat)
    requires FieldSized(obstacles) && FieldSized(parent)
    requires InBounds(src) && InBounds(dst)
    requires forall x, y {:trigger obstacles[x, y]} :: 0 <= x < FieldWidth && 0 <= y < FieldHeight ==> (obstacles[x, y] <==> Cell(x, y) in walls)
    requires src !in walls
    requires forall x, y {:trigger parent[x, y]} :: 0 <= x < FieldWidth && 0 <= y < FieldHeight ==> parent[x, y] == None
    modifies parent
    ensures route == [] <==> !Reachable(src, dst, walls)
    ensures route != [] ==> IsShortestRoute(route, src, dst, walls)
    ensures entered != [] && entered[0] == src && Distinct(entered)
    ensures forall c :: c in entered ==> Reachable(src, c, walls)
    ensures polls <= |entered| <= FieldWidth * FieldHeight
  {
    var visited: array2<bool>;
    ghost var dist: map<Cell, nat>, par: map<Cell, Cell>;
    visited, dist, par, entered, polls := Search(src, dst, obstacles, parent, walls);
    FoundReachable(src, walls, dist, par);
    if visited[dst.x, dst.y] {
      route := ReconstructPath(dst, parent, src, walls, dist, par);
      LevelRouteIsShortest(src, dst, walls, dist, route);
    } else {
      ClosedSearchReach(src, walls, dist, dst);
      route := [];
    }
  }

  /** Follows parent links from `dst` back to the source, then reverses the list. */
  method ReconstructPath(dst: Cell, parent: array2<Option<Cell>>, ghost src: Cell, ghost walls: set<Cell>,
                         ghost dist: map<Cell, nat>, ghost par: map<Cell, Cell>) returns (path: seq<Cell>)
    requires FieldSized(parent)
    requires ParentTree(src, walls, dist, par) && dst in dist
    requires forall x, y {:trigger parent[x, y]} :: 0 <= x < FieldWidth && 0 <= y < FieldHeight ==>
               parent[x, y] == if Cell(x, y) in par then Some(par[Cell(x, y)]) else None
    ensures IsRoute(path, src, dst, walls) && |path| == dist[dst] + 1
  {
    var reversed: seq<Cell> := [];
    var current: Option<Cell> := Some(dst);
    while current != None
      invariant current.Some? ==> current.value in dist && reversed + Lineage(src, walls, dist, par, current.value) == Lineage(src, walls, dist, par, dst)
      invariant current.None? ==> reversed == Lineage(src, walls, dist, par, dst)
      decreases if current.Some? then dist[current.value] + 1 else 0
    {
      var c := current.value;
      ghost var before := reversed;
      reversed := reversed + [c];
      assert Open(c, walls);
      current := parent[c.x, c.y];
      if c in par {
        assert Lineage(src, walls, dist, par, c) == [c] + Lineage(src, walls, dist, par, par[c]);
        assert reversed + Lineage(src, walls, dist, par, par[c]) == before + Lineage(src, walls, dist, par, c);
      } else {
        assert current == None && Lineage(src, walls, dist, par, c) == [c];
      }
    }
    path := Reverse(reversed);
    LineageRoute(src, walls, dist, par, dst);
  }

  /** The chain of parent links from `c` back to the source: `c`, its parent, its parent's parent, and so on. */
  ghost function Lineage(src: Cell, walls: set<Cell>, dist: map<Cell, nat>, par: map<Cell, Cell>, c: Cell): (r: seq<Cell>)
    requires ParentTree(src, walls, dist, par) && c in dist
    ensures |r| == dist[c] + 1 && r[0] == c
    decreases dist[c]
  {
    if c in par then [c] + Lineage(src, walls, dist, par, par[c]) else [c]
  }

  /** The lineage of a found cell ends at the source and steps one move at a time. */
  lemma {:induction false} LineageIsChain(src: Cell, walls: set<Cell>, dist: map<Cell, nat>, par: map<Cell, Cell>, c: Cell)
    requires ParentTree(src, walls, dist, par) && c in dist
    ensures var r := Lineage(src, walls, dist, par, c);
      && r[|r| - 1] == src
      && (forall i :: 0 <= i < |r| ==> r[i] in dist)
      && (forall i :: 0 <= i < |r| - 1 ==> Adjacent(r[i + 1], r[i]))
    decreases dist[c]
  {
    var r := Lineage(src, walls, dist, par, c);
    if c in par {
      var rest := Lineage(src, walls, dist, par, par[c]);
      LineageIsChain(src, walls, dist, par, par[c]);
      assert r == [c] + rest;
      assert forall i :: 0 < i < |r| ==> r[i] == rest[i - 1];
    }
  }

  /** The lineage of a found cell, reversed, is a route from the source to that cell. */
  lemma LineageRoute(src: Cell, walls: set<Cell>, dist: map<Cell, nat>, par: map<Cell, Cell>, c: Cell)
    requires ParentTree(src, walls, dist, par) && c in dist
    ensures IsRoute(Reverse(Lineage(src, walls, dist, par, c)), src, c, walls)
  {
    LineageIsChain(src, walls, dist, par, c);
    BackChainReversed(Lineage(src, walls, dist, par, c), src, c, walls, dist);
  }

  /** Every found cell is reachable from the source: its lineage, reversed, is a route. */
  lemma FoundReachable(src: Cell, walls: set<Cell>, dist: map<Cell, nat>, par: map<Cell, Cell>)
    requires ParentTree(src, walls, dist, par)
    ensures forall c :: c in dist ==> Reachable(src, c, walls)
  {
    forall c | c in dist
      ensures Reachable(src, c, walls)
    {
      LineageRoute(src, walls, dist, par, c);
    }
  }

  /** A chain of parent links from `dst` back to `src`, reversed, is a route from `src` to `dst`. */
  lemma BackChainReversed(back: seq<Cell>, src: Cell, dst: Cell, walls: set<Cell>, dist: map<Cell, nat>)
    requires back != [] && back[0] == dst && back[|back| - 1] == src
    requires forall c :: c in dist ==> Open(c, walls)
    requires forall i :: 0 <= i < |back| ==> back[i] in dist
    requires forall i :: 0 <= i < |back| - 1 ==> Adjacent(back[i + 1], back[i])
    ensures IsRoute(Reverse(back), src, dst, walls)
  {
    var path := Reverse(back);
    forall i | 0 <= i < |path| - 1
      ensures Adjacent(path[i], path[i + 1])
    {
      var j := |back| - 2 - i;
      assert path[i] == back[j + 1] && path[i + 1] == back[j];
    }
  }

  /** From an open cell to itself the only shortest route is that single cell. */
  lemma StandingOnTarget(c: Cell, walls: set<Cell>, p: seq<Cell>)
    requires Open(c, walls)
    requires p == [] <==> !Reachable(c, c, walls)
    requires p != [] ==> IsShortestRoute(p, c, c, walls)
    ensures p == [c]
  {
    assert IsRoute([c], c, c, walls);
  }

  /**
   * The route from the attacker's cell to the target's cell avoiding every
   * other living unit, with the fewest moves; empty when there is none.
   */
  method GetTargetPath(attacker: Unit, target: Unit, units: seq<Unit>) returns (path: seq<Cell>)
    requires forall i :: 0 <= i < |units| && Alive(units[i]) ==> InBounds(Pos(units[i]))
    requires InBounds(Pos(attacker)) && InBounds(Pos(target))
    ensures path == [] <==> !Reachable(Pos(attacker), Pos(target), ObstacleCells(units, attacker, target))
    ensures path != [] ==> IsShortestRoute(path, Pos(attacker), Pos(target), ObstacleCells(units, attacker, target))
    ensures Pos(attacker) == Pos(target) ==> path == [Pos(attacker)]
  {
    var obstacles := CreateObstacleMap(units, attacker, target);
    var parent := new Option<Cell>[FieldWidth, FieldHeight]((_, _) => None);
    ghost var entered: seq<Cell>, polls: nat;
    path, entered, polls := FindRoute(Pos(attacker), Pos(target), obstacles, parent, ObstacleCells(units, attacker, target));
    if Pos(attacker) == Pos(target) {
      StandingOnTarget(Pos(attacker), ObstacleCells(units, attacker, target), path);
    }
  }
}
