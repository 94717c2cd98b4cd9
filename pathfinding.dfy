/** Enemy pursuit pathfinding: breadth-first search over open cells. */
module Pathfinding {
  import opened Grid

  /** The fixed neighbour order of the search. */
  const NEIGHBOURS: seq<Cell> := [(0, 1), (1, 0), (0, -1), (-1, 0)]

  function Step(c: Cell, d: Cell): Cell {
    (c.0 + d.0, c.1 + d.1)
  }

  function AllCells(): set<Cell> {
    set x, y | 0 <= x < COLS && 0 <= y < ROWS :: (x, y)
  }

  /** A queue entry: a cell and the path that led to it. */
  type Entry = (Cell, seq<Cell>)

  function QueueCells(q: seq<Entry>): set<Cell> {
    set j | 0 <= j < |q| :: q[j].0
  }

  /** The start entry, or an entry whose path is a walk from the start to its cell. */
  ghost predicate EntryOk(g: Maze, start: Cell, e: Entry)
    requires WellFormed(g)
  {
    (e.0 == start && e.1 == []) || IsWalk(g, start, e.0, e.1)
  }

  /** Every open neighbour of an expanded cell has been seen, at most one step further out. */
  ghost predicate Closed(g: Maze, expanded: set<Cell>, dist: map<Cell, nat>)
    requires WellFormed(g)
  {
    forall e, n | e in expanded && IsOpen(g, n) && Adjacent(e, n) ::
      e in dist && n in dist && dist[n] <= dist[e] + 1
  }

  /** Queue entries in non-decreasing path length, no entry more than one longer than the head. */
  ghost predicate Layered(queue: seq<Entry>) {
    && (forall i, j | 0 <= i <= j < |queue| :: |queue[i].1| <= |queue[j].1|)
    && (forall j | 0 <= j < |queue| :: |queue[j].1| <= |queue[0].1| + 1)
  }

  /** The outer loop's invariant. `expanded` holds the cells already popped and
      expanded, `dist` the length of the path each seen cell was queued with
      (0 for the start, which the search never marks visited). */
  ghost predicate SearchInv(g: Maze, start: Cell, goal: Cell, queue: seq<Entry>, visited: set<Cell>,
                            expanded: set<Cell>, dist: map<Cell, nat>)
    requires WellFormed(g)
  {
    && visited <= AllCells()
    && dist.Keys == visited + {start} && dist[start] == 0
    && expanded <= dist.Keys
    && goal !in expanded
    && (start in expanded || (queue == [(start, [])] && expanded == {}))
    && (forall j | 0 <= j < |queue| ::
          EntryOk(g, start, queue[j]) && queue[j].0 in dist &&
          (queue[j].0 !in expanded ==> dist[queue[j].0] == |queue[j].1|))
    && Layered(queue)
    && (forall c | c in dist :: c in expanded || c in QueueCells(queue))
    && Closed(g, expanded, dist)
    && (queue != [] ==> forall e | e in expanded :: dist[e] <= |queue[0].1|)
  }

  /** The inner loop's invariant while the neighbours of the popped entry
      (c, p) are tried: `rest` is the queue just after the pop, and
      `visited0`, `dist0` the state at the pop. */
  ghost predicate ExpandInv(g: Maze, start: Cell, goal: Cell, c: Cell, p: seq<Cell>, rest: seq<Entry>,
                            visited0: set<Cell>, dist0: map<Cell, nat>, expanded: set<Cell>,
                            queue: seq<Entry>, visited: set<Cell>, dist: map<Cell, nat>, k: int)
    requires WellFormed(g)
  {
    && 0 <= k <= |NEIGHBOURS|
    && ExpandFixed(g, start, goal, c, p, expanded, dist0)
    && ExpandSets(start, rest, visited0, dist0, queue, visited, dist)
    && ExpandQueue(g, start, p, expanded, queue, dist)
    && ExpandCover(c, expanded, queue, dist)
    && ExpandTried(g, c, dist, k)
  }

  /** What holds of the popped entry and the search state at the pop. */
  ghost predicate ExpandFixed(g: Maze, start: Cell, goal: Cell, c: Cell, p: seq<Cell>,
                              expanded: set<Cell>, dist0: map<Cell, nat>)
    requires WellFormed(g)
  {
    && c != goal && goal !in expanded && expanded <= dist0.Keys
    && EntryOk(g, start, (c, p)) && c in dist0
    && (c !in expanded ==> dist0[c] == |p|)
    && start in expanded + {c}
    && Closed(g, expanded, dist0)
    && (forall e | e in expanded :: dist0[e] <= |p|)
  }

  /** The seen cells and their distances only grow. */
  ghost predicate ExpandSets(start: Cell, rest: seq<Entry>, visited0: set<Cell>, dist0: map<Cell, nat>,
                             queue: seq<Entry>, visited: set<Cell>, dist: map<Cell, nat>)
  {
    && visited0 <= visited <= AllCells()
    && (visited == visited0 ==> queue == rest)
    && dist.Keys == visited + {start} && dist[start] == 0
    && (forall d | d in dist0 :: d in dist && dist[d] == dist0[d])
  }

  /** The queue holds walks, layered between |p| and |p| + 1. */
  ghost predicate ExpandQueue(g: Maze, start: Cell, p: seq<Cell>, expanded: set<Cell>,
                              queue: seq<Entry>, dist: map<Cell, nat>)
    requires WellFormed(g)
  {
    && (forall j | 0 <= j < |queue| ::
          EntryOk(g, start, queue[j]) && queue[j].0 in dist &&
          (queue[j].0 !in expanded ==> dist[queue[j].0] == |queue[j].1|))
    && (forall i, j | 0 <= i <= j < |queue| :: |queue[i].1| <= |queue[j].1|)
    && (forall j | 0 <= j < |queue| :: |p| <= |queue[j].1| <= |p| + 1)
  }

  /** Every seen cell is expanded, queued, or the cell being expanded. */
  ghost predicate ExpandCover(c: Cell, expanded: set<Cell>, queue: seq<Entry>, dist: map<Cell, nat>) {
    forall d | d in dist :: d in expanded || d in QueueCells(queue) || d == c
  }

  /** The first k neighbours of c are seen, at most one step beyond c. */
  ghost predicate ExpandTried(g: Maze, c: Cell, dist: map<Cell, nat>, k: int)
    requires WellFormed(g)
  {
    && c in dist
    && forall j | 0 <= j < k && j < |NEIGHBOURS| :: IsOpen(g, Step(c, NEIGHBOURS[j])) ==>
         Step(c, NEIGHBOURS[j]) in dist && dist[Step(c, NEIGHBOURS[j])] <= dist[c] + 1
  }

  /** What a search result promises: [] exactly when there is nothing to
      walk (same cell, or no walk), otherwise a walk of the fewest steps. */
  ghost predicate ShortestRoute(g: Maze, start: Cell, goal: Cell, path: seq<Cell>)
    requires WellFormed(g)
  {
    && (start == goal ==> path == [])
    && (path == [] ==> start == goal || forall p :: !IsWalk(g, start, goal, p))
    && (path != [] ==> IsWalk(g, start, goal, path))
    && (forall p | IsWalk(g, start, goal, p) :: |path| <= |p|)
  }

  /** Enemy.bfs(start, goal): the path from `start` (excluded) to `goal`
      (included) with the fewest steps over in-bounds open cells, or [] when
      start == goal or no such path exists. */
  method Bfs(g: Maze, start: Cell, goal: Cell) returns (path: seq<Cell>)
    requires WellFormed(g)
    ensures start == goal ==> path == []
    ensures path == [] ==> start == goal || forall p :: !IsWalk(g, start, goal, p)
    ensures path != [] ==> IsWalk(g, start, goal, path)
    ensures forall p | IsWalk(g, start, goal, p) :: |path| <= |p|
  {
    var queue: seq<Entry> := [(start, [])];
    var visited: set<Cell> := {};
    ghost var expanded: set<Cell> := {};
    ghost var dist: map<Cell, nat> := map[start := 0];
    assert start in QueueCells(queue) by { assert queue[0].0 == start; }
    while queue != []
      invariant SearchInv(g, start, goal, queue, visited, expanded, dist)
      decreases AllCells() - visited, |queue|
    {
      var c, p := queue[0].0, queue[0].1;
      if c == goal {
        HeadIsShortest(g, start, goal, queue, visited, expanded, dist);
        return p;
      }
      ghost var before, visited0, dist0 := queue, visited, dist;
      queue := queue[1..];
      ghost var rest := queue;
      StartExpand(g, start, goal, before, visited, expanded, dist);
      for k := 0 to |NEIGHBOURS|
        invariant ExpandInv(g, start, goal, c, p, rest, visited0, dist0, expanded, queue, visited, dist, k)
      {
        var n := Step(c, NEIGHBOURS[k]);
        ghost var q1, v1, d1 := queue, visited, dist;
        if 0 <= n.0 < COLS && 0 <= n.1 < ROWS && g[n.1][n.0] == OPEN && n !in visited {
          queue := queue + [(n, p + [n])];
          visited := visited + {n};
          if n != start {
            dist := dist[n := |p| + 1];
          }
        }
        ExpandStep(g, start, goal, c, p, rest, visited0, dist0, expanded, q1, v1, d1, k, queue, visited, dist);
      }
      FinishExpand(g, start, goal, c, p, rest, visited0, dist0, expanded, queue, visited, dist);
      expanded := expanded + {c};
    }
    forall w | IsWalk(g, start, goal, w) ensures false {
      WalkStaysSeen(g, start, w, expanded, dist, |w|);
    }
    return [];
  }

  lemma StartExpand(g: Maze, start: Cell, goal: Cell, queue: seq<Entry>, visited: set<Cell>,
                    expanded: set<Cell>, dist: map<Cell, nat>)
    requires WellFormed(g)
    requires SearchInv(g, start, goal, queue, visited, expanded, dist)
    requires queue != [] && queue[0].0 != goal
    ensures ExpandInv(g, start, goal, queue[0].0, queue[0].1, queue[1..], visited, dist, expanded,
                      queue[1..], visited, dist, 0)
  {
    var c, p, rest := queue[0].0, queue[0].1, queue[1..];
    assert EntryOk(g, start, queue[0]);
    forall j | 0 <= j < |rest| ensures |p| <= |rest[j].1| <= |p| + 1 {
      assert rest[j] == queue[j + 1];
    }
    forall d | d in dist ensures d in expanded || d in QueueCells(rest) || d == c {
      if d !in expanded {
        assert d in QueueCells(queue);
        var j :| 0 <= j < |queue| && queue[j].0 == d;
        if j > 0 { assert rest[j - 1].0 == d; }
      }
    }
  }

  /** One neighbour tried: the inner invariant advances from k to k + 1. */
  lemma ExpandStep(g: Maze, start: Cell, goal: Cell, c: Cell, p: seq<Cell>, rest: seq<Entry>,
                   visited0: set<Cell>, dist0: map<Cell, nat>, expanded: set<Cell>,
                   q1: seq<Entry>, v1: set<Cell>, d1: map<Cell, nat>, k: int,
                   queue: seq<Entry>, visited: set<Cell>, dist: map<Cell, nat>)
    requires WellFormed(g)
    requires ExpandInv(g, start, goal, c, p, rest, visited0, dist0, expanded, q1, v1, d1, k)
    requires k < |NEIGHBOURS|
    requires var n := Step(c, NEIGHBOURS[k]);
      if IsOpen(g, n) && n !in v1 then
        queue == q1 + [(n, p + [n])] && visited == v1 + {n} &&
        dist == (if n != start then d1[n := |p| + 1] else d1)
      else
        queue == q1 && visited == v1 && dist == d1
    ensures ExpandInv(g, start, goal, c, p, rest, visited0, dist0, expanded, queue, visited, dist, k + 1)
  {
    var n := Step(c, NEIGHBOURS[k]);
    if IsOpen(g, n) && n !in v1 {
      ExpandPush(g, start, goal, c, p, rest, visited0, dist0, expanded, q1, v1, d1, k, queue, visited, dist);
    } else {
      if IsOpen(g, n) {
        SeenNeighbour(g, start, goal, c, p, expanded, dist0, q1, d1, n);
      }
      assert ExpandTried(g, c, dist, k + 1);
    }
  }

  /** An open neighbour already seen is at most one step beyond c. */
  lemma SeenNeighbour(g: Maze, start: Cell, goal: Cell, c: Cell, p: seq<Cell>, expanded: set<Cell>,
                      dist0: map<Cell, nat>, q1: seq<Entry>, d1: map<Cell, nat>, n: Cell)
    requires WellFormed(g)
    requires ExpandFixed(g, start, goal, c, p, expanded, dist0)
    requires forall d | d in dist0 :: d in d1 && d1[d] == dist0[d]
    requires ExpandQueue(g, start, p, expanded, q1, d1)
    requires ExpandCover(c, expanded, q1, d1)
    requires IsOpen(g, n) && Adjacent(c, n) && n in d1
    ensures c in d1 && d1[n] <= d1[c] + 1
  {
    if c in expanded {
      assert n in dist0;
    } else if n in expanded {
      assert d1[n] <= |p|;
    } else if n != c {
      assert n in QueueCells(q1);
      var j :| 0 <= j < |q1| && q1[j].0 == n;
    }
  }

  lemma ExpandPush(g: Maze, start: Cell, goal: Cell, c: Cell, p: seq<Cell>, rest: seq<Entry>,
                   visited0: set<Cell>, dist0: map<Cell, nat>, expanded: set<Cell>,
                   q1: seq<Entry>, v1: set<Cell>, d1: map<Cell, nat>, k: int,
                   queue: seq<Entry>, visited: set<Cell>, dist: map<Cell, nat>)
    requires WellFormed(g)
    requires ExpandInv(g, start, goal, c, p, rest, visited0, dist0, expanded, q1, v1, d1, k)
    requires k < |NEIGHBOURS|
    requires var n := Step(c, NEIGHBOURS[k]);
      IsOpen(g, n) && n !in v1 &&
      queue == q1 + [(n, p + [n])] && visited == v1 + {n} &&
      dist == (if n != start then d1[n := |p| + 1] else d1)
    ensures ExpandInv(g, start, goal, c, p, rest, visited0, dist0, expanded, queue, visited, dist, k + 1)
  {
    var n := Step(c, NEIGHBOURS[k]);
    assert Adjacent(c, n);
    assert n == start ==> start in expanded;
    PushSets(start, rest, visited0, dist0, q1, v1, d1, n, |p| + 1, queue, visited, dist);
    PushQueue(g, start, c, p, expanded, q1, d1, n, queue, dist);
    PushCover(c, expanded, q1, d1, n, queue, dist);
    assert c in expanded ==> n in dist0;
    PushTried(g, start, c, |p|, d1, k, n, dist);
  }

  /** Marking a new cell seen keeps the bookkeeping of the search. */
  lemma PushSets(start: Cell, rest: seq<Entry>, visited0: set<Cell>, dist0: map<Cell, nat>,
                 q1: seq<Entry>, v1: set<Cell>, d1: map<Cell, nat>, n: Cell, len: nat,
                 queue: seq<Entry>, visited: set<Cell>, dist: map<Cell, nat>)
    requires ExpandSets(start, rest, visited0, dist0, q1, v1, d1)
    requires n !in v1 && InBounds(n)
    requires visited == v1 + {n} && dist == (if n != start then d1[n := len] else d1)
    ensures ExpandSets(start, rest, visited0, dist0, queue, visited, dist)
  {
    assert n in AllCells() by {
      assert n == (n.0, n.1);
    }
    assert n != start ==> n !in d1;
  }

  /** The k-th neighbour n of c, once seen, is at most one step beyond c. */
  lemma PushTried(g: Maze, start: Cell, c: Cell, len: nat, d1: map<Cell, nat>, k: int, n: Cell,
                  dist: map<Cell, nat>)
    requires WellFormed(g)
    requires ExpandTried(g, c, d1, k) && 0 <= k < |NEIGHBOURS| && n == Step(c, NEIGHBOURS[k]) && n != c
    requires n != start ==> d1[c] == len && dist == d1[n := len + 1]
    requires n == start ==> dist == d1 && start in d1 && d1[start] == 0
    ensures ExpandTried(g, c, dist, k + 1)
  {
  }

  lemma PushQueue(g: Maze, start: Cell, c: Cell, p: seq<Cell>, expanded: set<Cell>,
                  q1: seq<Entry>, d1: map<Cell, nat>, n: Cell, queue: seq<Entry>, dist: map<Cell, nat>)
    requires WellFormed(g)
    requires ExpandQueue(g, start, p, expanded, q1, d1)
    requires EntryOk(g, start, (c, p)) && IsOpen(g, n) && Adjacent(c, n)
    requires queue == q1 + [(n, p + [n])]
    requires forall d | d in d1 :: d in dist && dist[d] == d1[d]
    requires n in dist && (n !in expanded ==> dist[n] == |p| + 1)
    ensures ExpandQueue(g, start, p, expanded, queue, dist)
  {
    EntryExtends(g, start, c, p, n);
    forall j | 0 <= j < |queue| ensures
      EntryOk(g, start, queue[j]) && queue[j].0 in dist &&
      (queue[j].0 !in expanded ==> dist[queue[j].0] == |queue[j].1|)
    {
      if j < |q1| { assert queue[j] == q1[j]; }
    }
  }

  lemma PushCover(c: Cell, expanded: set<Cell>, q1: seq<Entry>, d1: map<Cell, nat>, n: Cell,
                  queue: seq<Entry>, dist: map<Cell, nat>)
    requires ExpandCover(c, expanded, q1, d1)
    requires |queue| > 0 && queue[..|queue| - 1] == q1 && queue[|queue| - 1].0 == n
    requires dist.Keys <= d1.Keys + {n}
    ensures ExpandCover(c, expanded, queue, dist)
  {
    forall d | d in dist ensures d in expanded || d in QueueCells(queue) || d == c {
      if d == n {
        assert queue[|queue| - 1].0 == n;
      } else if d !in expanded && d != c {
        assert d in QueueCells(q1);
        var j :| 0 <= j < |q1| && q1[j].0 == d;
        assert queue[j] == q1[j];
      }
    }
  }

  lemma FinishExpand(g: Maze, start: Cell, goal: Cell, c: Cell, p: seq<Cell>, rest: seq<Entry>,
                     visited0: set<Cell>, dist0: map<Cell, nat>, expanded: set<Cell>,
                     queue: seq<Entry>, visited: set<Cell>, dist: map<Cell, nat>)
    requires WellFormed(g)
    requires ExpandInv(g, start, goal, c, p, rest, visited0, dist0, expanded, queue, visited, dist, |NEIGHBOURS|)
    ensures SearchInv(g, start, goal, queue, visited, expanded + {c}, dist)
    ensures visited == visited0 ==> queue == rest
    ensures visited != visited0 ==> AllCells() - visited < AllCells() - visited0
  {
    assert Closed(g, expanded, dist) by {
      forall e, n | e in expanded && IsOpen(g, n) && Adjacent(e, n) ensures e in dist && n in dist && dist[n] <= dist[e] + 1 {
        assert n in dist0;
      }
    }
    NeighboursCovered(g, c, expanded, dist);
    forall e | e in expanded + {c} ensures queue != [] ==> dist[e] <= |queue[0].1| {
      if queue != [] {
        assert |p| <= |queue[0].1|;
      }
    }
    if visited != visited0 {
      var n :| n in visited && n !in visited0;
      assert n in AllCells() - visited0 && n !in AllCells() - visited;
    }
  }

  lemma EntryExtends(g: Maze, start: Cell, c: Cell, p: seq<Cell>, n: Cell)
    requires WellFormed(g)
    requires EntryOk(g, start, (c, p))
    requires IsOpen(g, n) && Adjacent(c, n)
    ensures EntryOk(g, start, (n, p + [n]))
  {
    WalkExtend(g, start, c, p, n);
  }

  /** Every open neighbour of c is one of the four cells the search tries, so
      expanding c closes it. */
  lemma NeighboursCovered(g: Maze, c: Cell, expanded: set<Cell>, dist: map<Cell, nat>)
    requires WellFormed(g)
    requires Closed(g, expanded, dist)
    requires c in dist
    requires forall j | 0 <= j < |NEIGHBOURS| :: IsOpen(g, Step(c, NEIGHBOURS[j])) ==>
      Step(c, NEIGHBOURS[j]) in dist && dist[Step(c, NEIGHBOURS[j])] <= dist[c] + 1
    ensures Closed(g, expanded + {c}, dist)
  {
    forall n | IsOpen(g, n) && Adjacent(c, n) ensures n in dist && dist[n] <= dist[c] + 1 {
      assert n == Step(c, NEIGHBOURS[0]) || n == Step(c, NEIGHBOURS[1]) ||
             n == Step(c, NEIGHBOURS[2]) || n == Step(c, NEIGHBOURS[3]);
    }
  }

  /** A walk no longer than L from the start only meets seen cells, each queued
      with a path no longer than its position in the walk. */
  lemma {:induction false} WalkStaysSeen(g: Maze, start: Cell, w: seq<Cell>, expanded: set<Cell>, dist: map<Cell, nat>, L: nat)
    requires WellFormed(g)
    requires Closed(g, expanded, dist)
    requires start in expanded && start in dist && dist[start] == 0
    requires forall d | d in dist && d !in expanded :: dist[d] >= L
    requires IsWalkFrom(g, start, w) && 0 < |w| <= L
    ensures w[|w| - 1] in dist && dist[w[|w| - 1]] <= |w|
    decreases |w|
  {
    if |w| > 1 {
      var w' := w[..|w| - 1];
      assert IsWalkFrom(g, start, w') by {
        forall i | 0 <= i < |w'| - 1 ensures Adjacent(w'[i], w'[i + 1]) {
          assert w'[i] == w[i] && w'[i + 1] == w[i + 1];
        }
      }
      WalkStaysSeen(g, start, w', expanded, dist, L);
      var u := w'[|w'| - 1];
      assert u == w[|w| - 2];
      assert Adjacent(u, w[|w| - 1]);
      assert IsOpen(g, w[|w| - 1]);
    } else {
      assert Adjacent(start, w[0]) && IsOpen(g, w[0]);
    }
  }

  /** When the goal reaches the head of the queue, its path is a shortest walk. */
  lemma HeadIsShortest(g: Maze, start: Cell, goal: Cell, queue: seq<Entry>, visited: set<Cell>,
                       expanded: set<Cell>, dist: map<Cell, nat>)
    requires WellFormed(g)
    requires SearchInv(g, start, goal, queue, visited, expanded, dist)
    requires queue != [] && queue[0].0 == goal
    ensures start == goal ==> queue[0].1 == []
    ensures start != goal ==> IsWalk(g, start, goal, queue[0].1)
    ensures forall p | IsWalk(g, start, goal, p) :: |queue[0].1| <= |p|
  {
    var L := |queue[0].1|;
    assert EntryOk(g, start, queue[0]);
    if start != goal {
      assert start in expanded;
      assert dist[goal] == L;
      forall d | d in dist && d !in expanded ensures dist[d] >= L {
        assert d in QueueCells(queue);
        var j :| 0 <= j < |queue| && queue[j].0 == d;
      }
      forall w | IsWalk(g, start, goal, w) ensures L <= |w| {
        if |w| < L {
          WalkStaysSeen(g, start, w, expanded, dist, L);
        }
      }
    }
  }

  /** A shortest walk never returns to its start cell, so the path the search
      returns does not contain the start. */
  lemma {:induction false} ShortestAvoidsStart(g: Maze, start: Cell, goal: Cell, p: seq<Cell>)
    requires WellFormed(g)
    requires start != goal && IsWalk(g, start, goal, p)
    requires forall q | IsWalk(g, start, goal, q) :: |p| <= |q|
    ensures start !in p
  {
    if start in p {
      var i :| 0 <= i < |p| && p[i] == start;
      assert i < |p| - 1;
      var q := p[i + 1..];
      assert IsWalk(g, start, goal, q) by {
        assert q[0] == p[i + 1] && Adjacent(p[i], p[i + 1]);
        forall k | 0 <= k < |q| - 1 ensures Adjacent(q[k], q[k + 1]) {
          assert q[k] == p[i + 1 + k] && q[k + 1] == p[i + 2 + k];
        }
        forall k | 0 <= k < |q| ensures IsOpen(g, q[k]) {
          assert q[k] == p[i + 1 + k];
        }
      }
    }
  }
}
