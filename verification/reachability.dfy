/**
 * Reachability on the board: paths of unblocked one-cell steps, defined
 * inductively, and the breadth-first search that decides whether a pawn can
 * still reach a target row.
 */
module Reachability {
  import opened Board

  /** The set of all 81 cells of the board. */
  const Grid: set<Pos> := set x, y | 0 <= x < Size && 0 <= y < Size :: Pos(x, y)

  /** One edge of the search graph: a move to an adjacent on-board cell that no fence obstructs. */
  predicate Step(fences: seq<Fence>, a: Pos, b: Pos) {
    Adjacent(a, b) && InGrid(b) && !Blocked(fences, a, b)
  }

  /** `p` is a walk of steps starting at `start`. */
  ghost predicate IsPathFrom(fences: seq<Fence>, start: Pos, p: seq<Pos>) {
    |p| >= 1 && p[0] == start &&
    forall i :: 0 <= i < |p| - 1 ==> Step(fences, p[i], p[i + 1])
  }

  /** Some walk of steps leads from `start` to a cell of row `row`. */
  ghost predicate Reachable(fences: seq<Fence>, start: Pos, row: int) {
    exists p: seq<Pos> :: IsPathFrom(fences, start, p) && p[|p| - 1].y == row
  }

  /** The in-grid, unblocked neighbours of `c`, in the order right, left, down, up. */
  function Expand(fences: seq<Fence>, c: Pos): (r: seq<Pos>)
    ensures forall n :: n in r <==> Step(fences, c, n)
  {
    Keep(fences, c, Pos(c.x + 1, c.y)) + Keep(fences, c, Pos(c.x - 1, c.y)) +
    Keep(fences, c, Pos(c.x, c.y + 1)) + Keep(fences, c, Pos(c.x, c.y - 1))
  }

  function Keep(fences: seq<Fence>, c: Pos, n: Pos): seq<Pos> {
    if InGrid(n) && !Blocked(fences, c, n) then [n] else []
  }

  lemma GridMembers(p: Pos)
    ensures p in Grid <==> InGrid(p)
  {
    if InGrid(p) {
      assert p == Pos(p.x, p.y);
    }
  }

  lemma ExtendPath(fences: seq<Fence>, start: Pos, p: seq<Pos>, n: Pos)
    requires IsPathFrom(fences, start, p)
    requires Step(fences, p[|p| - 1], n)
    ensures IsPathFrom(fences, start, p + [n])
  {
    var q := p + [n];
    forall i | 0 <= i < |q| - 1
      ensures Step(fences, q[i], q[i + 1])
    {
      if i < |p| - 1 {
        assert q[i] == p[i] && q[i + 1] == p[i + 1];
      }
    }
  }

  /**
   * A set of cells containing `start` and closed under steps holds every
   * cell of every walk from `start`.
   */
  lemma {:induction false} ClosedRegionTraps(fences: seq<Fence>, start: Pos, region: set<Pos>, p: seq<Pos>)
    requires start in region
    requires forall v, n :: v in region && Step(fences, v, n) ==> n in region
    requires IsPathFrom(fences, start, p)
    ensures forall i :: 0 <= i < |p| ==> p[i] in region
  {
    if |p| > 1 {
      var q := p[..|p| - 1];
      assert IsPathFrom(fences, start, q) by {
        forall i | 0 <= i < |q| - 1
          ensures Step(fences, q[i], q[i + 1])
        {
          assert Step(fences, p[i], p[i + 1]);
        }
      }
      ClosedRegionTraps(fences, start, region, q);
      assert p[|p| - 2] == q[|q| - 1];
      assert Step(fences, p[|p| - 2], p[|p| - 1]);
      forall i | 0 <= i < |p|
        ensures p[i] in region
      {
        if i < |p| - 1 {
          assert p[i] == q[i];
        }
      }
    }
  }

  /**
   * A region containing `start`, closed under steps and holding no cell of
   * row `row`, proves that row unreachable from `start`.
   */
  lemma ClosedRegionUnreachable(fences: seq<Fence>, start: Pos, region: set<Pos>, row: int)
    requires start in region
    requires forall v, n :: v in region && Step(fences, v, n) ==> n in region
    requires forall v :: v in region ==> v.y != row
    ensures !Reachable(fences, start, row)
  {
    forall p: seq<Pos> | IsPathFrom(fences, start, p)
      ensures p[|p| - 1].y != row
    {
      ClosedRegionTraps(fences, start, region, p);
    }
  }

  /** Every queued cell comes with a walk from `start` that ends on it. */
  ghost predicate TrailsLead(fences: seq<Fence>, start: Pos, queue: seq<Pos>, trails: seq<seq<Pos>>) {
    |trails| == |queue| &&
    forall i :: 0 <= i < |queue| ==>
      IsPathFrom(fences, start, trails[i]) && trails[i][|trails[i]| - 1] == queue[i]
  }

  /** Every step out of a visited cell lands on a visited or a queued cell. */
  ghost predicate Closed(fences: seq<Fence>, visited: set<Pos>, queue: seq<Pos>) {
    forall v, n :: v in visited && Step(fences, v, n) ==> n in visited || n in queue
  }

  lemma ClosedAfterSkip(fences: seq<Fence>, visited: set<Pos>, queue: seq<Pos>)
    requires queue != [] && queue[0] in visited
    requires Closed(fences, visited, queue)
    ensures Closed(fences, visited, queue[1..])
  {
    forall v, n | v in visited && Step(fences, v, n)
      ensures n in visited || n in queue[1..]
    {
      if n !in visited {
        var k :| 0 <= k < |queue| && queue[k] == n;
        assert k != 0;
        assert queue[1..][k - 1] == n;
      }
    }
  }

  lemma ClosedAfterVisit(fences: seq<Fence>, visited: set<Pos>, queue: seq<Pos>, next: seq<Pos>)
    requires queue != []
    requires Closed(fences, visited, queue)
    requires forall n :: n in next <==> Step(fences, queue[0], n)
    ensures Closed(fences, visited + {queue[0]}, queue[1..] + next)
  {
    var c := queue[0];
    forall v, n | v in visited + {c} && Step(fences, v, n)
      ensures n in visited + {c} || n in queue[1..] + next
    {
      if v == c {
        assert n in next;
      } else if n !in visited && n != c {
        var k :| 0 <= k < |queue| && queue[k] == n;
        assert (queue[1..] + next)[k - 1] == n;
      }
    }
  }

  lemma TrailsAfterVisit(fences: seq<Fence>, start: Pos, queue: seq<Pos>, trails: seq<seq<Pos>>, next: seq<Pos>)
    requires queue != []
    requires TrailsLead(fences, start, queue, trails)
    requires forall n :: n in next ==> Step(fences, queue[0], n)
    ensures TrailsLead(fences, start, queue[1..] + next,
      trails[1..] + seq(|next|, j requires 0 <= j < |next| => trails[0] + [next[j]]))
  {
    var trail := trails[0];
    var added := seq(|next|, j requires 0 <= j < |next| => trail + [next[j]]);
    var q := queue[1..] + next;
    var t := trails[1..] + added;
    forall i | 0 <= i < |q|
      ensures IsPathFrom(fences, start, t[i]) && t[i][|t[i]| - 1] == q[i]
    {
      if i < |queue| - 1 {
        assert t[i] == trails[i + 1] && q[i] == queue[i + 1];
      } else {
        var j := i - (|queue| - 1);
        assert t[i] == trail + [next[j]] && q[i] == next[j];
        assert next[j] in next;
        ExtendPath(fences, start, trail, next[j]);
      }
    }
  }

  /**
   * The search invariant: queued cells carry walks from `start`, everything
   * seen lies in `area`, `start` has been seen, no visited cell is on the
   * target row, and the visited set is closed up to the queue.
   */
  ghost predicate SearchInv(fences: seq<Fence>, start: Pos, targetRow: int, area: set<Pos>,
                            visited: set<Pos>, queue: seq<Pos>, trails: seq<seq<Pos>>) {
    && TrailsLead(fences, start, queue, trails)
    && (forall i :: 0 <= i < |queue| ==> queue[i] in area)
    && visited <= area
    && (start in visited || start in queue)
    && (forall v :: v in visited ==> v.y != targetRow)
    && Closed(fences, visited, queue)
  }

  lemma InitialInv(fences: seq<Fence>, start: Pos, targetRow: int)
    ensures SearchInv(fences, start, targetRow, Grid + {start}, {}, [start], [[start]])
  {
    assert IsPathFrom(fences, start, [start]);
  }

  /** A queued cell on the target row ends a walk from `start` to that row. */
  lemma HeadOnTargetRow(fences: seq<Fence>, start: Pos, targetRow: int, area: set<Pos>,
                        visited: set<Pos>, queue: seq<Pos>, trails: seq<seq<Pos>>)
    requires SearchInv(fences, start, targetRow, area, visited, queue, trails)
    requires queue != [] && queue[0].y == targetRow
    ensures Reachable(fences, start, targetRow)
  {
    assert IsPathFrom(fences, start, trails[0]) && trails[0][|trails[0]| - 1].y == targetRow;
  }

  /** Taking an already visited cell off the queue keeps the invariant. */
  lemma SkipKeepsInv(fences: seq<Fence>, start: Pos, targetRow: int, area: set<Pos>,
                     visited: set<Pos>, queue: seq<Pos>, trails: seq<seq<Pos>>)
    requires SearchInv(fences, start, targetRow, area, visited, queue, trails)
    requires queue != [] && queue[0] in visited
    ensures SearchInv(fences, start, targetRow, area, visited, queue[1..], trails[1..])
  {
    ClosedAfterSkip(fences, visited, queue);
    assert start in visited || start in queue[1..];
  }

  /** Visiting the cell at the head of the queue and enqueueing its steps keeps the invariant. */
  lemma VisitKeepsInv(fences: seq<Fence>, start: Pos, targetRow: int,
                      visited: set<Pos>, queue: seq<Pos>, trails: seq<seq<Pos>>, next: seq<Pos>)
    requires SearchInv(fences, start, targetRow, Grid + {start}, visited, queue, trails)
    requires queue != [] && queue[0].y != targetRow
    requires forall n :: n in next <==> Step(fences, queue[0], n)
    ensures SearchInv(fences, start, targetRow, Grid + {start}, visited + {queue[0]}, queue[1..] + next,
      trails[1..] + seq(|next|, j requires 0 <= j < |next| => trails[0] + [next[j]]))
  {
    var q := queue[1..] + next;
    forall i | 0 <= i < |q|
      ensures q[i] in Grid + {start}
    {
      if i < |queue| - 1 {
        assert q[i] == queue[i + 1];
      } else {
        assert q[i] in next;
        GridMembers(q[i]);
      }
    }
    ClosedAfterVisit(fences, visited, queue, next);
    TrailsAfterVisit(fences, start, queue, trails, next);
    if start !in visited && start != queue[0] {
      var k :| 0 <= k < |queue| && queue[k] == start;
      assert q[k - 1] == start;
    }
  }

  /**
   * Breadth-first search from `start` for a cell of row `targetRow`: a cell
   * is checked against the target row when it is taken from the queue,
   * before the visited test, and each newly visited cell enqueues its
   * on-board, unblocked neighbours. Answers exactly whether such a walk exists.
   */
  method PathExists(fences: seq<Fence>, start: Pos, targetRow: int) returns (r: bool)
    ensures start.y == targetRow ==> r
    ensures r <==> Reachable(fences, start, targetRow)
  {
    var visited: set<Pos> := {};
    var queue: seq<Pos> := [start];
    ghost var trails: seq<seq<Pos>> := [[start]];
    ghost var area := Grid + {start};
    InitialInv(fences, start, targetRow);
    while queue != []
      invariant SearchInv(fences, start, targetRow, area, visited, queue, trails)
      decreases area - visited, |queue|
    {
      var c := queue[0];
      if c.y == targetRow {
        HeadOnTargetRow(fences, start, targetRow, area, visited, queue, trails);
        return true;
      }
      if c in visited {
        SkipKeepsInv(fences, start, targetRow, area, visited, queue, trails);
        queue := queue[1..];
        trails := trails[1..];
        continue;
      }
      var next := Expand(fences, c);
      VisitKeepsInv(fences, start, targetRow, visited, queue, trails, next);
      visited := visited + {c};
      trails := trails[1..] + seq(|next|, j requires 0 <= j < |next| => trails[0] + [next[j]]);
      queue := queue[1..] + next;
    }
    ClosedRegionUnreachable(fences, start, visited, targetRow);
    return false;
  }

  /** A walk can be prefixed with a step into its first cell. */
  lemma PrependStep(fences: seq<Fence>, s: Pos, p: seq<Pos>)
    requires |p| >= 1 && Step(fences, s, p[0])
    requires IsPathFrom(fences, p[0], p)
    ensures IsPathFrom(fences, s, [s] + p)
  {
    var q := [s] + p;
    forall i | 0 <= i < |q| - 1
      ensures Step(fences, q[i], q[i + 1])
    {
      if i > 0 {
        assert q[i] == p[i - 1] && q[i + 1] == p[i];
      }
    }
  }

  /** On a board without fences every row is reachable from every cell. */
  lemma {:induction false} OpenBoardReachable(s: Pos, row: int)
    requires InGrid(s) && 0 <= row < Size
    ensures Reachable([], s, row)
    decreases Abs(row - s.y)
  {
    if s.y == row {
      assert IsPathFrom([], s, [s]);
    } else {
      var n := if s.y < row then Pos(s.x, s.y + 1) else Pos(s.x, s.y - 1);
      OpenBoardReachable(n, row);
      var p: seq<Pos> :| IsPathFrom([], n, p) && p[|p| - 1].y == row;
      assert Step([], s, n);
      PrependStep([], s, p);
      assert ([s] + p)[|p|] == p[|p| - 1];
    }
  }

  /** Adding a fence only removes walks: whatever is reachable afterwards was reachable before. */
  lemma MoreFencesFewerPaths(fences: seq<Fence>, extra: Fence, start: Pos, row: int)
    ensures Reachable(fences + [extra], start, row) ==> Reachable(fences, start, row)
  {
    if Reachable(fences + [extra], start, row) {
      var p: seq<Pos> :| IsPathFrom(fences + [extra], start, p) && p[|p| - 1].y == row;
      forall i | 0 <= i < |p| - 1
        ensures Step(fences, p[i], p[i + 1])
      {
        assert Step(fences + [extra], p[i], p[i + 1]);
        BlockedMonotone(fences, extra, p[i], p[i + 1]);
      }
      assert IsPathFrom(fences, start, p);
    }
  }

  /** Every cell of a walk after its first is on the board. */
  lemma PathStaysOnBoard(fences: seq<Fence>, start: Pos, p: seq<Pos>)
    requires IsPathFrom(fences, start, p)
    ensures forall i :: 1 <= i < |p| ==> InGrid(p[i])
  {
    forall i | 1 <= i < |p|
      ensures InGrid(p[i])
    {
      assert Step(fences, p[i - 1], p[i]);
    }
  }
}
