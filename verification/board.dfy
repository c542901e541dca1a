/**
 * The 9x9 board of the game: cells, fences, and the predicate that decides
 * whether a placed fence obstructs a one-cell orthogonal step.
 */
module Board {

  /** Number of cells along each side of the board. */
  const Size: int := 9

  /** A cell; column `x` and row `y` are both in [0, 8] on the board. */
  datatype Pos = Pos(x: int, y: int)

  datatype Orientation = H | V

  /**
   * A two-cell wall anchored at (x, y), both in [0, 7] once accepted.
   * A vertical fence stands between columns x and x+1 along rows y and y+1;
   * a horizontal one between rows y and y+1 along columns x and x+1.
   */
  datatype Fence = Fence(x: int, y: int, orientation: Orientation)

  function Abs(n: int): nat {
    if n < 0 then -n else n
  }

  function Min(a: int, b: int): int {
    if a <= b then a else b
  }

  predicate InGrid(p: Pos) {
    0 <= p.x < Size && 0 <= p.y < Size
  }

  /** The two cells share a side (Manhattan distance 1). */
  predicate Adjacent(a: Pos, b: Pos) {
    Abs(a.x - b.x) + Abs(a.y - b.y) == 1
  }

  /** The two cells touch at a corner only. */
  predicate Diagonal(a: Pos, b: Pos) {
    Abs(a.x - b.x) == 1 && Abs(a.y - b.y) == 1
  }

  /**
   * The test one fence applies to a step from `a` to `b`: a step that changes
   * the column meets vertical fences anchored at the smaller column and at
   * row a.y or a.y - 1; any other step meets horizontal fences anchored at the
   * smaller row and at column a.x or a.x - 1.
   */
  predicate FenceBlocks(f: Fence, a: Pos, b: Pos) {
    if a.x != b.x then
      f.orientation == V && f.x == Min(a.x, b.x) && (f.y == a.y || f.y == a.y - 1)
    else
      f.orientation == H && f.y == Min(a.y, b.y) && (f.x == a.x || f.x == a.x - 1)
  }

  /** Whether any placed fence obstructs the step from `a` to `b`. */
  function Blocked(fences: seq<Fence>, a: Pos, b: Pos): (r: bool)
    ensures r <==> exists i :: 0 <= i < |fences| && FenceBlocks(fences[i], a, b)
  {
    if fences == [] then false
    else FenceBlocks(fences[0], a, b) || Blocked(fences[1..], a, b)
  }

  /** `a` and `b` are the two cells `p` and `q`, in either order. */
  predicate SamePair(a: Pos, b: Pos, p: Pos, q: Pos) {
    (a == p && b == q) || (a == q && b == p)
  }

  /**
   * Reference geometry of a fence: the two unordered pairs of cells its two
   * unit walls stand between.
   */
  predicate Separates(f: Fence, a: Pos, b: Pos) {
    match f.orientation
    case V =>
      SamePair(a, b, Pos(f.x, f.y), Pos(f.x + 1, f.y)) ||
      SamePair(a, b, Pos(f.x, f.y + 1), Pos(f.x + 1, f.y + 1))
    case H =>
      SamePair(a, b, Pos(f.x, f.y), Pos(f.x, f.y + 1)) ||
      SamePair(a, b, Pos(f.x + 1, f.y), Pos(f.x + 1, f.y + 1))
  }

  /** On a step between adjacent cells, a fence blocks exactly the pairs its walls separate. */
  lemma FenceBlocksExactly(f: Fence, a: Pos, b: Pos)
    requires Adjacent(a, b)
    ensures FenceBlocks(f, a, b) <==> Separates(f, a, b)
  {
  }

  /** Between adjacent cells the blocking predicate does not depend on the direction of travel. */
  lemma BlockedSymmetric(fences: seq<Fence>, a: Pos, b: Pos)
    requires Adjacent(a, b)
    ensures Blocked(fences, a, b) == Blocked(fences, b, a)
  {
    forall i | 0 <= i < |fences|
      ensures FenceBlocks(fences[i], a, b) == FenceBlocks(fences[i], b, a)
    {
      FenceBlocksExactly(fences[i], a, b);
      FenceBlocksExactly(fences[i], b, a);
    }
  }

  /** A step that changes the column is blocked only by vertical fences, any other step only by horizontal ones. */
  lemma BlockingOrientation(fences: seq<Fence>, a: Pos, b: Pos)
    ensures a.x != b.x && Blocked(fences, a, b) ==>
      exists i :: 0 <= i < |fences| && fences[i].orientation == V && fences[i].x == Min(a.x, b.x)
    ensures a.x == b.x && Blocked(fences, a, b) ==>
      exists i :: 0 <= i < |fences| && fences[i].orientation == H && fences[i].y == Min(a.y, b.y)
  {
  }

  /** Placing more fences never unblocks a step. */
  lemma BlockedMonotone(fences: seq<Fence>, extra: Fence, a: Pos, b: Pos)
    ensures Blocked(fences, a, b) ==> Blocked(fences + [extra], a, b)
    ensures Blocked(fences + [extra], a, b) <==> Blocked(fences, a, b) || FenceBlocks(extra, a, b)
  {
    var fs := fences + [extra];
    if Blocked(fences, a, b) {
      var i :| 0 <= i < |fences| && FenceBlocks(fences[i], a, b);
      assert fs[i] == fences[i];
    }
    if FenceBlocks(extra, a, b) {
      assert fs[|fences|] == extra;
    }
    if Blocked(fs, a, b) {
      var i :| 0 <= i < |fs| && FenceBlocks(fs[i], a, b);
      if i < |fences| {
        assert fs[i] == fences[i];
      }
    }
  }

  /**
   * A vertical fence anchored at (4, 3) blocks, among all steps between
   * adjacent cells, exactly (4,3)<->(5,3) and (4,4)<->(5,4); in particular it
   * never blocks a step that changes the row.
   */
  lemma VerticalFenceAt4x3(a: Pos, b: Pos)
    requires Adjacent(a, b)
    ensures Blocked([Fence(4, 3, V)], a, b) <==>
      (a == Pos(4, 3) && b == Pos(5, 3)) || (a == Pos(5, 3) && b == Pos(4, 3)) ||
      (a == Pos(4, 4) && b == Pos(5, 4)) || (a == Pos(5, 4) && b == Pos(4, 4))
    ensures a.x == b.x ==> !Blocked([Fence(4, 3, V)], a, b)
  {
    var f := Fence(4, 3, V);
    FenceBlocksExactly(f, a, b);
    assert Blocked([f], a, b) <==> FenceBlocks(f, a, b);
  }
}
