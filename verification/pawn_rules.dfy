/**
 * Pawn move legality: a proposed destination is classified as a one-cell
 * step, a straight jump over the opponent or a diagonal side-step, and the
 * matching rule is applied.
 */
module PawnRules {
  import opened Board
  import opened Reachability
  import opened GameState

  /** The cell beyond `opp` when seen from `pawn`. */
  function Behind(pawn: Pos, opp: Pos): Pos {
    Pos(2 * opp.x - pawn.x, 2 * opp.y - pawn.y)
  }

  /** `target` lies two cells from `pawn` along a row or a column. */
  predicate StraightTwo(pawn: Pos, target: Pos) {
    (Abs(target.x - pawn.x) == 2 && target.y == pawn.y) ||
    (target.x == pawn.x && Abs(target.y - pawn.y) == 2)
  }

  /**
   * The jump rule: the opponent stands next to the pawn, the target is the
   * cell right behind the opponent, and neither half of the jump crosses a fence.
   */
  predicate JumpRule(fences: seq<Fence>, pawn: Pos, opp: Pos, target: Pos) {
    && Adjacent(pawn, opp)
    && target == Behind(pawn, opp)
    && !Blocked(fences, pawn, opp)
    && !Blocked(fences, opp, target)
  }

  /**
   * The side-step rule: the opponent stands next to the pawn, the target is
   * a free on-board cell next to the opponent and diagonal to the pawn, and
   * the cell behind the opponent is off the board or fenced off from it.
   * Nothing is required of the segment between the pawn and the opponent.
   */
  predicate SideStepRule(g: Game, pawn: Pos, opp: Pos, target: Pos) {
    && Adjacent(pawn, opp)
    && Adjacent(opp, target)
    && Diagonal(pawn, target)
    && InGrid(target)
    && target != g.pawn1
    && target != g.pawn2
    && (!InGrid(Behind(pawn, opp)) || Blocked(g.fences, opp, Behind(pawn, opp)))
  }

  /**
   * Jump helper: the midpoint (integer halves, which are floor halves since
   * the divisor is positive) must be the opponent's cell and both segments
   * must be clear.
   */
  function ValidateJump(fences: seq<Fence>, pawn: Pos, opp: Pos, target: Pos): (r: bool)
    ensures StraightTwo(pawn, target) ==> (r <==> JumpRule(fences, pawn, opp, target))
  {
    var mid := Pos((pawn.x + target.x) / 2, (pawn.y + target.y) / 2);
    if mid != opp then false
    else if Blocked(fences, pawn, mid) then false
    else !Blocked(fences, opp, target)
  }

  /**
   * The two cells flanking `opp` across the direction from `pawn` to `opp`,
   * as the source writes them: the direction's components swapped, added and
   * subtracted.
   */
  function Flanks(pawn: Pos, opp: Pos): seq<Pos> {
    var dirX := opp.x - pawn.x;
    var dirY := opp.y - pawn.y;
    [Pos(opp.x + dirY, opp.y + dirX), Pos(opp.x - dirY, opp.y - dirX)]
  }

  /** Next to the opponent, the flanking cells are exactly its neighbours diagonal to the pawn. */
  lemma FlanksAreSideCells(pawn: Pos, opp: Pos, target: Pos)
    requires Adjacent(pawn, opp)
    ensures target in Flanks(pawn, opp) <==> Adjacent(opp, target) && Diagonal(pawn, target)
  {
    if opp.x != pawn.x {
      assert opp.y == pawn.y;
    } else {
      assert Abs(opp.y - pawn.y) == 1;
    }
  }

  /**
   * Side-step helper: the landing cell must be one of the two flanking
   * cells, on the board and free, and the straight continuation past the
   * opponent must be off the board or fenced.
   */
  function ValidateDiagonal(g: Game, pawn: Pos, opp: Pos, target: Pos): (r: bool)
    ensures r <==> SideStepRule(g, pawn, opp, target)
  {
    if Abs(pawn.x - opp.x) + Abs(pawn.y - opp.y) != 1 then false
    else
      var behind := Pos(opp.x + (opp.x - pawn.x), opp.y + (opp.y - pawn.y));
      FlanksAreSideCells(pawn, opp, target);
      assert behind == Behind(pawn, opp);
      if target !in Flanks(pawn, opp) then false
      else if !InGrid(target) then false
      else if target == g.pawn1 || target == g.pawn2 then false
      else !InGrid(behind) || Blocked(g.fences, opp, behind)
  }

  /** Whether `player` may move its pawn to `target`. */
  function IsValidPawnMove(g: Game, player: Player, target: Pos): (r: bool)
    ensures r ==> InGrid(target)
    ensures Adjacent(PawnOf(g, player), target) ==>
      (r <==> Step(g.fences, PawnOf(g, player), target))
    ensures StraightTwo(PawnOf(g, player), target) ==>
      (r <==> InGrid(target) && JumpRule(g.fences, PawnOf(g, player), PawnOf(g, Other(player)), target))
    ensures Diagonal(PawnOf(g, player), target) ==>
      (r <==> SideStepRule(g, PawnOf(g, player), PawnOf(g, Other(player)), target))
    ensures r ==>
      Adjacent(PawnOf(g, player), target) || StraightTwo(PawnOf(g, player), target) ||
      Diagonal(PawnOf(g, player), target)
  {
    var pawn := PawnOf(g, player);
    var opp := PawnOf(g, Other(player));
    if !InGrid(target) then false
    else
      var dx := target.x - pawn.x;
      var dy := target.y - pawn.y;
      if (Abs(dx) == 1 && Abs(dy) == 0) || (Abs(dx) == 0 && Abs(dy) == 1) then
        !Blocked(g.fences, pawn, target)
      else if (Abs(dx) == 2 && Abs(dy) == 0) || (Abs(dx) == 0 && Abs(dy) == 2) then
        ValidateJump(g.fences, pawn, opp, target)
      else if Abs(dx) == 1 && Abs(dy) == 1 then
        ValidateDiagonal(g, pawn, opp, target)
      else false
  }

  /** A legal jump covers two search-graph steps: onto the opponent's cell, then beyond it. */
  lemma JumpIsTwoSteps(g: Game, player: Player, target: Pos)
    requires InGrid(PawnOf(g, Other(player)))
    requires StraightTwo(PawnOf(g, player), target) && IsValidPawnMove(g, player, target)
    ensures Step(g.fences, PawnOf(g, player), PawnOf(g, Other(player)))
    ensures Step(g.fences, PawnOf(g, Other(player)), target)
  {
  }

  /** A side-step is legal only when the straight jump over the opponent is not. */
  lemma SideStepOnlyWhenJumpBarred(g: Game, player: Player, target: Pos)
    requires IsValidPawnMove(g, player, target) && Diagonal(PawnOf(g, player), target)
    ensures !IsValidPawnMove(g, player, Behind(PawnOf(g, player), PawnOf(g, Other(player))))
  {
    var pawn := PawnOf(g, player);
    var opp := PawnOf(g, Other(player));
    assert StraightTwo(pawn, Behind(pawn, opp));
  }

  /** Example game: player 1 on (4,3) facing player 2 on (4,4), with the given fences. */
  function FaceOff(fences: seq<Fence>): Game {
    Game(Pos(4, 3), Pos(4, 4), StartingFences, StartingFences, fences)
  }

  /** With no fences, jumping straight over the opponent is legal. */
  lemma OpenJumpExample()
    ensures IsValidPawnMove(FaceOff([]), P1, Pos(4, 5))
  {
    var g := FaceOff([]);
    assert Behind(g.pawn1, g.pawn2) == Pos(4, 5);
    assert JumpRule([], g.pawn1, g.pawn2, Pos(4, 5));
  }

  /** With no fences, neither side-step around the opponent is legal. */
  lemma OpenSideStepExample(target: Pos)
    requires target == Pos(5, 4) || target == Pos(3, 4)
    ensures !IsValidPawnMove(FaceOff([]), P1, target)
  {
    var g := FaceOff([]);
    assert Behind(g.pawn1, g.pawn2) == Pos(4, 5);
    assert !Blocked([], Pos(4, 4), Pos(4, 5));
    assert !SideStepRule(g, g.pawn1, g.pawn2, target);
  }

  /** A horizontal fence behind the opponent bars the jump and opens both side-steps. */
  lemma FencedJumpExample(anchorX: int)
    requires anchorX == 3 || anchorX == 4
    ensures !IsValidPawnMove(FaceOff([Fence(anchorX, 4, H)]), P1, Pos(4, 5))
    ensures IsValidPawnMove(FaceOff([Fence(anchorX, 4, H)]), P1, Pos(5, 4))
    ensures IsValidPawnMove(FaceOff([Fence(anchorX, 4, H)]), P1, Pos(3, 4))
  {
    var fs := [Fence(anchorX, 4, H)];
    var g := FaceOff(fs);
    assert FenceBlocks(fs[0], Pos(4, 4), Pos(4, 5));
    assert Behind(g.pawn1, g.pawn2) == Pos(4, 5);
    assert !JumpRule(fs, g.pawn1, g.pawn2, Pos(4, 5));
    assert SideStepRule(g, g.pawn1, g.pawn2, Pos(5, 4));
    assert SideStepRule(g, g.pawn1, g.pawn2, Pos(3, 4));
  }

  /** A one-cell step onto the opponent's own cell is accepted when no fence intervenes. */
  lemma StepOntoOpponentAccepted()
    ensures IsValidPawnMove(FaceOff([]), P1, Pos(4, 4))
  {
    assert !Blocked([], Pos(4, 3), Pos(4, 4));
  }

  /**
   * A side-step is accepted even when a fence stands between the pawn and
   * the opponent, because only the cell behind the opponent is examined.
   */
  lemma SideStepIgnoresApproachFence()
    ensures !IsValidPawnMove(FaceOff([Fence(4, 3, H), Fence(4, 4, H)]), P1, Pos(4, 4))
    ensures IsValidPawnMove(FaceOff([Fence(4, 3, H), Fence(4, 4, H)]), P1, Pos(5, 4))
  {
    var fs := [Fence(4, 3, H), Fence(4, 4, H)];
    var g := FaceOff(fs);
    assert FenceBlocks(fs[0], Pos(4, 3), Pos(4, 4));
    assert !Step(fs, g.pawn1, Pos(4, 4));
    assert FenceBlocks(fs[1], Pos(4, 4), Pos(4, 5));
    assert Behind(g.pawn1, g.pawn2) == Pos(4, 5);
    assert SideStepRule(g, g.pawn1, g.pawn2, Pos(5, 4));
  }

  /**
   * A side-step is accepted even through a fence standing between the
   * opponent and the landing cell, because no segment of the side-step
   * itself is examined.
   */
  lemma SideStepIgnoresLandingFence()
    ensures IsValidPawnMove(FaceOff([Fence(4, 4, H), Fence(4, 4, V)]), P1, Pos(5, 4))
  {
    var fs := [Fence(4, 4, H), Fence(4, 4, V)];
    var g := FaceOff(fs);
    assert FenceBlocks(fs[1], Pos(4, 4), Pos(5, 4));
    assert FenceBlocks(fs[0], Pos(4, 4), Pos(4, 5));
    assert Behind(g.pawn1, g.pawn2) == Pos(4, 5);
    assert SideStepRule(g, g.pawn1, g.pawn2, Pos(5, 4));
  }
}
