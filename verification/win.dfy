/** The win test applied after a pawn move. */
module WinCondition {
  import opened Board
  import opened Reachability
  import opened GameState

  /** Whether `player`'s pawn stands on that player's goal row. */
  function CheckWin(g: Game, player: Player): (r: bool)
    ensures player == P1 ==> (r <==> g.pawn1.y == 8)
    ensures player == P2 ==> (r <==> g.pawn2.y == 0)
  {
    PawnOf(g, player).y == GoalRow(player)
  }

  /** Player 1 wins on every cell of row 8 and on no cell of row 7. */
  lemma WinBoundary(g: Game, k: int)
    requires 0 <= k < Size
    ensures CheckWin(g.(pawn1 := Pos(k, 8)), P1)
    ensures !CheckWin(g.(pawn1 := Pos(k, 7)), P1)
  {
  }

  /** A winning pawn has trivially reached its goal row, whatever fences stand. */
  lemma WinnerReachedGoal(g: Game, player: Player)
    requires CheckWin(g, player)
    ensures Reachable(g.fences, PawnOf(g, player), GoalRow(player))
  {
    var p := [PawnOf(g, player)];
    assert IsPathFrom(g.fences, PawnOf(g, player), p);
  }

  /** At the start nobody has won and both goal rows are reachable. */
  lemma InitialPosition()
    ensures !CheckWin(Initial, P1) && !CheckWin(Initial, P2)
    ensures Reachable(Initial.fences, Initial.pawn1, GoalRow(P1))
    ensures Reachable(Initial.fences, Initial.pawn2, GoalRow(P2))
  {
    OpenBoardReachable(Initial.pawn1, GoalRow(P1));
    OpenBoardReachable(Initial.pawn2, GoalRow(P2));
  }
}
