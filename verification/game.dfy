/** The state the rules engine reads: both pawns, both fence stocks and the placed fences. */
module GameState {
  import opened Board

  datatype Player = P1 | P2

  /**
   * A snapshot of one game. Player 1 starts on row 0 and heads for row 8,
   * player 2 starts on row 8 and heads for row 0.
   */
  datatype Game = Game(pawn1: Pos, pawn2: Pos, fences1: int, fences2: int, fences: seq<Fence>)

  /** Fences each player holds at the start. */
  const StartingFences: int := 10

  /** Pawns on the middle column of their home rows, full stocks, an empty board. */
  const Initial: Game := Game(Pos(4, 0), Pos(4, 8), StartingFences, StartingFences, [])

  function Other(p: Player): Player {
    if p == P1 then P2 else P1
  }

  function GoalRow(p: Player): int {
    if p == P1 then Size - 1 else 0
  }

  function PawnOf(g: Game, p: Player): Pos {
    if p == P1 then g.pawn1 else g.pawn2
  }

  function FencesLeft(g: Game, p: Player): int {
    if p == P1 then g.fences1 else g.fences2
  }
}
