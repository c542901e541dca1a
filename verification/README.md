# Quoridor rules engine in Dafny

A model of the rules engine of a two-player Quoridor server. Two pawns move on a 9×9 board.
Players place two-cell fences that obstruct movement, but a fence may never cut a pawn off
from its goal row. The engine answers four questions about a game snapshot:

- whether a fence blocks a one-cell step;
- whether a pawn can still reach a row (breadth-first search);
- whether a fence placement is legal, with the first rule it violates;
- whether a pawn move is legal, and whether a player has won.

Modules, one per component:

- `Wrappers` (`wrappers.dfy`): `Option` and `Result`. They replace the source's `ValueError` exceptions.
- `Board` (`board.dfy`): cells `Pos`, `Orientation` (`H`, `V`), `Fence` and the blocking predicate `Blocked`.
  It also gives a reference geometry, `Separates`: the two cell pairs a fence's walls stand between.
- `Reachability` (`reachability.dfy`): one search-graph edge `Step` and inductive walks `IsPathFrom` / `Reachable`.
  It also holds the breadth-first search `PathExists`, which keeps a queue and a visited set.
  `PathExists` is proved to return true exactly when a walk to the target row exists.
- `GameState` (`game.dfy`): `Player` (`P1`, `P2`), the `Game` snapshot and the initial game.
  The initial game has pawns on (4,0) and (4,8), ten fences each and an empty board.
- `WinCondition` (`win.dfy`): `CheckWin`.
- `FenceRules` (`fence_rules.dfy`): `ValidateFencePlacement`. Its five checks run in order and the first failure decides.
  The error kinds are `NoFences`, `BadOrientation`, `OutOfBounds`, `Overlap` and `PathBlocked`.
- `PawnRules` (`pawn_rules.dfy`): `IsValidPawnMove` and its jump and side-step helpers.
  It also states the rules as independent predicates (`JumpRule`, `SideStepRule`) and gives example positions.

The source mutates the game's fence list in place: it appends the candidate fence, runs player
1's search and, only if it succeeds, player 2's, then pops the fence in a `finally` block. The
model threads the game through the validator as an explicit `after` value and proves `after`
equals the game passed in on every outcome.

Behaviours of the code that the model keeps as written:

- The one-cell step at `quoridor_backend/game/logic.py:65-67` does not test whether the opponent
  occupies the target, so pawns can share a cell. `StepOntoOpponentAccepted` exhibits this.
- The side-step rule examines only the cell behind the opponent. It does not test the
  pawn–opponent segment (`SideStepIgnoresApproachFence`). It also does not test the
  opponent–landing segment (`SideStepIgnoresLandingFence`).
- The overlap check rejects only an identical `(x, y, orientation)` triple. Crossing or
  half-overlapping fences pass it.
- The fence-count check fails when the count is `<= 0` (`quoridor_backend/game/logic.py:27-28`),
  so a negative count is refused too.

## Model

| member | source | states |
|---|---|---|
| Board.Blocked | quoridor_backend/game/logic.py:126-144 | a step is blocked iff some placed fence passes the per-fence test (vertical fence at the smaller column and row y1 or y1-1 for a column change, horizontal fence at the smaller row and column x1 or x1-1 otherwise) |
| Board.FenceBlocksExactly | quoridor_backend/game/logic.py:131-143 | for adjacent cells, a fence blocks a step iff the step crosses one of the two unit walls the fence spans |
| Board.BlockedSymmetric | quoridor_backend/game/logic.py:126-144 | between adjacent cells, blocking does not depend on the direction of travel |
| Board.BlockingOrientation | quoridor_backend/game/logic.py:131-143 | column-changing steps are blocked only by vertical fences at the smaller column; other steps only by horizontal fences at the smaller row |
| Board.BlockedMonotone | quoridor_backend/game/logic.py:133-137 | adding a fence never unblocks a step; the augmented list blocks exactly what the old list or the new fence blocks |
| Board.VerticalFenceAt4x3 | quoridor_backend/game/logic.py:131-137 | a vertical fence at (4,3) blocks exactly (4,3)<->(5,3) and (4,4)<->(5,4) among adjacent steps, and never a row-changing step |
| Reachability.Expand | quoridor_backend/game/logic.py:17-21 | the cells enqueued after visiting a cell are exactly its on-board, adjacent, unblocked neighbours |
| Reachability.PathExists | quoridor_backend/game/logic.py:3-22 | the search terminates, answers true at once when the start is on the target row, and answers true iff a walk of unblocked on-board steps leads to the target row |
| Reachability.ClosedRegionUnreachable | quoridor_backend/game/logic.py:8-22 | an exhausted search proves absence: a step-closed visited set off the target row rules out every walk |
| Reachability.OpenBoardReachable | quoridor_backend/game/logic.py:3-22 | with no fences, every row 0..8 is reachable from every on-board cell |
| Reachability.MoreFencesFewerPaths | quoridor_backend/game/logic.py:17-21 | a walk that avoids the augmented fence list also avoids the original list |
| Reachability.PathStaysOnBoard | quoridor_backend/game/logic.py:18-21 | every cell of a walk after the start is on the board |
| FenceRules.ParseOrientation | quoridor_backend/game/logic.py:32-33 | only the tags "h" and "v" name an orientation; every other tag is rejected |
| FenceRules.ValidateFencePlacement | quoridor_backend/game/logic.py:24-51 | checks run in order (count <= 0, orientation tag, anchor in [0,7], identical triple present, both goal rows reachable on the augmented list) and the first failure names the error; success returns a fresh, in-range fence that leaves both goals reachable; the game is unchanged afterwards on every outcome |
| PawnRules.ValidateJump | quoridor_backend/game/logic.py:79-93 | on a straight two-cell displacement, the jump is accepted iff the opponent is adjacent, the target is the cell behind it, and neither half crosses a fence |
| PawnRules.FlanksAreSideCells | quoridor_backend/game/logic.py:101-113 | when the pawn is adjacent to the opponent, the two computed flank cells are exactly the opponent's neighbours diagonal to the pawn |
| PawnRules.ValidateDiagonal | quoridor_backend/game/logic.py:95-124 | a side-step is accepted iff pawn and opponent are adjacent, the target is adjacent to the opponent and diagonal to the pawn, on the board, free of both pawns, and the cell behind the opponent is off the board or fenced off |
| PawnRules.IsValidPawnMove | quoridor_backend/game/logic.py:53-77 | accepted moves land on the board; an adjacent target is accepted iff it is a search-graph step; a straight distance 2 iff the jump rule holds; a diagonal iff the side-step rule holds; any other displacement is rejected |
| PawnRules.JumpIsTwoSteps | quoridor_backend/game/logic.py:79-93 | an accepted jump is two search-graph steps, onto the opponent and beyond it |
| PawnRules.SideStepOnlyWhenJumpBarred | quoridor_backend/game/logic.py:122-124 | whenever a side-step is accepted, the straight jump over the opponent is rejected |
| PawnRules.OpenJumpExample | quoridor_backend/game/logic.py:79-93 | pawn (4,3), opponent (4,4), no fences: the jump to (4,5) is accepted |
| PawnRules.OpenSideStepExample | quoridor_backend/game/logic.py:122-124 | in the same position without fences, side-steps to (5,4) and (3,4) are rejected |
| PawnRules.FencedJumpExample | quoridor_backend/game/logic.py:95-124 | a horizontal fence at (3,4) or (4,4) rejects the jump to (4,5) and accepts both side-steps |
| PawnRules.StepOntoOpponentAccepted | quoridor_backend/game/logic.py:65-67 | an unblocked one-cell step onto the opponent's cell is accepted |
| PawnRules.SideStepIgnoresApproachFence | quoridor_backend/game/logic.py:122-124 | a side-step is accepted although a fence stands between the pawn and the opponent |
| PawnRules.SideStepIgnoresLandingFence | quoridor_backend/game/logic.py:115-124 | a side-step is accepted although a fence stands between the opponent and the landing cell |
| WinCondition.CheckWin | quoridor_backend/game/logic.py:146-150 | player 1 has won iff its pawn is on row 8, player 2 iff its pawn is on row 0 |
| WinCondition.WinBoundary | quoridor_backend/game/logic.py:146-150 | player 1 wins on every cell (k,8) and on no cell (k,7) |
| WinCondition.WinnerReachedGoal | quoridor_backend/game/logic.py:146-150 | a winning pawn stands at the end of a (trivial) walk to its goal row |
| WinCondition.InitialPosition | quoridor_backend/game/models.py:6-24 | at the start nobody has won, and both pawns can reach their goal rows |

## Left out

- HTTP handlers (`quoridor_backend/game/views.py`) are not part of this model: JSON decoding,
  responses and saving. The caller-side commit is also left out (append the fence, decrement
  the count, switch the turn, record the winner).
- The command-line game loop and its board rendering are not part of this model
  (`quoridor_backend/game/management/commands/play_quoridor.py`). Neither is the browser client
  (`quoridor_backend/static/game/js/game.js`) or URL routing (`quoridor_backend/quoridor_backend/urls.py`).
- Persistence: `Game` keeps only the fields the engine reads. Player identities, the player to
  move and the winner are caller state.
- User identity: the source compares the requesting user with the game's two users. A user who
  is neither player skips the fence-count check and moves player 2's pawn. When `player1` and
  `player2` are the same user, `quoridor_backend/game/logic.py:27-28` refuses a fence if either
  count is `<= 0`, and `quoridor_backend/game/logic.py:55` always moves player 1's pawn. The model
  takes a `Player` value, so neither case can be expressed.
- Stored fences always carry a parsed orientation. The source stores whatever tag the caller
  committed, but only fences that passed the validator (tags "h" or "v") are ever committed.
- Non-integer coordinates arriving in JSON are outside the model; coordinates are integers.
- Pawns sharing a cell: no pawn-position invariant is proved. The source's step rule lets a pawn
  move onto the opponent.
