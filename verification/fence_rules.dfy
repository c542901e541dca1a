/**
 * Fence placement legality: five checks in a fixed order, the first failure
 * deciding the answer, the last one a reachability test on the board with
 * the candidate fence tentatively added.
 */
module FenceRules {
  import opened Wrappers
  import opened Board
  import opened Reachability
  import opened GameState

  datatype FenceError = NoFences | BadOrientation | OutOfBounds | Overlap | PathBlocked

  /** A placement as the caller submits it: anchor coordinates and an orientation tag. */
  datatype FenceRequest = FenceRequest(x: int, y: int, tag: string)

  /** Only the tags "h" and "v" name an orientation. */
  function ParseOrientation(tag: string): (r: Option<Orientation>)
    ensures r == Some(H) <==> tag == "h"
    ensures r == Some(V) <==> tag == "v"
    ensures r == None <==> tag != "h" && tag != "v"
  {
    if tag == "h" then Some(H)
    else if tag == "v" then Some(V)
    else None
  }

  /** Fence anchors lie in [0, 7] on both axes. */
  predicate AnchorInRange(f: Fence) {
    0 <= f.x < Size - 1 && 0 <= f.y < Size - 1
  }

  /** Both pawns can still reach their goal rows past `fences`. */
  ghost predicate GoalsReachable(g: Game, fences: seq<Fence>) {
    Reachable(fences, g.pawn1, GoalRow(P1)) && Reachable(fences, g.pawn2, GoalRow(P2))
  }

  /** Removes the most recently appended fence. */
  function Pop(fences: seq<Fence>): seq<Fence>
    requires fences != []
  {
    fences[..|fences| - 1]
  }

  /**
   * Decides whether `player` may place the requested fence. The game is
   * threaded through as `after`: the candidate is appended for the path
   * test and popped again, so `after` is the game the caller passed in on
   * every outcome. On success the parsed fence is returned for the caller
   * to commit.
   */
  method ValidateFencePlacement(g: Game, player: Player, req: FenceRequest)
    returns (r: Result<Fence, FenceError>, after: Game)
    ensures after == g
    ensures FencesLeft(g, player) <= 0 ==> r == Err(NoFences)
    ensures FencesLeft(g, player) > 0 && ParseOrientation(req.tag) == None ==> r == Err(BadOrientation)
    ensures FencesLeft(g, player) > 0 && ParseOrientation(req.tag) != None ==>
      var f := Fence(req.x, req.y, ParseOrientation(req.tag).value);
      && (!AnchorInRange(f) ==> r == Err(OutOfBounds))
      && (AnchorInRange(f) && f in g.fences ==> r == Err(Overlap))
      && (AnchorInRange(f) && f !in g.fences && !GoalsReachable(g, g.fences + [f]) ==> r == Err(PathBlocked))
      && (AnchorInRange(f) && f !in g.fences && GoalsReachable(g, g.fences + [f]) ==> r == Ok(f))
    ensures r.Ok? ==>
      && r.value !in g.fences
      && AnchorInRange(r.value)
      && GoalsReachable(g, g.fences + [r.value])
  {
    if FencesLeft(g, player) <= 0 {
      return Err(NoFences), g;
    }
    var orientation := ParseOrientation(req.tag);
    if orientation == None {
      return Err(BadOrientation), g;
    }
    if req.x < 0 || req.x >= Size - 1 || req.y < 0 || req.y >= Size - 1 {
      return Err(OutOfBounds), g;
    }
    var f := Fence(req.x, req.y, orientation.value);
    if f in g.fences {
      return Err(Overlap), g;
    }
    var trial := g.(fences := g.fences + [f]);
    var reach1 := PathExists(trial.fences, trial.pawn1, GoalRow(P1));
    var reach2 := false;
    if reach1 {
      reach2 := PathExists(trial.fences, trial.pawn2, GoalRow(P2));
    }
    after := trial.(fences := Pop(trial.fences));
    assert after.fences == g.fences;
    if reach1 && reach2 {
      r := Ok(f);
    } else {
      r := Err(PathBlocked);
    }
  }
}
