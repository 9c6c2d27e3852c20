/** Fixed-depth minimax (MinimaxPlayer): the value recursions max_value and
    min_value, the top-level decision `minimax`, and the `get_move` wrapper
    that turns a cancelled search into a move. */
module Minimax {
  import opened Scores
  import opened Games
  import opened Clocks

  /** Remaining plies, clamped at zero: the recursion stops at depth <= 0. */
  function Plies(depth: int): nat {
    if depth < 0 then 0 else depth
  }

  /** max_value: the backed-up value of a state where the root's mover is
      to move, from the root mover's point of view. */
  function MaxValue<S, P>(g: Game<S, P>, a: Agent<S, P>, s: S, depth: int, c: Budget): (r: Result<Score>)
    ensures FrameSpends(c, a.timerThreshold, r)
    decreases Plies(depth), 1, 0
  {
    match Poll(c, a.timerThreshold)
    case Timeout => Timeout
    case Ok(_, c1) =>
      if g.isLoser(s, g.active(s)) then Ok(NegInf, c1)
      else if depth <= 0 then Ok(a.score(s, g.active(s)), c1)
      else MaxOver(g, a, s, 0, depth - 1, NegInf, c1)
  }

  /** The loop of max_value from the i-th legal move on: a running maximum
      of the children's min-values, started at `best`. */
  function MaxOver<S, P>(g: Game<S, P>, a: Agent<S, P>, s: S, i: nat, d: int, best: Score, c: Budget): (r: Result<Score>)
    requires i <= |g.legalMoves(s)|
    ensures LoopSpends(c, a.timerThreshold, r)
    ensures r.Ok? ==> Le(best, r.value)
    decreases Plies(d) + 1, 0, |g.legalMoves(s)| - i
  {
    if i == |g.legalMoves(s)| then Ok(best, c)
    else
      match MinValue(g, a, g.forecast(s, g.legalMoves(s)[i]), d, c)
      case Timeout => Timeout
      case Ok(v, c1) => MaxOver(g, a, s, i + 1, d, Max(best, v), c1)
  }

  /** min_value: the backed-up value of a state where the opponent is to
      move, still from the root mover's point of view. */
  function MinValue<S, P>(g: Game<S, P>, a: Agent<S, P>, s: S, depth: int, c: Budget): (r: Result<Score>)
    ensures FrameSpends(c, a.timerThreshold, r)
    decreases Plies(depth), 1, 0
  {
    match Poll(c, a.timerThreshold)
    case Timeout => Timeout
    case Ok(_, c1) =>
      if g.isLoser(s, g.active(s)) then Ok(PosInf, c1)
      else if depth <= 0 then Ok(a.score(s, g.inactive(s)), c1)
      else MinOver(g, a, s, 0, depth - 1, PosInf, c1)
  }

  /** The loop of min_value from the i-th legal move on: a running minimum
      of the children's max-values, started at `best`. */
  function MinOver<S, P>(g: Game<S, P>, a: Agent<S, P>, s: S, i: nat, d: int, best: Score, c: Budget): (r: Result<Score>)
    requires i <= |g.legalMoves(s)|
    ensures LoopSpends(c, a.timerThreshold, r)
    ensures r.Ok? ==> Le(r.value, best)
    decreases Plies(d) + 1, 0, |g.legalMoves(s)| - i
  {
    if i == |g.legalMoves(s)| then Ok(best, c)
    else
      match MaxValue(g, a, g.forecast(s, g.legalMoves(s)[i]), d, c)
      case Timeout => Timeout
      case Ok(v, c1) => MinOver(g, a, s, i + 1, d, Min(best, v), c1)
  }

  /** The outcome of `minimax` together with the agent's current_best_move
      field as the search left it (the field is written inside the loop, so
      a cancelled search leaves its partial choice behind). */
  datatype Decision = Decision(outcome: Result<Move>, currentBest: Move)

  /** minimax: the move for the active player whose min-value is largest,
      the sentinel if the active player has lost. */
  function Decide<S, P>(g: Game<S, P>, a: Agent<S, P>, s: S, depth: int, currentBest: Move, c: Budget): (r: Decision)
    ensures FrameSpends(c, a.timerThreshold, r.outcome)
    ensures r.outcome.Ok? ==> r.outcome.value == NegativeMove || r.outcome.value in g.legalMoves(s)
    ensures r.currentBest == currentBest || r.currentBest == NegativeMove || r.currentBest in g.legalMoves(s)
  {
    match Poll(c, a.timerThreshold)
    case Timeout => Decision(Timeout, currentBest)
    case Ok(_, c1) =>
      if g.isLoser(s, g.active(s)) then Decision(Ok(NegativeMove, c1), currentBest)
      else DecideOver(g, a, s, 0, depth - 1, NegInf, NegativeMove, c1)
  }

  /** The top-level loop of minimax from the i-th legal move on.  A child
      replaces the current choice when its value is at least the best so
      far, so among equal values the last one generated wins. */
  function DecideOver<S, P>(g: Game<S, P>, a: Agent<S, P>, s: S, i: nat, d: int,
                            maxVal: Score, best: Move, c: Budget): (r: Decision)
    requires i <= |g.legalMoves(s)|
    ensures LoopSpends(c, a.timerThreshold, r.outcome)
    ensures r.outcome.Ok? ==> r.outcome.value == r.currentBest
    ensures r.currentBest == best || r.currentBest in g.legalMoves(s)[i..]
    decreases |g.legalMoves(s)| - i
  {
    if i == |g.legalMoves(s)| then Decision(Ok(best, c), best)
    else
      match MinValue(g, a, g.forecast(s, g.legalMoves(s)[i]), d, c)
      case Timeout => Decision(Timeout, best)
      case Ok(v, c1) =>
        if Le(maxVal, v) then DecideOver(g, a, s, i + 1, d, v, g.legalMoves(s)[i], c1)
        else DecideOver(g, a, s, i + 1, d, maxVal, best, c1)
  }

  /** MinimaxPlayer.get_move: run minimax at the agent's search depth; on
      cancellation answer the current_best_move field, whatever the
      cancelled search (or an earlier call) left in it. */
  function GetMove<S, P>(g: Game<S, P>, a: Agent<S, P>, s: S, currentBest: Move, c: Budget): (m: Move)
    ensures m == currentBest || m == NegativeMove || m in g.legalMoves(s)
    ensures c.Ticks? && c.left < a.timerThreshold ==> m == currentBest
  {
    var r := Decide(g, a, s, a.searchDepth, currentBest, c);
    match r.outcome
    case Ok(mv, _) => mv
    case Timeout => r.currentBest
  }

  /** get_move with the current_best_move field reset to the sentinel before
      the search starts, as the alpha-beta driver does: a cancelled search
      can then only answer a move of this position, or the sentinel. */
  function GetMoveFresh<S, P>(g: Game<S, P>, a: Agent<S, P>, s: S, c: Budget): (m: Move)
    ensures m == NegativeMove || m in g.legalMoves(s)
  {
    GetMove(g, a, s, NegativeMove, c)
  }
}
