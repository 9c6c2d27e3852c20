/** Depth-limited alpha-beta search (AlphaBetaPlayer): the windowed value
    recursions max_value and min_value, the top-level move choice
    `alphabeta`, and the iterative-deepening driver `get_move`. */
module AlphaBeta {
  import opened Scores
  import opened Games
  import opened Clocks
  import Minimax

  /** max_value: the side to move is the root mover; `alpha` and `beta`
      bound the values the callers still care about.  At the depth limit,
      or when the side to move has lost, the oracle scores the side to
      move. */
  function MaxValue<S, P>(g: Game<S, P>, a: Agent<S, P>, s: S, depth: int, alpha: Score, beta: Score, c: Budget): (r: Result<Score>)
    ensures FrameSpends(c, a.timerThreshold, r)
    decreases Minimax.Plies(depth), 1, 0
  {
    match Poll(c, a.timerThreshold)
    case Timeout => Timeout
    case Ok(_, c1) =>
      if depth <= 0 || g.isLoser(s, g.active(s)) then Ok(a.score(s, g.active(s)), c1)
      else MaxOver(g, a, s, 0, depth - 1, NegInf, alpha, beta, c1)
  }

  /** The loop of max_value from the i-th legal move on: `move` is the
      running maximum of the children's values, `alpha` the raised lower
      bound.  A running maximum of at least beta is returned at once (beta
      cut-off); a loop that finishes returns alpha. */
  function MaxOver<S, P>(g: Game<S, P>, a: Agent<S, P>, s: S, i: nat, d: int,
                         move: Score, alpha: Score, beta: Score, c: Budget): (r: Result<Score>)
    requires i <= |g.legalMoves(s)|
    ensures LoopSpends(c, a.timerThreshold, r)
    decreases Minimax.Plies(d) + 1, 0, |g.legalMoves(s)| - i
  {
    if i == |g.legalMoves(s)| then Ok(alpha, c)
    else
      match MinValue(g, a, g.forecast(s, g.legalMoves(s)[i]), d, alpha, beta, c)
      case Timeout => Timeout
      case Ok(v, c1) =>
        var move' := Max(move, v);
        if Le(beta, move') then Ok(move', c1)
        else MaxOver(g, a, s, i + 1, d, move', Max(alpha, move'), beta, c1)
  }

  /** min_value: the side to move is the opponent.  At the depth limit, or
      when the side to move has lost, the oracle scores the root mover (the
      side not to move). */
  function MinValue<S, P>(g: Game<S, P>, a: Agent<S, P>, s: S, depth: int, alpha: Score, beta: Score, c: Budget): (r: Result<Score>)
    ensures FrameSpends(c, a.timerThreshold, r)
    decreases Minimax.Plies(depth), 1, 0
  {
    match Poll(c, a.timerThreshold)
    case Timeout => Timeout
    case Ok(_, c1) =>
      if depth <= 0 || g.isLoser(s, g.active(s)) then Ok(a.score(s, g.inactive(s)), c1)
      else MinOver(g, a, s, 0, depth - 1, PosInf, alpha, beta, c1)
  }

  /** The loop of min_value from the i-th legal move on: `move` is the
      running minimum, `beta` the lowered upper bound.  A running minimum of
      at most alpha is returned at once (alpha cut-off); a loop that
      finishes returns beta. */
  function MinOver<S, P>(g: Game<S, P>, a: Agent<S, P>, s: S, i: nat, d: int,
                         move: Score, alpha: Score, beta: Score, c: Budget): (r: Result<Score>)
    requires i <= |g.legalMoves(s)|
    ensures LoopSpends(c, a.timerThreshold, r)
    decreases Minimax.Plies(d) + 1, 0, |g.legalMoves(s)| - i
  {
    if i == |g.legalMoves(s)| then Ok(beta, c)
    else
      match MaxValue(g, a, g.forecast(s, g.legalMoves(s)[i]), d, alpha, beta, c)
      case Timeout => Timeout
      case Ok(v, c1) =>
        var move' := Min(move, v);
        if Le(move', alpha) then Ok(move', c1)
        else MinOver(g, a, s, i + 1, d, move', alpha, Min(beta, move'), c1)
  }

  /** alphabeta: the move of the active player chosen by alpha-beta search
      with window (alpha, beta); the sentinel when no child's value rises
      above alpha. */
  function Search<S, P>(g: Game<S, P>, a: Agent<S, P>, s: S, depth: int, alpha: Score, beta: Score, c: Budget): (r: Result<Move>)
    ensures FrameSpends(c, a.timerThreshold, r)
    ensures r.Ok? ==> r.value == NegativeMove || r.value in g.legalMoves(s)
  {
    match Poll(c, a.timerThreshold)
    case Timeout => Timeout
    case Ok(_, c1) => SearchOver(g, a, s, 0, depth - 1, NegInf, alpha, NegativeMove, beta, c1)
  }

  /** The top-level loop of alphabeta from the i-th legal move on.  `move`
      is the running maximum of the children's values and (`bound`, `best`)
      the pair alpha_move.  The pair is replaced only when the running
      maximum is strictly above `bound`: an equal value skips the child
      (game_agent.py line 435), and a smaller one loses the tuple
      comparison (line 437), so among equal values the first one generated
      is kept.  Each child is searched with the window (bound, beta). */
  function SearchOver<S, P>(g: Game<S, P>, a: Agent<S, P>, s: S, i: nat, d: int,
                            move: Score, bound: Score, best: Move, beta: Score, c: Budget): (r: Result<Move>)
    requires i <= |g.legalMoves(s)|
    ensures LoopSpends(c, a.timerThreshold, r)
    ensures r.Ok? ==> r.value == best || r.value in g.legalMoves(s)[i..]
    decreases |g.legalMoves(s)| - i
  {
    if i == |g.legalMoves(s)| then Ok(best, c)
    else
      match MinValue(g, a, g.forecast(s, g.legalMoves(s)[i]), d, bound, beta, c)
      case Timeout => Timeout
      case Ok(v, c1) =>
        var move' := Max(move, v);
        if Lt(bound, move') then
          SearchOver(g, a, s, i + 1, d, move', move', g.legalMoves(s)[i], beta, c1)
        else
          SearchOver(g, a, s, i + 1, d, move', bound, best, beta, c1)
  }

  /** AlphaBetaPlayer.get_move: iterative deepening from depth 1 with the
      full window, under a budget of `t` ticks.  Never cancelled itself: it
      answers a legal move or the sentinel. */
  function GetMove<S, P>(g: Game<S, P>, a: Agent<S, P>, s: S, t: int): (m: Move)
    ensures m == NegativeMove || m in g.legalMoves(s)
    ensures t < a.timerThreshold ==> m == FirstLegalOrNegative(g, s)
  {
    Deepen(g, a, s, 0, NegativeMove, t)
  }

  /** The deepening loop after `completed` iterations whose last result is
      `best`.  A completed iteration overwrites `best`; the loop stops when
      the root's utility is decided.  A cancelled iteration leaves `best`
      untouched and it is answered, or the first legal move when `best` is
      the sentinel. */
  function Deepen<S, P>(g: Game<S, P>, a: Agent<S, P>, s: S, completed: nat, best: Move, t: int): (m: Move)
    ensures m == best || m == NegativeMove || m in g.legalMoves(s)
    ensures t < a.timerThreshold ==>
              m == (if best == NegativeMove then FirstLegalOrNegative(g, s) else best)
    decreases t - a.timerThreshold + 1
  {
    match Search(g, a, s, completed + 1, NegInf, PosInf, Ticks(t))
    case Timeout =>
      if best == NegativeMove && |g.legalMoves(s)| > 0 then g.legalMoves(s)[0] else best
    case Ok(mv, c1) =>
      if g.utility(s, g.active(s)) != Fin(0.0) then mv
      else Deepen(g, a, s, completed + 1, mv, c1.left)
  }
}
