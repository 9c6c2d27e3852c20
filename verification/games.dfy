/** The game collaborator as the search engine sees it: an abstract state
    type with the queries the search makes of the board, and the
    configuration of a search agent. */
module Games {
  import opened Scores

  /** A board coordinate (row, column). */
  datatype Move = Move(row: int, col: int)

  /** The sentinel (-1, -1): "no legal move". */
  const NegativeMove: Move := Move(-1, -1)

  /** The board queries the search uses.  `legalMoves` lists the active
      player's moves in generation order; `forecast` applies a move for the
      active player and returns the successor state; `utility` is 0 while
      the game is undecided and +/-inf once it is decided. */
  datatype Game<!S, !P> = Game(
    active: S -> P,
    inactive: S -> P,
    legalMoves: S -> seq<Move>,
    forecast: (S, Move) -> S,
    isLoser: (S, P) -> bool,
    utility: (S, P) -> Score)

  /** The configuration of an agent: fixed search depth, evaluation oracle
      and the remaining-time threshold below which a search is abandoned. */
  datatype Agent<!S, !P> = Agent(
    searchDepth: int,
    score: (S, P) -> Score,
    timerThreshold: int)

  /** What the board promises: the active player has lost exactly when it
      has no legal move, and the sentinel is never a legal move. */
  ghost predicate WellFormed<S(!new), P>(g: Game<S, P>) {
    && (forall s :: g.isLoser(s, g.active(s)) <==> |g.legalMoves(s)| == 0)
    && (forall s :: NegativeMove !in g.legalMoves(s))
  }

  /** The evaluation-oracle contract: in a state the active player has lost,
      the loser scores -inf and the winner +inf. */
  ghost predicate SoundOracle<S(!new), P>(g: Game<S, P>, score: (S, P) -> Score) {
    forall s :: g.isLoser(s, g.active(s)) ==>
      score(s, g.active(s)) == NegInf && score(s, g.inactive(s)) == PosInf
  }

  /** The first move the board generates, or the sentinel when there is none. */
  function FirstLegalOrNegative<S, P>(g: Game<S, P>, s: S): (m: Move)
    ensures |g.legalMoves(s)| == 0 <==> m == NegativeMove && NegativeMove !in g.legalMoves(s)
    ensures |g.legalMoves(s)| > 0 ==> m == g.legalMoves(s)[0]
  {
    if |g.legalMoves(s)| > 0 then g.legalMoves(s)[0] else NegativeMove
  }
}
