/** Properties of fixed-depth minimax: completed results do not depend on
    the clock, the value recursions compute the game-tree maximum and
    minimum, and the top-level decision picks the last best move. */
module MinimaxProofs {
  import opened Scores
  import opened Games
  import opened Clocks
  import opened Minimax

  /** The minimax value of a max layer, computed with a clock that never
      runs low. */
  ghost function MaxV<S, P>(g: Game<S, P>, a: Agent<S, P>, s: S, depth: int): Score {
    MaxValue(g, a, s, depth, Unbounded).value
  }

  /** The minimax value of a min layer, computed with a clock that never
      runs low. */
  ghost function MinV<S, P>(g: Game<S, P>, a: Agent<S, P>, s: S, depth: int): Score {
    MinValue(g, a, s, depth, Unbounded).value
  }

  ghost function MaxOverV<S, P>(g: Game<S, P>, a: Agent<S, P>, s: S, i: nat, d: int, best: Score): Score
    requires i <= |g.legalMoves(s)|
  {
    MaxOver(g, a, s, i, d, best, Unbounded).value
  }

  ghost function MinOverV<S, P>(g: Game<S, P>, a: Agent<S, P>, s: S, i: nat, d: int, best: Score): Score
    requires i <= |g.legalMoves(s)|
  {
    MinOver(g, a, s, i, d, best, Unbounded).value
  }

  /** The min-layer values of the children of s, in move-generation order. */
  ghost function ChildMinValues<S, P>(g: Game<S, P>, a: Agent<S, P>, s: S, d: int): seq<Score> {
    seq(|g.legalMoves(s)|, j requires 0 <= j < |g.legalMoves(s)| =>
      MinV(g, a, g.forecast(s, g.legalMoves(s)[j]), d))
  }

  /** The max-layer values of the children of s, in move-generation order. */
  ghost function ChildMaxValues<S, P>(g: Game<S, P>, a: Agent<S, P>, s: S, d: int): seq<Score> {
    seq(|g.legalMoves(s)|, j requires 0 <= j < |g.legalMoves(s)| =>
      MaxV(g, a, g.forecast(s, g.legalMoves(s)[j]), d))
  }

  /** A search that completes under any budget computes exactly the value
      of the unbounded search: a cancellation is never absorbed into a
      partial value. */
  lemma {:induction false} MaxValueIgnoresClock<S, P>(g: Game<S, P>, a: Agent<S, P>, s: S, depth: int, c: Budget)
    ensures MaxValue(g, a, s, depth, c).Ok? ==> MaxValue(g, a, s, depth, c).value == MaxV(g, a, s, depth)
    decreases Plies(depth), 1, 0
  {
    match Poll(c, a.timerThreshold)
    case Timeout =>
    case Ok(_, c1) =>
      if !g.isLoser(s, g.active(s)) && depth > 0 {
        MaxOverIgnoresClock(g, a, s, 0, depth - 1, NegInf, c1);
      }
  }

  lemma {:induction false} MinValueIgnoresClock<S, P>(g: Game<S, P>, a: Agent<S, P>, s: S, depth: int, c: Budget)
    ensures MinValue(g, a, s, depth, c).Ok? ==> MinValue(g, a, s, depth, c).value == MinV(g, a, s, depth)
    decreases Plies(depth), 1, 0
  {
    match Poll(c, a.timerThreshold)
    case Timeout =>
    case Ok(_, c1) =>
      if !g.isLoser(s, g.active(s)) && depth > 0 {
        MinOverIgnoresClock(g, a, s, 0, depth - 1, PosInf, c1);
      }
  }

  lemma {:induction false} MaxOverIgnoresClock<S, P>(g: Game<S, P>, a: Agent<S, P>, s: S, i: nat, d: int, best: Score, c: Budget)
    requires i <= |g.legalMoves(s)|
    ensures MaxOver(g, a, s, i, d, best, c).Ok? ==> MaxOver(g, a, s, i, d, best, c).value == MaxOverV(g, a, s, i, d, best)
    decreases Plies(d) + 1, 0, |g.legalMoves(s)| - i
  {
    if i < |g.legalMoves(s)| {
      var child := g.forecast(s, g.legalMoves(s)[i]);
      MinValueIgnoresClock(g, a, child, d, c);
      match MinValue(g, a, child, d, c)
      case Timeout =>
      case Ok(v, c1) =>
        MaxOverIgnoresClock(g, a, s, i + 1, d, Max(best, v), c1);
    }
  }

  lemma {:induction false} MinOverIgnoresClock<S, P>(g: Game<S, P>, a: Agent<S, P>, s: S, i: nat, d: int, best: Score, c: Budget)
    requires i <= |g.legalMoves(s)|
    ensures MinOver(g, a, s, i, d, best, c).Ok? ==> MinOver(g, a, s, i, d, best, c).value == MinOverV(g, a, s, i, d, best)
    decreases Plies(d) + 1, 0, |g.legalMoves(s)| - i
  {
    if i < |g.legalMoves(s)| {
      var child := g.forecast(s, g.legalMoves(s)[i]);
      MaxValueIgnoresClock(g, a, child, d, c);
      match MaxValue(g, a, child, d, c)
      case Timeout =>
      case Ok(v, c1) =>
        MinOverIgnoresClock(g, a, s, i + 1, d, Min(best, v), c1);
    }
  }

  /** The loop of max_value started at `best` ends with the maximum of
      `best` and the min-values of the remaining children. */
  lemma {:induction false} MaxOverIsMaximum<S, P>(g: Game<S, P>, a: Agent<S, P>, s: S, i: nat, d: int, best: Score)
    requires i <= |g.legalMoves(s)|
    ensures Le(best, MaxOverV(g, a, s, i, d, best))
    ensures forall j :: i <= j < |g.legalMoves(s)| ==> Le(ChildMinValues(g, a, s, d)[j], MaxOverV(g, a, s, i, d, best))
    ensures MaxOverV(g, a, s, i, d, best) == best
         || exists j :: i <= j < |g.legalMoves(s)| && MaxOverV(g, a, s, i, d, best) == ChildMinValues(g, a, s, d)[j]
    decreases |g.legalMoves(s)| - i
  {
    if i < |g.legalMoves(s)| {
      var vals := ChildMinValues(g, a, s, d);
      var best' := Max(best, vals[i]);
      MaxOverIsMaximum(g, a, s, i + 1, d, best');
      assert MaxOverV(g, a, s, i, d, best) == MaxOverV(g, a, s, i + 1, d, best');
      forall j | i <= j < |g.legalMoves(s)|
        ensures Le(vals[j], MaxOverV(g, a, s, i, d, best))
      {
        if j == i {
          LeIsTotalOrder(vals[i], best', MaxOverV(g, a, s, i, d, best));
        }
      }
      LeIsTotalOrder(best, best', MaxOverV(g, a, s, i, d, best));
    }
  }

  /** The loop of min_value started at `best` ends with the minimum of
      `best` and the max-values of the remaining children. */
  lemma {:induction false} MinOverIsMinimum<S, P>(g: Game<S, P>, a: Agent<S, P>, s: S, i: nat, d: int, best: Score)
    requires i <= |g.legalMoves(s)|
    ensures Le(MinOverV(g, a, s, i, d, best), best)
    ensures forall j :: i <= j < |g.legalMoves(s)| ==> Le(MinOverV(g, a, s, i, d, best), ChildMaxValues(g, a, s, d)[j])
    ensures MinOverV(g, a, s, i, d, best) == best
         || exists j :: i <= j < |g.legalMoves(s)| && MinOverV(g, a, s, i, d, best) == ChildMaxValues(g, a, s, d)[j]
    decreases |g.legalMoves(s)| - i
  {
    if i < |g.legalMoves(s)| {
      var vals := ChildMaxValues(g, a, s, d);
      var best' := Min(best, vals[i]);
      MinOverIsMinimum(g, a, s, i + 1, d, best');
      assert MinOverV(g, a, s, i, d, best) == MinOverV(g, a, s, i + 1, d, best');
      forall j | i <= j < |g.legalMoves(s)|
        ensures Le(MinOverV(g, a, s, i, d, best), vals[j])
      {
        if j == i {
          LeIsTotalOrder(MinOverV(g, a, s, i, d, best), best', vals[i]);
        }
      }
      LeIsTotalOrder(MinOverV(g, a, s, i, d, best), best', best);
    }
  }

  /** max_value, declaratively: -inf when the side to move has lost, the
      oracle's score for the side to move at the depth limit, and otherwise
      the largest min-value among the children. */
  lemma MaxValueCharacterised<S, P>(g: Game<S, P>, a: Agent<S, P>, s: S, depth: int)
    ensures g.isLoser(s, g.active(s)) ==> MaxV(g, a, s, depth) == NegInf
    ensures !g.isLoser(s, g.active(s)) && depth <= 0 ==> MaxV(g, a, s, depth) == a.score(s, g.active(s))
    ensures !g.isLoser(s, g.active(s)) && depth > 0 ==>
              IsMaxOf(MaxV(g, a, s, depth), ChildMinValues(g, a, s, depth - 1))
  {
    if !g.isLoser(s, g.active(s)) && depth > 0 {
      var vals := ChildMinValues(g, a, s, depth - 1);
      MaxOverIsMaximum(g, a, s, 0, depth - 1, NegInf);
      if |vals| > 0 && MaxV(g, a, s, depth) == NegInf {
        LeIsTotalOrder(vals[0], NegInf, NegInf);
      }
    }
  }

  /** min_value, declaratively: +inf when the side to move has lost, the
      oracle's score for the root mover (the side not to move) at the depth
      limit, and otherwise the smallest max-value among the children. */
  lemma MinValueCharacterised<S, P>(g: Game<S, P>, a: Agent<S, P>, s: S, depth: int)
    ensures g.isLoser(s, g.active(s)) ==> MinV(g, a, s, depth) == PosInf
    ensures !g.isLoser(s, g.active(s)) && depth <= 0 ==> MinV(g, a, s, depth) == a.score(s, g.inactive(s))
    ensures !g.isLoser(s, g.active(s)) && depth > 0 ==>
              IsMinOf(MinV(g, a, s, depth), ChildMaxValues(g, a, s, depth - 1))
  {
    if !g.isLoser(s, g.active(s)) && depth > 0 {
      var vals := ChildMaxValues(g, a, s, depth - 1);
      MinOverIsMinimum(g, a, s, 0, depth - 1, PosInf);
      if |vals| > 0 && MinV(g, a, s, depth) == PosInf {
        LeIsTotalOrder(vals[0], PosInf, PosInf);
      }
    }
  }

  /** The number of frames the full search visits below and including s:
      every frame polls the clock once; a lost state or the depth limit is a
      leaf.  The count is the same for max and min layers. */
  ghost function Frames<S, P>(g: Game<S, P>, s: S, depth: int): nat
    decreases Plies(depth), 1, 0
  {
    1 + (if g.isLoser(s, g.active(s)) || depth <= 0 then 0 else FramesFrom(g, s, 0, depth - 1))
  }

  /** The frames visited under the children of s from the i-th legal move on. */
  ghost function FramesFrom<S, P>(g: Game<S, P>, s: S, i: nat, d: int): nat
    requires i <= |g.legalMoves(s)|
    decreases Plies(d) + 1, 0, |g.legalMoves(s)| - i
  {
    if i == |g.legalMoves(s)| then 0
    else Frames(g, g.forecast(s, g.legalMoves(s)[i]), d) + FramesFrom(g, s, i + 1, d)
  }

  /** Cancellation is exact: with t ticks, max_value completes precisely
      when the budget still meets the threshold at the last of the
      Frames polls of the full search, and then leaves t - Frames ticks.
      A cancelled frame therefore always cancels its callers. */
  lemma {:induction false} MaxValueCancelledExactly<S, P>(g: Game<S, P>, a: Agent<S, P>, s: S, depth: int, t: int)
    ensures var r := MaxValue(g, a, s, depth, Ticks(t));
            && (r.Ok? <==> a.timerThreshold + Frames(g, s, depth) - 1 <= t)
            && (r.Ok? ==> r.clock == Ticks(t - Frames(g, s, depth)))
    decreases Plies(depth), 1, 0
  {
    if a.timerThreshold <= t && !g.isLoser(s, g.active(s)) && depth > 0 {
      MaxOverCancelledExactly(g, a, s, 0, depth - 1, NegInf, t - 1);
    }
  }

  lemma {:induction false} MinValueCancelledExactly<S, P>(g: Game<S, P>, a: Agent<S, P>, s: S, depth: int, t: int)
    ensures var r := MinValue(g, a, s, depth, Ticks(t));
            && (r.Ok? <==> a.timerThreshold + Frames(g, s, depth) - 1 <= t)
            && (r.Ok? ==> r.clock == Ticks(t - Frames(g, s, depth)))
    decreases Plies(depth), 1, 0
  {
    if a.timerThreshold <= t && !g.isLoser(s, g.active(s)) && depth > 0 {
      MinOverCancelledExactly(g, a, s, 0, depth - 1, PosInf, t - 1);
    }
  }

  lemma {:induction false} MaxOverCancelledExactly<S, P>(g: Game<S, P>, a: Agent<S, P>, s: S, i: nat, d: int, best: Score, t: int)
    requires i <= |g.legalMoves(s)|
    requires a.timerThreshold - 1 <= t
    ensures var r := MaxOver(g, a, s, i, d, best, Ticks(t));
            && (r.Ok? <==> a.timerThreshold - 1 + FramesFrom(g, s, i, d) <= t)
            && (r.Ok? ==> r.clock == Ticks(t - FramesFrom(g, s, i, d)))
    decreases Plies(d) + 1, 0, |g.legalMoves(s)| - i
  {
    if i < |g.legalMoves(s)| {
      var child := g.forecast(s, g.legalMoves(s)[i]);
      MinValueCancelledExactly(g, a, child, d, t);
      match MinValue(g, a, child, d, Ticks(t))
      case Timeout =>
      case Ok(v, c1) =>
        MaxOverCancelledExactly(g, a, s, i + 1, d, Max(best, v), c1.left);
    }
  }

  lemma {:induction false} MinOverCancelledExactly<S, P>(g: Game<S, P>, a: Agent<S, P>, s: S, i: nat, d: int, best: Score, t: int)
    requires i <= |g.legalMoves(s)|
    requires a.timerThreshold - 1 <= t
    ensures var r := MinOver(g, a, s, i, d, best, Ticks(t));
            && (r.Ok? <==> a.timerThreshold - 1 + FramesFrom(g, s, i, d) <= t)
            && (r.Ok? ==> r.clock == Ticks(t - FramesFrom(g, s, i, d)))
    decreases Plies(d) + 1, 0, |g.legalMoves(s)| - i
  {
    if i < |g.legalMoves(s)| {
      var child := g.forecast(s, g.legalMoves(s)[i]);
      MaxValueCancelledExactly(g, a, child, d, t);
      match MaxValue(g, a, child, d, Ticks(t))
      case Timeout =>
      case Ok(v, c1) =>
        MinOverCancelledExactly(g, a, s, i + 1, d, Min(best, v), c1.left);
    }
  }

  lemma {:induction false} DecideOverCancelledExactly<S, P>(g: Game<S, P>, a: Agent<S, P>, s: S, i: nat, d: int,
                                                         maxVal: Score, best: Move, t: int)
    requires i <= |g.legalMoves(s)|
    requires a.timerThreshold - 1 <= t
    ensures DecideOver(g, a, s, i, d, maxVal, best, Ticks(t)).outcome.Ok?
            <==> a.timerThreshold - 1 + FramesFrom(g, s, i, d) <= t
    decreases |g.legalMoves(s)| - i
  {
    if i < |g.legalMoves(s)| {
      var child := g.forecast(s, g.legalMoves(s)[i]);
      MinValueCancelledExactly(g, a, child, d, t);
      match MinValue(g, a, child, d, Ticks(t))
      case Timeout =>
      case Ok(v, c1) =>
        if Le(maxVal, v) {
          DecideOverCancelledExactly(g, a, s, i + 1, d, v, g.legalMoves(s)[i], c1.left);
        } else {
          DecideOverCancelledExactly(g, a, s, i + 1, d, maxVal, best, c1.left);
        }
    }
  }

  /** minimax completes exactly when t ticks pay for its own poll and every
      frame under the active player's moves; otherwise get_move falls back
      on the current_best_move field. */
  lemma DecideCancelledExactly<S, P>(g: Game<S, P>, a: Agent<S, P>, s: S, depth: int, currentBest: Move, t: int)
    ensures var frames := 1 + (if g.isLoser(s, g.active(s)) then 0 else FramesFrom(g, s, 0, depth - 1));
            Decide(g, a, s, depth, currentBest, Ticks(t)).outcome.Ok? <==> a.timerThreshold + frames - 1 <= t
  {
    if a.timerThreshold <= t && !g.isLoser(s, g.active(s)) {
      DecideOverCancelledExactly(g, a, s, 0, depth - 1, NegInf, NegativeMove, t - 1);
    }
  }

  /** The top-level loop of minimax keeps, as its choice, the last best
      move among the children explored so far, so that on completion it
      answers the last best move among all of them. */
  lemma {:induction false} DecideOverPicksLastBest<S, P>(g: Game<S, P>, a: Agent<S, P>, s: S, i: nat, d: int,
                                                     maxVal: Score, best: Move, c: Budget,
                                                     vals: seq<Score>, k: int)
    returns (j: int)
    requires vals == ChildMinValues(g, a, s, d)
    requires i <= |vals|
    requires k == -1 ==> i == 0 && maxVal == NegInf
    requires k != -1 ==> IsLastBest(vals, i, k) && best == g.legalMoves(s)[k] && maxVal == vals[k]
    ensures var r := DecideOver(g, a, s, i, d, maxVal, best, c).outcome;
            r.Ok? && |vals| > 0 ==> IsLastBest(vals, |vals|, j) && r.value == g.legalMoves(s)[j]
    decreases |vals| - i
  {
    var moves := g.legalMoves(s);
    j := k;
    if i < |moves| {
      var child := g.forecast(s, moves[i]);
      match MinValue(g, a, child, d, c)
      case Timeout =>
      case Ok(v, c1) =>
        assert v == vals[i] by {
          MinValueIgnoresClock(g, a, child, d, c);
        }
        if Le(maxVal, v) {
          LastBestReplaced(vals, i, k);
          j := DecideOverPicksLastBest(g, a, s, i + 1, d, v, moves[i], c1, vals, i);
        } else {
          LastBestKept(vals, i, k);
          j := DecideOverPicksLastBest(g, a, s, i + 1, d, maxVal, best, c1, vals, k);
        }
    }
  }

  /** When the top-level loop of minimax is cancelled, the field it leaves
      behind is the one it started with or the last best move among the
      children explored before the cancellation. */
  lemma {:induction false} DecideOverLeavesExploredBest<S, P>(g: Game<S, P>, a: Agent<S, P>, s: S, i: nat, d: int,
                                                          maxVal: Score, best: Move, c: Budget,
                                                          vals: seq<Score>, k: int)
    requires vals == ChildMinValues(g, a, s, d)
    requires i <= |vals|
    requires k == -1 ==> i == 0 && maxVal == NegInf
    requires k != -1 ==> IsLastBest(vals, i, k) && best == g.legalMoves(s)[k] && maxVal == vals[k]
    ensures var r := DecideOver(g, a, s, i, d, maxVal, best, c);
            r.outcome.Timeout? ==>
              r.currentBest == best || exists n, j :: IsLastBest(vals, n, j) && r.currentBest == g.legalMoves(s)[j]
    decreases |vals| - i
  {
    var moves := g.legalMoves(s);
    if i < |moves| {
      var child := g.forecast(s, moves[i]);
      match MinValue(g, a, child, d, c)
      case Timeout =>
      case Ok(v, c1) =>
        assert v == vals[i] by {
          MinValueIgnoresClock(g, a, child, d, c);
        }
        if Le(maxVal, v) {
          LastBestReplaced(vals, i, k);
          DecideOverLeavesExploredBest(g, a, s, i + 1, d, v, moves[i], c1, vals, i);
        } else {
          LastBestKept(vals, i, k);
          DecideOverLeavesExploredBest(g, a, s, i + 1, d, maxVal, best, c1, vals, k);
        }
    }
  }

  /** minimax: when the active player has lost the answer is the sentinel;
      otherwise a completed search answers the last move whose min-value is
      the maximum over all legal moves, and a cancelled one leaves behind
      either the field it started with (when cancelled at its first poll),
      the sentinel, or the last best move among the children it explored. */
  lemma DecideChoosesLastBest<S, P>(g: Game<S, P>, a: Agent<S, P>, s: S, depth: int, currentBest: Move, c: Budget)
    ensures var r := Decide(g, a, s, depth, currentBest, c);
            var vals := ChildMinValues(g, a, s, depth - 1);
            && (r.outcome.Ok? && g.isLoser(s, g.active(s)) ==> r.outcome.value == NegativeMove)
            && (r.outcome.Ok? && |g.legalMoves(s)| == 0 ==> r.outcome.value == NegativeMove)
            && (r.outcome.Ok? && !g.isLoser(s, g.active(s)) && |g.legalMoves(s)| > 0 ==>
                  exists k :: IsLastBest(vals, |vals|, k) && r.outcome.value == g.legalMoves(s)[k])
            && (r.outcome.Timeout? && c.Ticks? && c.left < a.timerThreshold ==> r.currentBest == currentBest)
            && (r.outcome.Timeout? && !(c.Ticks? && c.left < a.timerThreshold) ==>
                  r.currentBest == NegativeMove
                  || exists n, k :: IsLastBest(vals, n, k) && r.currentBest == g.legalMoves(s)[k])
  {
    match Poll(c, a.timerThreshold)
    case Timeout =>
    case Ok(_, c1) =>
      if !g.isLoser(s, g.active(s)) {
        var vals := ChildMinValues(g, a, s, depth - 1);
        var j := DecideOverPicksLastBest(g, a, s, 0, depth - 1, NegInf, NegativeMove, c1, vals, -1);
        DecideOverLeavesExploredBest(g, a, s, 0, depth - 1, NegInf, NegativeMove, c1, vals, -1);
      }
  }

  /** On a well-formed board a completed minimax answers the sentinel
      exactly when the active player has lost, and a legal move otherwise. */
  lemma DecisionIsLegal<S(!new), P>(g: Game<S, P>, a: Agent<S, P>, s: S, depth: int, currentBest: Move, c: Budget)
    requires WellFormed(g)
    ensures var r := Decide(g, a, s, depth, currentBest, c);
            r.outcome.Ok? ==>
              && (r.outcome.value == NegativeMove <==> g.isLoser(s, g.active(s)))
              && (!g.isLoser(s, g.active(s)) ==> r.outcome.value in g.legalMoves(s))
  {
    DecideChoosesLastBest(g, a, s, depth, currentBest, c);
  }

  /** A state with a single legal move: minimax answers that move whatever
      the depth and the evaluation function. */
  lemma DecideWithOneMove<S(!new), P>(g: Game<S, P>, a: Agent<S, P>, s: S, depth: int, currentBest: Move, c: Budget)
    requires WellFormed(g)
    requires |g.legalMoves(s)| == 1
    ensures var r := Decide(g, a, s, depth, currentBest, c);
            r.outcome.Ok? ==> r.outcome.value == g.legalMoves(s)[0]
  {
    DecideChoosesLastBest(g, a, s, depth, currentBest, c);
  }

  /** The corrected wrapper: cancelled or not, the answer is the sentinel
      or a move of this position, and a completed search on a well-formed
      board answers a legal move unless the active player has lost. */
  lemma GetMoveFreshIsLegal<S(!new), P>(g: Game<S, P>, a: Agent<S, P>, s: S, c: Budget)
    requires WellFormed(g)
    ensures var m := GetMoveFresh(g, a, s, c);
            && (m == NegativeMove || m in g.legalMoves(s))
            && (Decide(g, a, s, a.searchDepth, NegativeMove, c).outcome.Ok? ==>
                  (m == NegativeMove <==> g.isLoser(s, g.active(s))))
  {
    DecisionIsLegal(g, a, s, a.searchDepth, NegativeMove, c);
  }

  /** A board with one state and one legal move, (0, 0), that never ends. */
  function OneMoveBoard(): (g: Game<int, int>)
    ensures WellFormed(g)
    ensures g.legalMoves(0) == [Move(0, 0)]
  {
    Game(s => 0, s => 1, s => [Move(0, 0)], (s, m) => s, (s, p) => false, (s, p) => Fin(0.0))
  }

  /** As written, get_move cancelled at the very first timer check answers
      the current_best_move left by the previous call: here (5, 5), which is
      neither legal in this position nor the sentinel. */
  lemma GetMoveAnswersStaleMove()
    ensures var g := OneMoveBoard();
            var a := Agent(3, (s: int, p: int) => Fin(0.0), 10);
            var m := GetMove(g, a, 0, Move(5, 5), Ticks(0));
            && m == Move(5, 5)
            && m !in g.legalMoves(0)
            && m != NegativeMove
  {
  }
}
