/** Properties of alpha-beta search: its windowed values agree with the
    minimax values, the top-level choice is the first best move, completed
    results do not depend on the clock, and the iterative-deepening driver
    answers only results of completed iterations. */
module AlphaBetaProofs {
  import opened Scores
  import opened Games
  import opened Clocks
  import Minimax
  import opened MinimaxProofs
  import opened AlphaBeta

  /** The fail-hard window contract between an alpha-beta value v and the
      minimax value m for the window (alpha, beta): exact inside the window,
      an upper bound at or below alpha, a lower bound at or above beta. */
  ghost predicate WithinWindow(v: Score, m: Score, alpha: Score, beta: Score) {
    && (Lt(alpha, m) && Lt(m, beta) ==> v == m)
    && (Le(m, alpha) ==> Le(v, alpha))
    && (Le(beta, m) ==> Le(beta, v))
  }

  /** The loop of alpha-beta max_value, against the minimax loop started at
      alpha: exact while the minimax running value stays below beta, and at
      least beta once it reaches beta. */
  lemma {:induction false} MaxOverWithinWindow<S(!new), P>(g: Game<S, P>, a: Agent<S, P>, s: S, i: nat, d: int,
                                                    move: Score, alpha: Score, beta: Score, c: Budget)
    requires SoundOracle(g, a.score)
    requires i <= |g.legalMoves(s)|
    requires Le(move, alpha) && Lt(alpha, beta)
    ensures var r := AlphaBeta.MaxOver(g, a, s, i, d, move, alpha, beta, c);
            var w := MaxOverV(g, a, s, i, d, alpha);
            r.Ok? ==> (Lt(w, beta) ==> r.value == w) && (Le(beta, w) ==> Le(beta, r.value))
    decreases Minimax.Plies(d) + 1, 0, |g.legalMoves(s)| - i
  {
    if i < |g.legalMoves(s)| {
      var child := g.forecast(s, g.legalMoves(s)[i]);
      var m := MinV(g, a, child, d);
      assert MaxOverV(g, a, s, i, d, alpha) == MaxOverV(g, a, s, i + 1, d, Max(alpha, m));
      MinValueWithinWindow(g, a, child, d, alpha, beta, c);
      match AlphaBeta.MinValue(g, a, child, d, alpha, beta, c)
      case Timeout =>
      case Ok(v, c1) =>
        var move' := Max(move, v);
        if Le(beta, m) {
          var w := MaxOverV(g, a, s, i + 1, d, Max(alpha, m));
          LeIsTotalOrder(beta, m, Max(alpha, m));
          LeIsTotalOrder(beta, Max(alpha, m), w);
        } else if Lt(alpha, m) {
          assert move' == m;
          MaxOverWithinWindow(g, a, s, i + 1, d, move', m, beta, c1);
        } else {
          assert Max(alpha, m) == alpha;
          MaxOverWithinWindow(g, a, s, i + 1, d, move', alpha, beta, c1);
        }
    }
  }

  /** The loop of alpha-beta min_value, against the minimax loop started at
      beta: exact while the minimax running value stays above alpha, and at
      most alpha once it reaches alpha. */
  lemma {:induction false} MinOverWithinWindow<S(!new), P>(g: Game<S, P>, a: Agent<S, P>, s: S, i: nat, d: int,
                                                    move: Score, alpha: Score, beta: Score, c: Budget)
    requires SoundOracle(g, a.score)
    requires i <= |g.legalMoves(s)|
    requires Le(beta, move) && Lt(alpha, beta)
    ensures var r := AlphaBeta.MinOver(g, a, s, i, d, move, alpha, beta, c);
            var w := MinOverV(g, a, s, i, d, beta);
            r.Ok? ==> (Lt(alpha, w) ==> r.value == w) && (Le(w, alpha) ==> Le(r.value, alpha))
    decreases Minimax.Plies(d) + 1, 0, |g.legalMoves(s)| - i
  {
    if i < |g.legalMoves(s)| {
      var child := g.forecast(s, g.legalMoves(s)[i]);
      var m := MaxV(g, a, child, d);
      assert MinOverV(g, a, s, i, d, beta) == MinOverV(g, a, s, i + 1, d, Min(beta, m));
      MaxValueWithinWindow(g, a, child, d, alpha, beta, c);
      match AlphaBeta.MaxValue(g, a, child, d, alpha, beta, c)
      case Timeout =>
      case Ok(v, c1) =>
        var move' := Min(move, v);
        if Le(m, alpha) {
          var w := MinOverV(g, a, s, i + 1, d, Min(beta, m));
          LeIsTotalOrder(w, Min(beta, m), m);
          LeIsTotalOrder(w, m, alpha);
        } else if Lt(m, beta) {
          assert move' == m;
          MinOverWithinWindow(g, a, s, i + 1, d, move', alpha, m, c1);
        } else {
          assert Min(beta, m) == beta;
          MinOverWithinWindow(g, a, s, i + 1, d, move', alpha, beta, c1);
        }
    }
  }

  /** Alpha-beta max_value agrees with minimax max_value under the fail-hard
      window contract, for any non-empty window and any budget, provided the
      oracle scores decided states +/-inf. */
  lemma {:induction false} MaxValueWithinWindow<S(!new), P>(g: Game<S, P>, a: Agent<S, P>, s: S, depth: int,
                                                     alpha: Score, beta: Score, c: Budget)
    requires SoundOracle(g, a.score)
    requires Lt(alpha, beta)
    ensures var r := AlphaBeta.MaxValue(g, a, s, depth, alpha, beta, c);
            r.Ok? ==> WithinWindow(r.value, MaxV(g, a, s, depth), alpha, beta)
    decreases Minimax.Plies(depth), 1, 0
  {
    match Poll(c, a.timerThreshold)
    case Timeout =>
    case Ok(_, c1) =>
      if !(depth <= 0 || g.isLoser(s, g.active(s))) {
        var m := MaxV(g, a, s, depth);
        var w := MaxOverV(g, a, s, 0, depth - 1, alpha);
        MaxOverWithinWindow(g, a, s, 0, depth - 1, NegInf, alpha, beta, c1);
        MaxValueCharacterised(g, a, s, depth);
        MaxOverIsMaximum(g, a, s, 0, depth - 1, alpha);
        var vals := ChildMinValues(g, a, s, depth - 1);
        // w is the maximum of alpha and the children's values, m of the children's
        if w == alpha {
          LeIsTotalOrder(m, alpha, alpha);
        } else {
          var j :| 0 <= j < |vals| && w == vals[j];
          LeIsTotalOrder(w, m, w);
          assert Le(m, w) by {
            if |vals| > 0 {
              var j' :| 0 <= j' < |vals| && m == vals[j'];
            }
          }
        }
        LeIsTotalOrder(beta, m, w);
      }
  }

  /** Alpha-beta min_value agrees with minimax min_value under the
      fail-hard window contract. */
  lemma {:induction false} MinValueWithinWindow<S(!new), P>(g: Game<S, P>, a: Agent<S, P>, s: S, depth: int,
                                                     alpha: Score, beta: Score, c: Budget)
    requires SoundOracle(g, a.score)
    requires Lt(alpha, beta)
    ensures var r := AlphaBeta.MinValue(g, a, s, depth, alpha, beta, c);
            r.Ok? ==> WithinWindow(r.value, MinV(g, a, s, depth), alpha, beta)
    decreases Minimax.Plies(depth), 1, 0
  {
    match Poll(c, a.timerThreshold)
    case Timeout =>
    case Ok(_, c1) =>
      if !(depth <= 0 || g.isLoser(s, g.active(s))) {
        var m := MinV(g, a, s, depth);
        var w := MinOverV(g, a, s, 0, depth - 1, beta);
        MinOverWithinWindow(g, a, s, 0, depth - 1, PosInf, alpha, beta, c1);
        MinValueCharacterised(g, a, s, depth);
        MinOverIsMinimum(g, a, s, 0, depth - 1, beta);
        var vals := ChildMaxValues(g, a, s, depth - 1);
        if w == beta {
          LeIsTotalOrder(beta, m, beta);
        } else {
          var j :| 0 <= j < |vals| && w == vals[j];
          LeIsTotalOrder(w, m, w);
          assert Le(w, m) by {
            if |vals| > 0 {
              var j' :| 0 <= j' < |vals| && m == vals[j'];
            }
          }
        }
        LeIsTotalOrder(w, m, alpha);
      }
  }

  /** One child of the top-level loop of alphabeta searched with window
      (bound, +inf): the value is above the bound exactly when the child's
      minimax value is, and then the two are equal. */
  lemma ChildWithinBound<S(!new), P>(g: Game<S, P>, a: Agent<S, P>, s: S, i: nat, d: int,
                                     bound: Score, c: Budget, vals: seq<Score>)
    requires SoundOracle(g, a.score)
    requires vals == ChildMinValues(g, a, s, d)
    requires i < |vals|
    ensures var r := MinValue(g, a, g.forecast(s, g.legalMoves(s)[i]), d, bound, PosInf, c);
            r.Ok? ==> (Lt(bound, r.value) <==> Lt(bound, vals[i])) && (Lt(bound, r.value) ==> r.value == vals[i])
  {
    if bound != PosInf {
      MinValueWithinWindow(g, a, g.forecast(s, g.legalMoves(s)[i]), d, bound, PosInf, c);
    }
  }

  /** The top-level loop of alphabeta with beta = +inf, when no child's
      minimax value exceeds alpha, never selects a move: fail-hard values
      stay at or below alpha, so the sentinel survives. */
  lemma {:induction false} SearchOverKeepsSentinel<S(!new), P>(g: Game<S, P>, a: Agent<S, P>, s: S, i: nat, d: int,
                                                        move: Score, alpha: Score, c: Budget, vals: seq<Score>)
    requires SoundOracle(g, a.score)
    requires vals == ChildMinValues(g, a, s, d)
    requires i <= |vals|
    requires Le(move, alpha)
    requires forall j :: 0 <= j < |vals| ==> Le(vals[j], alpha)
    ensures var r := SearchOver(g, a, s, i, d, move, alpha, NegativeMove, PosInf, c);
            r.Ok? ==> r.value == NegativeMove
    decreases |vals| - i
  {
    if i < |vals| {
      ChildWithinBound(g, a, s, i, d, alpha, c, vals);
      match MinValue(g, a, g.forecast(s, g.legalMoves(s)[i]), d, alpha, PosInf, c)
      case Timeout =>
      case Ok(v, c1) =>
        SearchOverKeepsSentinel(g, a, s, i + 1, d, Max(move, v), alpha, c1, vals);
    }
  }

  /** The top-level loop of alphabeta with beta = +inf keeps, as its
      choice, the first move whose minimax value is the largest explored so
      far, provided that value is above alpha.  `k` is the index of that
      move (-1 while none is selected) and `w` a child above alpha still to
      come when none is selected yet. */
  lemma {:induction false} SearchOverPicksFirstBest<S(!new), P>(g: Game<S, P>, a: Agent<S, P>, s: S, i: nat, d: int,
                                                         move: Score, bound: Score, best: Move,
                                                         alpha: Score, c: Budget, vals: seq<Score>, k: int, w: int)
    returns (k': int)
    requires SoundOracle(g, a.score)
    requires vals == ChildMinValues(g, a, s, d)
    requires i <= |vals|
    requires Le(move, bound)
    requires k == -1 ==> bound == alpha && forall j :: 0 <= j < i ==> Le(vals[j], alpha)
    requires k != -1 ==> IsFirstBest(vals, i, k) && best == g.legalMoves(s)[k] && bound == vals[k]
    requires k == -1 ==> i <= w < |vals| && Lt(alpha, vals[w])
    ensures var r := SearchOver(g, a, s, i, d, move, bound, best, PosInf, c);
            r.Ok? ==> IsFirstBest(vals, |vals|, k') && r.value == g.legalMoves(s)[k']
    decreases |vals| - i, 1
  {
    k' := k;
    if i < |vals| {
      match MinValue(g, a, g.forecast(s, g.legalMoves(s)[i]), d, bound, PosInf, c)
      case Timeout =>
      case Ok(v, c1) =>
        if Lt(bound, Max(move, v)) {
          k' := SearchOverSelects(g, a, s, i, d, move, bound, best, alpha, c, vals, k, w, v, c1);
        } else {
          k' := SearchOverKeeps(g, a, s, i, d, move, bound, best, alpha, c, vals, k, w, v, c1);
        }
    }
  }

  /** A step of the top-level loop of alphabeta that selects child i: its
      value exceeds every value before it, so it is the first best so far. */
  lemma {:induction false} SearchOverSelects<S(!new), P>(g: Game<S, P>, a: Agent<S, P>, s: S, i: nat, d: int,
                                                  move: Score, bound: Score, best: Move,
                                                  alpha: Score, c: Budget, vals: seq<Score>, k: int, w: int,
                                                  v: Score, c1: Budget)
    returns (k': int)
    requires SoundOracle(g, a.score)
    requires vals == ChildMinValues(g, a, s, d)
    requires i < |vals|
    requires Le(move, bound)
    requires k == -1 ==> bound == alpha && forall j :: 0 <= j < i ==> Le(vals[j], alpha)
    requires k != -1 ==> IsFirstBest(vals, i, k) && best == g.legalMoves(s)[k] && bound == vals[k]
    requires k == -1 ==> i <= w < |vals| && Lt(alpha, vals[w])
    requires MinValue(g, a, g.forecast(s, g.legalMoves(s)[i]), d, bound, PosInf, c) == Ok(v, c1)
    requires Lt(bound, Max(move, v))
    ensures var r := SearchOver(g, a, s, i, d, move, bound, best, PosInf, c);
            r.Ok? ==> IsFirstBest(vals, |vals|, k') && r.value == g.legalMoves(s)[k']
    decreases |vals| - i, 0
  {
    var move' := Max(move, v);
    assert move' == vals[i] && IsFirstBest(vals, i + 1, i) by {
      ChildWithinBound(g, a, s, i, d, bound, c, vals);
      FirstBestReplaced(vals, i, bound);
    }
    k' := SearchOverPicksFirstBest(g, a, s, i + 1, d, move', move', g.legalMoves(s)[i], alpha, c1, vals, i, w);
  }

  /** A step of the top-level loop of alphabeta that keeps its choice:
      child i is no better than the first best so far. */
  lemma {:induction false} SearchOverKeeps<S(!new), P>(g: Game<S, P>, a: Agent<S, P>, s: S, i: nat, d: int,
                                                move: Score, bound: Score, best: Move,
                                                alpha: Score, c: Budget, vals: seq<Score>, k: int, w: int,
                                                v: Score, c1: Budget)
    returns (k': int)
    requires SoundOracle(g, a.score)
    requires vals == ChildMinValues(g, a, s, d)
    requires i < |vals|
    requires Le(move, bound)
    requires k == -1 ==> bound == alpha && forall j :: 0 <= j < i ==> Le(vals[j], alpha)
    requires k != -1 ==> IsFirstBest(vals, i, k) && best == g.legalMoves(s)[k] && bound == vals[k]
    requires k == -1 ==> i <= w < |vals| && Lt(alpha, vals[w])
    requires MinValue(g, a, g.forecast(s, g.legalMoves(s)[i]), d, bound, PosInf, c) == Ok(v, c1)
    requires !Lt(bound, Max(move, v))
    ensures var r := SearchOver(g, a, s, i, d, move, bound, best, PosInf, c);
            r.Ok? ==> IsFirstBest(vals, |vals|, k') && r.value == g.legalMoves(s)[k']
    decreases |vals| - i, 0
  {
    assert Le(vals[i], bound) by {
      ChildWithinBound(g, a, s, i, d, bound, c, vals);
      LeIsTotalOrder(v, Max(move, v), bound);
    }
    if k != -1 {
      FirstBestKept(vals, i, k);
    }
    k' := SearchOverPicksFirstBest(g, a, s, i + 1, d, Max(move, v), bound, best, alpha, c1, vals, k, w);
  }

  /** alphabeta with window (alpha, +inf): a completed search answers the
      sentinel when no child's minimax value rises above alpha, and
      otherwise the first legal move whose minimax value is the largest. */
  lemma SearchChoosesFirstBest<S(!new), P>(g: Game<S, P>, a: Agent<S, P>, s: S, depth: int, alpha: Score, c: Budget)
    requires SoundOracle(g, a.score)
    ensures var r := Search(g, a, s, depth, alpha, PosInf, c);
            var vals := ChildMinValues(g, a, s, depth - 1);
            r.Ok? ==>
              && ((forall j :: 0 <= j < |vals| ==> Le(vals[j], alpha)) ==> r.value == NegativeMove)
              && ((exists j :: 0 <= j < |vals| && Lt(alpha, vals[j])) ==>
                    exists k :: IsFirstBest(vals, |vals|, k) && r.value == g.legalMoves(s)[k])
  {
    match Poll(c, a.timerThreshold)
    case Timeout =>
    case Ok(_, c1) =>
      var vals := ChildMinValues(g, a, s, depth - 1);
      if forall j :: 0 <= j < |vals| ==> Le(vals[j], alpha) {
        SearchOverKeepsSentinel(g, a, s, 0, depth - 1, NegInf, alpha, c1, vals);
      } else {
        var w :| 0 <= w < |vals| && Lt(alpha, vals[w]);
        var k := SearchOverPicksFirstBest(g, a, s, 0, depth - 1, NegInf, alpha, NegativeMove, alpha, c1, vals, -1, w);
      }
  }

  /** Alpha-beta with the full window and minimax at the same depth choose
      moves of the same minimax value: alpha-beta the first such move,
      minimax the last, so they answer the same move exactly when the best
      value is attained once.  When every move is a proven loss (-inf),
      alpha-beta answers the sentinel although legal moves exist. */
  lemma SearchAgreesWithMinimax<S(!new), P>(g: Game<S, P>, a: Agent<S, P>, s: S, depth: int,
                                           currentBest: Move, c1: Budget, c2: Budget)
    requires SoundOracle(g, a.score)
    requires !g.isLoser(s, g.active(s))
    ensures var ab := Search(g, a, s, depth, NegInf, PosInf, c1);
            var mm := Minimax.Decide(g, a, s, depth, currentBest, c2).outcome;
            var vals := ChildMinValues(g, a, s, depth - 1);
            ab.Ok? && mm.Ok? ==>
              && ((forall j :: 0 <= j < |vals| ==> vals[j] == NegInf) ==> ab.value == NegativeMove)
              && ((exists j :: 0 <= j < |vals| && vals[j] != NegInf) ==>
                    exists k1, k2 ::
                      && 0 <= k1 <= k2 < |vals|
                      && ab.value == g.legalMoves(s)[k1]
                      && mm.value == g.legalMoves(s)[k2]
                      && vals[k1] == vals[k2]
                      && IsFirstBest(vals, |vals|, k1)
                      && (k1 == k2 <==> forall j :: 0 <= j < |vals| && j != k1 ==> Lt(vals[j], vals[k1])))
  {
    var ab := Search(g, a, s, depth, NegInf, PosInf, c1);
    var mm := Minimax.Decide(g, a, s, depth, currentBest, c2).outcome;
    var vals := ChildMinValues(g, a, s, depth - 1);
    SearchChoosesFirstBest(g, a, s, depth, NegInf, c1);
    DecideChoosesLastBest(g, a, s, depth, currentBest, c2);
    if ab.Ok? && mm.Ok? && exists j :: 0 <= j < |vals| && vals[j] != NegInf {
      var j :| 0 <= j < |vals| && vals[j] != NegInf;
      assert Lt(NegInf, vals[j]);
      var k1 :| IsFirstBest(vals, |vals|, k1) && ab.value == g.legalMoves(s)[k1];
      var k2 :| IsLastBest(vals, |vals|, k2) && mm.value == g.legalMoves(s)[k2];
      FirstAndLastBestAgree(vals, k1, k2);
    }
  }

  /** The move alphabeta answers at the given depth with the full window,
      computed with a clock that never runs low. */
  ghost function SearchMove<S, P>(g: Game<S, P>, a: Agent<S, P>, s: S, depth: int): Move {
    Search(g, a, s, depth, NegInf, PosInf, Unbounded).value
  }

  /** A windowed search that completes under any budget computes exactly
      what the unbounded search computes: no frame absorbs a cancellation
      into a partial value. */
  lemma {:induction false} WindowedMaxIgnoresClock<S, P>(g: Game<S, P>, a: Agent<S, P>, s: S, depth: int,
                                                       alpha: Score, beta: Score, c: Budget)
    ensures var r := AlphaBeta.MaxValue(g, a, s, depth, alpha, beta, c);
            r.Ok? ==> r.value == AlphaBeta.MaxValue(g, a, s, depth, alpha, beta, Unbounded).value
    decreases Minimax.Plies(depth), 1, 0
  {
    match Poll(c, a.timerThreshold)
    case Timeout =>
    case Ok(_, c1) =>
      if !(depth <= 0 || g.isLoser(s, g.active(s))) {
        WindowedMaxOverIgnoresClock(g, a, s, 0, depth - 1, NegInf, alpha, beta, c1);
      }
  }

  lemma {:induction false} WindowedMinIgnoresClock<S, P>(g: Game<S, P>, a: Agent<S, P>, s: S, depth: int,
                                                       alpha: Score, beta: Score, c: Budget)
    ensures var r := AlphaBeta.MinValue(g, a, s, depth, alpha, beta, c);
            r.Ok? ==> r.value == AlphaBeta.MinValue(g, a, s, depth, alpha, beta, Unbounded).value
    decreases Minimax.Plies(depth), 1, 0
  {
    match Poll(c, a.timerThreshold)
    case Timeout =>
    case Ok(_, c1) =>
      if !(depth <= 0 || g.isLoser(s, g.active(s))) {
        WindowedMinOverIgnoresClock(g, a, s, 0, depth - 1, PosInf, alpha, beta, c1);
      }
  }

  lemma {:induction false} WindowedMaxOverIgnoresClock<S, P>(g: Game<S, P>, a: Agent<S, P>, s: S, i: nat, d: int,
                                                           move: Score, alpha: Score, beta: Score, c: Budget)
    requires i <= |g.legalMoves(s)|
    ensures var r := AlphaBeta.MaxOver(g, a, s, i, d, move, alpha, beta, c);
            r.Ok? ==> r.value == AlphaBeta.MaxOver(g, a, s, i, d, move, alpha, beta, Unbounded).value
    decreases Minimax.Plies(d) + 1, 0, |g.legalMoves(s)| - i
  {
    if i < |g.legalMoves(s)| {
      var child := g.forecast(s, g.legalMoves(s)[i]);
      WindowedMinIgnoresClock(g, a, child, d, alpha, beta, c);
      match AlphaBeta.MinValue(g, a, child, d, alpha, beta, c)
      case Timeout =>
      case Ok(v, c1) =>
        var move' := Max(move, v);
        if !Le(beta, move') {
          WindowedMaxOverIgnoresClock(g, a, s, i + 1, d, move', Max(alpha, move'), beta, c1);
        }
    }
  }

  lemma {:induction false} WindowedMinOverIgnoresClock<S, P>(g: Game<S, P>, a: Agent<S, P>, s: S, i: nat, d: int,
                                                           move: Score, alpha: Score, beta: Score, c: Budget)
    requires i <= |g.legalMoves(s)|
    ensures var r := AlphaBeta.MinOver(g, a, s, i, d, move, alpha, beta, c);
            r.Ok? ==> r.value == AlphaBeta.MinOver(g, a, s, i, d, move, alpha, beta, Unbounded).value
    decreases Minimax.Plies(d) + 1, 0, |g.legalMoves(s)| - i
  {
    if i < |g.legalMoves(s)| {
      var child := g.forecast(s, g.legalMoves(s)[i]);
      WindowedMaxIgnoresClock(g, a, child, d, alpha, beta, c);
      match AlphaBeta.MaxValue(g, a, child, d, alpha, beta, c)
      case Timeout =>
      case Ok(v, c1) =>
        var move' := Min(move, v);
        if !Le(move', alpha) {
          WindowedMinOverIgnoresClock(g, a, s, i + 1, d, move', alpha, Min(beta, move'), c1);
        }
    }
  }

  lemma {:induction false} SearchOverIgnoresClock<S, P>(g: Game<S, P>, a: Agent<S, P>, s: S, i: nat, d: int,
                                                      move: Score, bound: Score, best: Move, beta: Score, c: Budget)
    requires i <= |g.legalMoves(s)|
    ensures var r := SearchOver(g, a, s, i, d, move, bound, best, beta, c);
            r.Ok? ==> r.value == SearchOver(g, a, s, i, d, move, bound, best, beta, Unbounded).value
    decreases |g.legalMoves(s)| - i
  {
    if i < |g.legalMoves(s)| {
      var child := g.forecast(s, g.legalMoves(s)[i]);
      WindowedMinIgnoresClock(g, a, child, d, bound, beta, c);
      match AlphaBeta.MinValue(g, a, child, d, bound, beta, c)
      case Timeout =>
      case Ok(v, c1) =>
        var move' := Max(move, v);
        if Lt(bound, move') {
          SearchOverIgnoresClock(g, a, s, i + 1, d, move', move', g.legalMoves(s)[i], beta, c1);
        } else {
          SearchOverIgnoresClock(g, a, s, i + 1, d, move', bound, best, beta, c1);
        }
    }
  }

  /** A completed alphabeta answers the same move whatever its budget. */
  lemma SearchIgnoresClock<S, P>(g: Game<S, P>, a: Agent<S, P>, s: S, depth: int, alpha: Score, beta: Score, c: Budget)
    ensures var r := Search(g, a, s, depth, alpha, beta, c);
            r.Ok? ==> r.value == Search(g, a, s, depth, alpha, beta, Unbounded).value
  {
    match Poll(c, a.timerThreshold)
    case Timeout =>
    case Ok(_, c1) =>
      SearchOverIgnoresClock(g, a, s, 0, depth - 1, NegInf, alpha, NegativeMove, beta, c1);
  }

  /** The frames a full max_value search with window (alpha, beta) visits;
      a beta cut-off skips the remaining children. */
  ghost function MaxFrames<S, P>(g: Game<S, P>, a: Agent<S, P>, s: S, depth: int, alpha: Score, beta: Score): nat
    decreases Minimax.Plies(depth), 1, 0
  {
    1 + (if depth <= 0 || g.isLoser(s, g.active(s)) then 0
         else MaxOverFrames(g, a, s, 0, depth - 1, NegInf, alpha, beta))
  }

  ghost function MaxOverFrames<S, P>(g: Game<S, P>, a: Agent<S, P>, s: S, i: nat, d: int,
                                     move: Score, alpha: Score, beta: Score): nat
    requires i <= |g.legalMoves(s)|
    decreases Minimax.Plies(d) + 1, 0, |g.legalMoves(s)| - i
  {
    if i == |g.legalMoves(s)| then 0
    else
      var child := g.forecast(s, g.legalMoves(s)[i]);
      var move' := Max(move, AlphaBeta.MinValue(g, a, child, d, alpha, beta, Unbounded).value);
      MinFrames(g, a, child, d, alpha, beta)
        + (if Le(beta, move') then 0 else MaxOverFrames(g, a, s, i + 1, d, move', Max(alpha, move'), beta))
  }

  /** The frames a full min_value search with window (alpha, beta) visits;
      an alpha cut-off skips the remaining children. */
  ghost function MinFrames<S, P>(g: Game<S, P>, a: Agent<S, P>, s: S, depth: int, alpha: Score, beta: Score): nat
    decreases Minimax.Plies(depth), 1, 0
  {
    1 + (if depth <= 0 || g.isLoser(s, g.active(s)) then 0
         else MinOverFrames(g, a, s, 0, depth - 1, PosInf, alpha, beta))
  }

  ghost function MinOverFrames<S, P>(g: Game<S, P>, a: Agent<S, P>, s: S, i: nat, d: int,
                                     move: Score, alpha: Score, beta: Score): nat
    requires i <= |g.legalMoves(s)|
    decreases Minimax.Plies(d) + 1, 0, |g.legalMoves(s)| - i
  {
    if i == |g.legalMoves(s)| then 0
    else
      var child := g.forecast(s, g.legalMoves(s)[i]);
      var move' := Min(move, AlphaBeta.MaxValue(g, a, child, d, alpha, beta, Unbounded).value);
      MaxFrames(g, a, child, d, alpha, beta)
        + (if Le(move', alpha) then 0 else MinOverFrames(g, a, s, i + 1, d, move', alpha, Min(beta, move')))
  }

  /** The frames a full alphabeta search visits: its own poll and every
      child's min_value search with the window narrowed so far. */
  ghost function SearchFrames<S, P>(g: Game<S, P>, a: Agent<S, P>, s: S, depth: int, alpha: Score, beta: Score): nat {
    1 + SearchOverFrames(g, a, s, 0, depth - 1, NegInf, alpha, beta)
  }

  ghost function SearchOverFrames<S, P>(g: Game<S, P>, a: Agent<S, P>, s: S, i: nat, d: int,
                                        move: Score, bound: Score, beta: Score): nat
    requires i <= |g.legalMoves(s)|
    decreases |g.legalMoves(s)| - i
  {
    if i == |g.legalMoves(s)| then 0
    else
      var child := g.forecast(s, g.legalMoves(s)[i]);
      var move' := Max(move, AlphaBeta.MinValue(g, a, child, d, bound, beta, Unbounded).value);
      MinFrames(g, a, child, d, bound, beta)
        + SearchOverFrames(g, a, s, i + 1, d, move', if Lt(bound, move') then move' else bound, beta)
  }

  /** Cancellation of alpha-beta max_value is exact: with t ticks it
      completes precisely when the budget still meets the threshold at the
      last of the MaxFrames polls of the full search, and leaves
      t - MaxFrames ticks. */
  lemma {:induction false} WindowedMaxCancelledExactly<S, P>(g: Game<S, P>, a: Agent<S, P>, s: S, depth: int,
                                                           alpha: Score, beta: Score, t: int)
    ensures var r := AlphaBeta.MaxValue(g, a, s, depth, alpha, beta, Ticks(t));
            var f := MaxFrames(g, a, s, depth, alpha, beta);
            && (r.Ok? <==> a.timerThreshold + f - 1 <= t)
            && (r.Ok? ==> r.clock == Ticks(t - f))
    decreases Minimax.Plies(depth), 1, 0, 0
  {
    if a.timerThreshold <= t && !(depth <= 0 || g.isLoser(s, g.active(s))) {
      WindowedMaxOverCancelledExactly(g, a, s, 0, depth - 1, NegInf, alpha, beta, t - 1);
    }
  }

  lemma {:induction false} WindowedMinCancelledExactly<S, P>(g: Game<S, P>, a: Agent<S, P>, s: S, depth: int,
                                                           alpha: Score, beta: Score, t: int)
    ensures var r := AlphaBeta.MinValue(g, a, s, depth, alpha, beta, Ticks(t));
            var f := MinFrames(g, a, s, depth, alpha, beta);
            && (r.Ok? <==> a.timerThreshold + f - 1 <= t)
            && (r.Ok? ==> r.clock == Ticks(t - f))
    decreases Minimax.Plies(depth), 1, 0, 0
  {
    if a.timerThreshold <= t && !(depth <= 0 || g.isLoser(s, g.active(s))) {
      WindowedMinOverCancelledExactly(g, a, s, 0, depth - 1, PosInf, alpha, beta, t - 1);
    }
  }

  lemma {:induction false} WindowedMaxOverCancelledExactly<S, P>(g: Game<S, P>, a: Agent<S, P>, s: S, i: nat, d: int,
                                                               move: Score, alpha: Score, beta: Score, t: int)
    requires i <= |g.legalMoves(s)|
    requires a.timerThreshold - 1 <= t
    ensures var r := AlphaBeta.MaxOver(g, a, s, i, d, move, alpha, beta, Ticks(t));
            var f := MaxOverFrames(g, a, s, i, d, move, alpha, beta);
            && (r.Ok? <==> a.timerThreshold - 1 + f <= t)
            && (r.Ok? ==> r.clock == Ticks(t - f))
    decreases Minimax.Plies(d) + 1, 0, |g.legalMoves(s)| - i, 1
  {
    if i < |g.legalMoves(s)| {
      var child := g.forecast(s, g.legalMoves(s)[i]);
      var r := AlphaBeta.MinValue(g, a, child, d, alpha, beta, Ticks(t));
      var u := AlphaBeta.MinValue(g, a, child, d, alpha, beta, Unbounded).value;
      var f := MinFrames(g, a, child, d, alpha, beta);
      assert (r.Ok? <==> a.timerThreshold - 1 + f <= t) && (r.Ok? ==> r == Ok(u, Ticks(t - f))) by {
        WindowedMinCancelledExactly(g, a, child, d, alpha, beta, t);
        WindowedMinIgnoresClock(g, a, child, d, alpha, beta, Ticks(t));
      }
      if r.Ok? {
        WindowedMaxOverCompletedChild(g, a, s, i, d, move, alpha, beta, t, u, f);
      }
    }
  }

  /** A step of the max_value loop whose child search completes with
      value u after f frames: the loop stops at a cut-off or goes on from
      the next child with t - f ticks. */
  lemma {:induction false} WindowedMaxOverCompletedChild<S, P>(g: Game<S, P>, a: Agent<S, P>, s: S, i: nat, d: int,
                                                                 move: Score, alpha: Score, beta: Score, t: int,
                                                                 u: Score, f: nat)
    requires i < |g.legalMoves(s)|
    requires f == MinFrames(g, a, g.forecast(s, g.legalMoves(s)[i]), d, alpha, beta)
    requires a.timerThreshold - 1 + f <= t
    requires AlphaBeta.MinValue(g, a, g.forecast(s, g.legalMoves(s)[i]), d, alpha, beta, Ticks(t)) == Ok(u, Ticks(t - f))
    requires AlphaBeta.MinValue(g, a, g.forecast(s, g.legalMoves(s)[i]), d, alpha, beta, Unbounded).value == u
    ensures var r := AlphaBeta.MaxOver(g, a, s, i, d, move, alpha, beta, Ticks(t));
            var f := MaxOverFrames(g, a, s, i, d, move, alpha, beta);
            && (r.Ok? <==> a.timerThreshold - 1 + f <= t)
            && (r.Ok? ==> r.clock == Ticks(t - f))
    decreases Minimax.Plies(d) + 1, 0, |g.legalMoves(s)| - i, 0
  {
    var move' := Max(move, u);
    if !Le(beta, move') {
      WindowedMaxOverCancelledExactly(g, a, s, i + 1, d, move', Max(alpha, move'), beta, t - f);
    }
  }

  lemma {:induction false} WindowedMinOverCancelledExactly<S, P>(g: Game<S, P>, a: Agent<S, P>, s: S, i: nat, d: int,
                                                               move: Score, alpha: Score, beta: Score, t: int)
    requires i <= |g.legalMoves(s)|
    requires a.timerThreshold - 1 <= t
    ensures var r := AlphaBeta.MinOver(g, a, s, i, d, move, alpha, beta, Ticks(t));
            var f := MinOverFrames(g, a, s, i, d, move, alpha, beta);
            && (r.Ok? <==> a.timerThreshold - 1 + f <= t)
            && (r.Ok? ==> r.clock == Ticks(t - f))
    decreases Minimax.Plies(d) + 1, 0, |g.legalMoves(s)| - i, 1
  {
    if i < |g.legalMoves(s)| {
      var child := g.forecast(s, g.legalMoves(s)[i]);
      var r := AlphaBeta.MaxValue(g, a, child, d, alpha, beta, Ticks(t));
      var u := AlphaBeta.MaxValue(g, a, child, d, alpha, beta, Unbounded).value;
      var f := MaxFrames(g, a, child, d, alpha, beta);
      assert (r.Ok? <==> a.timerThreshold - 1 + f <= t) && (r.Ok? ==> r == Ok(u, Ticks(t - f))) by {
        WindowedMaxCancelledExactly(g, a, child, d, alpha, beta, t);
        WindowedMaxIgnoresClock(g, a, child, d, alpha, beta, Ticks(t));
      }
      if r.Ok? {
        WindowedMinOverCompletedChild(g, a, s, i, d, move, alpha, beta, t, u, f);
      }
    }
  }

  /** A step of the min_value loop whose child search completes with
      value u after f frames: the loop stops at a cut-off or goes on from
      the next child with t - f ticks. */
  lemma {:induction false} WindowedMinOverCompletedChild<S, P>(g: Game<S, P>, a: Agent<S, P>, s: S, i: nat, d: int,
                                                                 move: Score, alpha: Score, beta: Score, t: int,
                                                                 u: Score, f: nat)
    requires i < |g.legalMoves(s)|
    requires f == MaxFrames(g, a, g.forecast(s, g.legalMoves(s)[i]), d, alpha, beta)
    requires a.timerThreshold - 1 + f <= t
    requires AlphaBeta.MaxValue(g, a, g.forecast(s, g.legalMoves(s)[i]), d, alpha, beta, Ticks(t)) == Ok(u, Ticks(t - f))
    requires AlphaBeta.MaxValue(g, a, g.forecast(s, g.legalMoves(s)[i]), d, alpha, beta, Unbounded).value == u
    ensures var r := AlphaBeta.MinOver(g, a, s, i, d, move, alpha, beta, Ticks(t));
            var f := MinOverFrames(g, a, s, i, d, move, alpha, beta);
            && (r.Ok? <==> a.timerThreshold - 1 + f <= t)
            && (r.Ok? ==> r.clock == Ticks(t - f))
    decreases Minimax.Plies(d) + 1, 0, |g.legalMoves(s)| - i, 0
  {
    var move' := Min(move, u);
    if !Le(move', alpha) {
      WindowedMinOverCancelledExactly(g, a, s, i + 1, d, move', alpha, Min(beta, move'), t - f);
    }
  }

  lemma {:induction false} SearchOverCancelledExactly<S, P>(g: Game<S, P>, a: Agent<S, P>, s: S, i: nat, d: int,
                                                          move: Score, bound: Score, best: Move, beta: Score, t: int)
    requires i <= |g.legalMoves(s)|
    requires a.timerThreshold - 1 <= t
    ensures var r := SearchOver(g, a, s, i, d, move, bound, best, beta, Ticks(t));
            var f := SearchOverFrames(g, a, s, i, d, move, bound, beta);
            && (r.Ok? <==> a.timerThreshold - 1 + f <= t)
            && (r.Ok? ==> r.clock == Ticks(t - f))
    decreases |g.legalMoves(s)| - i, 1
  {
    if i < |g.legalMoves(s)| {
      var child := g.forecast(s, g.legalMoves(s)[i]);
      var r := AlphaBeta.MinValue(g, a, child, d, bound, beta, Ticks(t));
      var u := AlphaBeta.MinValue(g, a, child, d, bound, beta, Unbounded).value;
      var f := MinFrames(g, a, child, d, bound, beta);
      assert (r.Ok? <==> a.timerThreshold - 1 + f <= t) && (r.Ok? ==> r == Ok(u, Ticks(t - f))) by {
        WindowedMinCancelledExactly(g, a, child, d, bound, beta, t);
        WindowedMinIgnoresClock(g, a, child, d, bound, beta, Ticks(t));
      }
      if r.Ok? {
        SearchOverCompletedChild(g, a, s, i, d, move, bound, best, beta, t, u, f);
      }
    }
  }

  /** A step of the top-level loop whose child search completes with value
      u after f frames: the loop goes on from the next child with t - f
      ticks. */
  lemma {:induction false} SearchOverCompletedChild<S, P>(g: Game<S, P>, a: Agent<S, P>, s: S, i: nat, d: int,
                                                        move: Score, bound: Score, best: Move, beta: Score, t: int,
                                                        u: Score, f: nat)
    requires i < |g.legalMoves(s)|
    requires f == MinFrames(g, a, g.forecast(s, g.legalMoves(s)[i]), d, bound, beta)
    requires a.timerThreshold - 1 + f <= t
    requires AlphaBeta.MinValue(g, a, g.forecast(s, g.legalMoves(s)[i]), d, bound, beta, Ticks(t)) == Ok(u, Ticks(t - f))
    requires AlphaBeta.MinValue(g, a, g.forecast(s, g.legalMoves(s)[i]), d, bound, beta, Unbounded).value == u
    ensures var r := SearchOver(g, a, s, i, d, move, bound, best, beta, Ticks(t));
            var f := SearchOverFrames(g, a, s, i, d, move, bound, beta);
            && (r.Ok? <==> a.timerThreshold - 1 + f <= t)
            && (r.Ok? ==> r.clock == Ticks(t - f))
    decreases |g.legalMoves(s)| - i, 0
  {
    var move' := Max(move, u);
    if Lt(bound, move') {
      SearchOverCancelledExactly(g, a, s, i + 1, d, move', move', g.legalMoves(s)[i], beta, t - f);
    } else {
      SearchOverCancelledExactly(g, a, s, i + 1, d, move', bound, best, beta, t - f);
    }
  }

  /** alphabeta completes exactly when t ticks pay for all SearchFrames
      polls of the full search, and then leaves t - SearchFrames ticks. */
  lemma SearchCancelledExactly<S, P>(g: Game<S, P>, a: Agent<S, P>, s: S, depth: int, alpha: Score, beta: Score, t: int)
    ensures var r := Search(g, a, s, depth, alpha, beta, Ticks(t));
            var f := SearchFrames(g, a, s, depth, alpha, beta);
            && (r.Ok? <==> a.timerThreshold + f - 1 <= t)
            && (r.Ok? ==> r.clock == Ticks(t - f))
  {
    if a.timerThreshold <= t {
      SearchOverCancelledExactly(g, a, s, 0, depth - 1, NegInf, alpha, NegativeMove, beta, t - 1);
    }
  }

  /** The deepening loop never answers a cancelled iteration's work, nor an
      iteration shallower than the one it has recorded: its answer is the
      first-legal-move fallback, the recorded move, or the move of a deeper
      completed iteration. */
  lemma {:induction false} DeepenAnswersCompletedIteration<S, P>(g: Game<S, P>, a: Agent<S, P>, s: S,
                                                                completed: nat, best: Move, t: int)
    requires completed == 0 ==> best == NegativeMove
    requires completed > 0 ==> best == SearchMove(g, a, s, completed)
    ensures var m := Deepen(g, a, s, completed, best, t);
            || m == FirstLegalOrNegative(g, s)
            || (m == best && best != NegativeMove)
            || exists n :: completed < n && m == SearchMove(g, a, s, n)
    decreases t - a.timerThreshold + 1
  {
    SearchIgnoresClock(g, a, s, completed + 1, NegInf, PosInf, Ticks(t));
    match Search(g, a, s, completed + 1, NegInf, PosInf, Ticks(t))
    case Timeout =>
    case Ok(mv, c1) =>
      assert mv == SearchMove(g, a, s, completed + 1);
      if g.utility(s, g.active(s)) == Fin(0.0) {
        DeepenAnswersCompletedIteration(g, a, s, completed + 1, mv, c1.left);
      }
  }

  /** get_move answers the move of some completed alphabeta iteration, or,
      when no completed iteration left a move, the first legal move (the
      sentinel if there is none); the cancellation never reaches its
      caller. */
  lemma GetMoveAnswersCompletedIteration<S, P>(g: Game<S, P>, a: Agent<S, P>, s: S, t: int)
    ensures var m := GetMove(g, a, s, t);
            m == FirstLegalOrNegative(g, s) || exists n :: 1 <= n && m == SearchMove(g, a, s, n)
  {
    DeepenAnswersCompletedIteration(g, a, s, 0, NegativeMove, t);
  }

  /** When the root's utility is already decided, deepening stops after the
      first iteration: the answer is that iteration's move when the budget
      pays for it, and the first-legal-move fallback otherwise. */
  lemma GetMoveStopsWhenDecided<S, P>(g: Game<S, P>, a: Agent<S, P>, s: S, t: int)
    requires g.utility(s, g.active(s)) != Fin(0.0)
    ensures GetMove(g, a, s, t)
            == if a.timerThreshold - 1 + SearchFrames(g, a, s, 1, NegInf, PosInf) <= t
               then SearchMove(g, a, s, 1) else FirstLegalOrNegative(g, s)
  {
    SearchCancelledExactly(g, a, s, 1, NegInf, PosInf, t);
    SearchIgnoresClock(g, a, s, 1, NegInf, PosInf, Ticks(t));
  }

  /** The deepening loop on an undecided root with a legal move, from a
      recorded move that is legal or the sentinel, answers a legal move. */
  lemma {:induction false} DeepenUndecidedAnswersLegalMove<S, P>(g: Game<S, P>, a: Agent<S, P>, s: S,
                                                               completed: nat, best: Move, t: int)
    requires g.utility(s, g.active(s)) == Fin(0.0)
    requires |g.legalMoves(s)| > 0
    requires best == NegativeMove || best in g.legalMoves(s)
    ensures Deepen(g, a, s, completed, best, t) in g.legalMoves(s)
    decreases t - a.timerThreshold + 1
  {
    match Search(g, a, s, completed + 1, NegInf, PosInf, Ticks(t))
    case Timeout =>
    case Ok(mv, c1) =>
      DeepenUndecidedAnswersLegalMove(g, a, s, completed + 1, mv, c1.left);
  }

  /** While the root is undecided the driver only stops by cancellation, so
      whenever a legal move exists it answers one, even where a completed
      iteration answered the sentinel. */
  lemma GetMoveUndecidedAnswersLegalMove<S, P>(g: Game<S, P>, a: Agent<S, P>, s: S, t: int)
    requires g.utility(s, g.active(s)) == Fin(0.0)
    requires |g.legalMoves(s)| > 0
    ensures GetMove(g, a, s, t) in g.legalMoves(s)
  {
    DeepenUndecidedAnswersLegalMove(g, a, s, 0, NegativeMove, t);
  }

  /** The ticks the first n iterations of deepening spend when every one
      of them completes. */
  ghost function IterationFrames<S, P>(g: Game<S, P>, a: Agent<S, P>, s: S, n: nat): nat {
    if n == 0 then 0 else IterationFrames(g, a, s, n - 1) + SearchFrames(g, a, s, n, NegInf, PosInf)
  }

  /** Iterations 1..n fit in a budget of t ticks and iteration n + 1 does
      not. */
  ghost predicate DeepestAffordable<S, P>(g: Game<S, P>, a: Agent<S, P>, s: S, t: int, n: nat) {
    && (n == 0 || a.timerThreshold - 1 + IterationFrames(g, a, s, n) <= t)
    && t < a.timerThreshold - 1 + IterationFrames(g, a, s, n + 1)
  }

  /** What the driver answers when iteration n was the last to complete:
      that iteration's move, or the first legal move when there was none or
      it answered the sentinel. */
  ghost function AnswerAfter<S, P>(g: Game<S, P>, a: Agent<S, P>, s: S, n: nat): Move {
    if n == 0 || SearchMove(g, a, s, n) == NegativeMove then FirstLegalOrNegative(g, s)
    else SearchMove(g, a, s, n)
  }

  /** Every iteration costs at least one tick. */
  lemma {:induction false} IterationFramesGrow<S, P>(g: Game<S, P>, a: Agent<S, P>, s: S, k: nat, n: nat)
    requires k <= n
    ensures IterationFrames(g, a, s, k) + (n - k) <= IterationFrames(g, a, s, n)
    decreases n - k
  {
    if k < n {
      IterationFramesGrow(g, a, s, k + 1, n);
    }
  }

  /** Some iteration depth is the deepest the budget pays for: the cost of
      iterations 1..n grows without bound in n. */
  lemma {:induction false} DeepestAffordableFrom<S, P>(g: Game<S, P>, a: Agent<S, P>, s: S, t: int, k: nat)
    requires k == 0 || a.timerThreshold - 1 + IterationFrames(g, a, s, k) <= t
    ensures exists n :: k <= n && DeepestAffordable(g, a, s, t, n)
    decreases t - a.timerThreshold + 2 - IterationFrames(g, a, s, k)
  {
    if !DeepestAffordable(g, a, s, t, k) {
      DeepestAffordableFrom(g, a, s, t, k + 1);
    }
  }

  /** Below the deepest affordable iteration n, iteration k + 1 completes
      with the unbounded search's move and leaves the clock at the budget
      minus the frames of iterations 1..k + 1. */
  lemma IterationCompletes<S, P>(g: Game<S, P>, a: Agent<S, P>, s: S, t: int, n: nat, k: nat)
    requires DeepestAffordable(g, a, s, t, n)
    requires k < n
    ensures Search(g, a, s, k + 1, NegInf, PosInf, Ticks(t - IterationFrames(g, a, s, k)))
            == Ok(SearchMove(g, a, s, k + 1), Ticks(t - IterationFrames(g, a, s, k + 1)))
  {
    IterationFramesGrow(g, a, s, k + 1, n);
    SearchCancelledExactly(g, a, s, k + 1, NegInf, PosInf, t - IterationFrames(g, a, s, k));
    SearchIgnoresClock(g, a, s, k + 1, NegInf, PosInf, Ticks(t - IterationFrames(g, a, s, k)));
  }

  /** The iteration after the deepest affordable one is cancelled. */
  lemma IterationCancelled<S, P>(g: Game<S, P>, a: Agent<S, P>, s: S, t: int, n: nat)
    requires DeepestAffordable(g, a, s, t, n)
    ensures Search(g, a, s, n + 1, NegInf, PosInf, Ticks(t - IterationFrames(g, a, s, n))).Timeout?
  {
    SearchCancelledExactly(g, a, s, n + 1, NegInf, PosInf, t - IterationFrames(g, a, s, n));
  }

  /** The deepening loop after k completed iterations, k at most the
      deepest affordable n, answers what iteration n leaves behind. */
  lemma {:induction false} DeepenAnswersDeepestAffordable<S, P>(g: Game<S, P>, a: Agent<S, P>, s: S, t: int, n: nat,
                                                           k: nat, best: Move, tk: int)
    requires g.utility(s, g.active(s)) == Fin(0.0)
    requires DeepestAffordable(g, a, s, t, n)
    requires k <= n
    requires best == if k == 0 then NegativeMove else SearchMove(g, a, s, k)
    requires tk == t - IterationFrames(g, a, s, k)
    ensures Deepen(g, a, s, k, best, tk) == AnswerAfter(g, a, s, n)
    decreases n - k
  {
    if k < n {
      IterationCompletes(g, a, s, t, n, k);
      DeepenAnswersDeepestAffordable(g, a, s, t, n, k + 1, SearchMove(g, a, s, k + 1),
                                     t - IterationFrames(g, a, s, k + 1));
    } else {
      IterationCancelled(g, a, s, t, n);
    }
  }

  /** Iterative deepening, exactly: on an undecided root, get_move with t
      ticks answers the move of the deepest iteration n such that
      iterations 1..n all fit in the budget, falling back on the first
      legal move when n is 0 or that iteration answered the sentinel. */
  lemma GetMoveAnswersDeepestAffordable<S, P>(g: Game<S, P>, a: Agent<S, P>, s: S, t: int)
    requires g.utility(s, g.active(s)) == Fin(0.0)
    ensures exists n :: DeepestAffordable(g, a, s, t, n)
    ensures forall n :: DeepestAffordable(g, a, s, t, n) ==> GetMove(g, a, s, t) == AnswerAfter(g, a, s, n)
  {
    DeepestAffordableFrom(g, a, s, t, 0);
    forall n | DeepestAffordable(g, a, s, t, n)
      ensures GetMove(g, a, s, t) == AnswerAfter(g, a, s, n)
    {
      DeepenAnswersDeepestAffordable(g, a, s, t, n, 0, NegativeMove, t);
    }
  }

  /** m is what alphabeta with the full window answers when the children's
      minimax values at depth d are known: the first best move, or the
      sentinel when every child is a proven loss. */
  ghost predicate IsFullWindowChoice<S, P>(g: Game<S, P>, a: Agent<S, P>, s: S, d: int, m: Move) {
    var vals := ChildMinValues(g, a, s, d);
    || (m == NegativeMove && forall j :: 0 <= j < |vals| ==> vals[j] == NegInf)
    || exists k :: IsFirstBest(vals, |vals|, k) && m == g.legalMoves(s)[k]
  }

  /** get_move in terms of minimax values: the answer is the first legal
      move, or the first best move by the children's minimax values at the
      depth d below some completed iteration (the sentinel when every move
      is then a proven loss). */
  lemma GetMoveFollowsMinimax<S(!new), P>(g: Game<S, P>, a: Agent<S, P>, s: S, t: int)
    requires SoundOracle(g, a.score)
    ensures var m := GetMove(g, a, s, t);
            m == FirstLegalOrNegative(g, s) || exists d :: 0 <= d && IsFullWindowChoice(g, a, s, d, m)
  {
    var m := GetMove(g, a, s, t);
    GetMoveAnswersCompletedIteration(g, a, s, t);
    if m != FirstLegalOrNegative(g, s) {
      var n :| 1 <= n && m == SearchMove(g, a, s, n);
      SearchChoosesFirstBest(g, a, s, n, NegInf, Unbounded);
      var vals := ChildMinValues(g, a, s, n - 1);
      if forall j :: 0 <= j < |vals| ==> Le(vals[j], NegInf) {
        assert forall j :: 0 <= j < |vals| ==> vals[j] == NegInf;
      } else {
        var j :| 0 <= j < |vals| && !Le(vals[j], NegInf);
        assert Lt(NegInf, vals[j]);
      }
      assert 0 <= n - 1 && IsFullWindowChoice(g, a, s, n - 1, m);
    }
  }

  /** A three-state board: from state 0 the root mover has one move, to
      state 1, where the opponent has one reply, to state 2, where the root
      mover is stuck and has lost.  The oracle scores the loser -inf and the
      winner +inf, and 0 elsewhere. */
  function TrapBoard(): (g: Game<int, int>)
    ensures WellFormed(g)
    ensures g.legalMoves(0) == [Move(0, 0)]
  {
    Game(s => if s == 1 then 1 else 0,
         s => if s == 1 then 0 else 1,
         s => if s == 2 then [] else if s == 1 then [Move(1, 1)] else [Move(0, 0)],
         (s, m) => if s == 0 then 1 else if s == 1 then 2 else s,
         (s, p) => s == 2 && p == 0,
         (s, p) => if s == 2 then (if p == 0 then NegInf else PosInf) else Fin(0.0))
  }

  function TrapAgent(): (a: Agent<int, int>)
    ensures SoundOracle(TrapBoard(), a.score)
  {
    Agent(3, (s, p) => if s == 2 then (if p == 0 then NegInf else PosInf) else Fin(0.0), 10)
  }

  /** At depth 2 on the trap board, alphabeta answers the sentinel although
      the root mover has a legal move, while the deepening driver, the
      root being undecided, still answers that move. */
  lemma SearchAnswersSentinelDespiteLegalMove(t: int)
    ensures Search(TrapBoard(), TrapAgent(), 0, 2, NegInf, PosInf, Unbounded).value == NegativeMove
    ensures |TrapBoard().legalMoves(0)| == 1
    ensures GetMove(TrapBoard(), TrapAgent(), 0, t) == Move(0, 0)
  {
    var g := TrapBoard();
    var a := TrapAgent();
    assert MinValue(g, a, 1, 1, NegInf, PosInf, Unbounded) == Ok(NegInf, Unbounded) by {
      assert MaxValue(g, a, 2, 0, NegInf, PosInf, Unbounded) == Ok(NegInf, Unbounded);
    }
    GetMoveUndecidedAnswersLegalMove(g, a, 0, t);
  }
}
