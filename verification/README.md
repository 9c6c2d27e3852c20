# Isolation search engine in Dafny

This project models the game-tree search engine of the AIND Isolation
agent (`AIND-Isolation/game_agent.py`) and proves properties of it. The
engine has two agents:

- `MinimaxPlayer` runs a fixed-depth minimax search. `get_move` falls back
  to the `current_best_move` field when the search is cancelled.
- `AlphaBetaPlayer` runs alpha-beta search with iterative deepening.
  `get_move` searches depth 1, 2, 3, ... with the full window. It keeps the
  move of the last completed iteration and stops early once the root's
  utility is decided. When no iteration completes, it falls back to the
  first legal move.

Every search frame polls the clock before doing anything else. A frame that
sees less time left than `TIMER_THRESHOLD` raises `SearchTimeout`, which
unwinds to `get_move`.

How the model is built:

- **Board.** `Games.Game` is a record of total functions over an abstract
  state type: active and inactive player, legal moves in generation order,
  forecast, loser test and utility. The ghost predicate `Games.WellFormed`
  states what the board promises: the active player has lost exactly when it
  has no legal move, and `(-1, -1)` is never legal.
- **Scores.** `Scores.Score` is `NegInf | Fin(real) | PosInf`. `Scores.Max`
  and `Scores.Min` follow Python's `max` and `min`: on a tie the first
  argument is kept. The evaluation function is a parameter of the agent
  (`Games.Agent`). Its contract that a lost state scores -inf for the loser
  and +inf for the winner is `Games.SoundOracle`.
- **Clock.** `Clocks.Budget` replaces the wall clock. `Ticks(t)` loses one
  tick per poll. `Unbounded` never runs low, like a constant `time_left`.
- **Cancellation.** `SearchTimeout` becomes the `Timeout` case of
  `Clocks.Result`, and every frame passes it on unchanged.
- **Reference values.** A run under `Unbounded` is the clock-free reference
  value of a search. For example, `AlphaBetaProofs.SearchMove` is the move
  alpha-beta picks at a given depth.
- **Cost.** The ghost functions `MinimaxProofs.Frames`,
  `AlphaBetaProofs.MaxFrames` and their relatives count the polls a full
  search makes. They make "the search completes exactly when the budget
  pays for every poll" a theorem.

Modules: `Scores`, `Games` and `Clocks` hold the shared vocabulary.
`Minimax` and `AlphaBeta` hold the two agents. `MinimaxProofs` and
`AlphaBetaProofs` hold the lemmas.

Where the source's docstrings and comments promise more than its code
does, the model follows the code:

- The `alphabeta` docstring (game_agent.py lines 405-409) promises the best
  move found, and (-1, -1) only "if there are no legal moves". The code at
  lines 427-438 answers (-1, -1) whenever no child's value rises strictly
  above alpha. On an undecided root where every move is a proven loss, that
  happens even though legal moves exist. See
  `AlphaBetaProofs.SearchAgreesWithMinimax` and
  `AlphaBetaProofs.SearchAnswersSentinelDespiteLegalMove`.
- The `MinimaxPlayer.get_move` docstring (lines 201-205) promises a legal
  move, or (-1, -1) when there is none. Its comments (lines 209-210 and 222)
  promise the best move "from the last completed search iteration". On a
  timeout the code answers the `current_best_move` field. A search cancelled
  at its first timer check has not yet reset that field, so the answer can
  be a stale move from an earlier position. See the finding below.

## Model

| member | source | states |
|---|---|---|
| Scores.Max | AIND-Isolation/game_agent.py:296-297 | Python's max on scores: the result is at least each argument and is one of the two |
| Scores.Min | AIND-Isolation/game_agent.py:314-315 | Python's min on scores: the result is at most each argument and is one of the two |
| Scores.FirstAndLastBestAgree | AIND-Isolation/game_agent.py:274-281 | the first best index (alpha-beta's strict tie rule) and the last best index (minimax's >= rule) of the same values have equal values, the first is not after the last, and they coincide exactly when the maximum is attained once |
| Clocks.Poll | AIND-Isolation/game_agent.py:264-265 | the timer check that opens every search frame (also lines 284-285, 302-303, 422-423, 441-442 and 461-462): with t ticks it cancels if and only if t is below the threshold, and otherwise spends exactly one tick; a clock that never runs low always passes, and is left as it was |
| Games.FirstLegalOrNegative | AIND-Isolation/game_agent.py:370-372 | the timeout fallback is the first generated legal move, and it is (-1, -1) exactly when there is no legal move |
| Minimax.MaxValue | AIND-Isolation/game_agent.py:283-299 | max_value polls first: it is cancelled when the budget at entry is below the threshold, never cancelled under a clock that does not run low, and a completed call spent at least its own tick while the threshold held at every poll |
| Minimax.MinValue | AIND-Isolation/game_agent.py:301-317 | the same clock contract for min_value |
| Minimax.MaxOver | AIND-Isolation/game_agent.py:293-299 | the max_value loop never returns ticks, keeps the threshold met, and its running maximum never drops below its start |
| Minimax.MinOver | AIND-Isolation/game_agent.py:311-317 | the min_value loop never returns ticks, keeps the threshold met, and its running minimum never rises above its start |
| Minimax.Decide | AIND-Isolation/game_agent.py:264-281 | minimax polls first; a completed search answers (-1, -1) or a legal move; the field it leaves is the one it was given, (-1, -1), or a legal move |
| Minimax.DecideOver | AIND-Isolation/game_agent.py:272-281 | the top-level loop answers the field it maintains, and the field is its starting choice or one of the remaining moves (which explored prefix it comes from is `MinimaxProofs.DecideOverLeavesExploredBest`) |
| Minimax.GetMove | AIND-Isolation/game_agent.py:207-223 | get_move as written answers the incoming current_best_move, (-1, -1), or a legal move; with the budget below the threshold at entry it answers the incoming field unchanged |
| Minimax.GetMoveFresh | AIND-Isolation/game_agent.py:207-223 | get_move with the field reset to (-1, -1) before the search answers (-1, -1) or a legal move of this position |
| MinimaxProofs.MaxValueIgnoresClock | AIND-Isolation/game_agent.py:283-299 | a max_value search that completes under any budget returns exactly the unbounded search's value, so the clock never changes a completed result |
| MinimaxProofs.MinValueIgnoresClock | AIND-Isolation/game_agent.py:301-317 | the same for min_value |
| MinimaxProofs.MaxOverIgnoresClock | AIND-Isolation/game_agent.py:293-299 | the same for the max_value loop |
| MinimaxProofs.MinOverIgnoresClock | AIND-Isolation/game_agent.py:311-317 | the same for the min_value loop |
| MinimaxProofs.MaxOverIsMaximum | AIND-Isolation/game_agent.py:294-299 | the max_value loop ends with an upper bound of its start and of every remaining child's min-value, attained by the start or by one of those children |
| MinimaxProofs.MinOverIsMinimum | AIND-Isolation/game_agent.py:312-317 | the min_value loop ends with a lower bound of its start and of every remaining child's max-value, attained by one of them |
| MinimaxProofs.MaxValueCharacterised | AIND-Isolation/game_agent.py:283-299 | max_value is -inf for a lost state, the oracle's score for the side to move at the depth limit, and otherwise the maximum of the children's min-values (-inf when there are none) |
| MinimaxProofs.MinValueCharacterised | AIND-Isolation/game_agent.py:301-317 | min_value is +inf for a lost state, the oracle's score for the side not to move at the depth limit, and otherwise the minimum of the children's max-values |
| MinimaxProofs.MaxValueCancelledExactly | AIND-Isolation/game_agent.py:284-285 | with t ticks, max_value completes if and only if the threshold still holds at the last of the search's polls, and it then leaves exactly t minus that many ticks |
| MinimaxProofs.MinValueCancelledExactly | AIND-Isolation/game_agent.py:302-303 | the same for min_value |
| MinimaxProofs.MaxOverCancelledExactly | AIND-Isolation/game_agent.py:295-297 | the same for the max_value loop over the remaining children |
| MinimaxProofs.MinOverCancelledExactly | AIND-Isolation/game_agent.py:313-315 | the same for the min_value loop over the remaining children |
| MinimaxProofs.DecideOverCancelledExactly | AIND-Isolation/game_agent.py:274-279 | the top-level minimax loop with t ticks completes if and only if the threshold still holds at the last poll of its remaining children's searches |
| MinimaxProofs.DecideCancelledExactly | AIND-Isolation/game_agent.py:264-281 | minimax with t ticks completes if and only if t pays for its own poll and the full search below it, with the threshold still met at the last poll |
| MinimaxProofs.DecideOverPicksLastBest | AIND-Isolation/game_agent.py:274-281 | a completed top-level loop answers a move whose min-value is maximal with no later child equal to it (the >= test keeps the last best) |
| MinimaxProofs.DecideOverLeavesExploredBest | AIND-Isolation/game_agent.py:272-279 | a cancelled top-level loop leaves in the field its starting choice or the last best move among a prefix of the children |
| MinimaxProofs.DecideChoosesLastBest | AIND-Isolation/game_agent.py:264-281 | minimax answers (-1, -1) when the active player has lost or has no moves, and otherwise the last best move by min-value; a search cancelled at its first poll leaves the incoming field untouched, and a later cancellation leaves (-1, -1) or the last best move of an explored prefix |
| MinimaxProofs.DecisionIsLegal | AIND-Isolation/game_agent.py:264-281 | on a well-formed board a completed minimax answers (-1, -1) if and only if the active player has lost, and a legal move otherwise |
| MinimaxProofs.DecideWithOneMove | AIND-Isolation/game_agent.py:272-281 | with exactly one legal move, a completed minimax answers that move whatever the depth and the oracle |
| MinimaxProofs.GetMoveFreshIsLegal | AIND-Isolation/game_agent.py:207-223 | the corrected get_move answers (-1, -1) or a legal move, and after a completed search it answers (-1, -1) if and only if the active player has lost |
| MinimaxProofs.GetMoveAnswersStaleMove | AIND-Isolation/game_agent.py:213-220 | as written, get_move cancelled at its first poll answers the field left by an earlier call: (5, 5) here, which is neither legal nor (-1, -1) |
| AlphaBeta.MaxValue | AIND-Isolation/game_agent.py:440-458 | alpha-beta max_value polls first, with the same clock contract as minimax's max_value |
| AlphaBeta.MinValue | AIND-Isolation/game_agent.py:460-478 | alpha-beta min_value polls first, with the same clock contract |
| AlphaBeta.MaxOver | AIND-Isolation/game_agent.py:447-458 | the windowed max_value loop never returns ticks and keeps the threshold met |
| AlphaBeta.MinOver | AIND-Isolation/game_agent.py:467-478 | the windowed min_value loop never returns ticks and keeps the threshold met |
| AlphaBeta.Search | AIND-Isolation/game_agent.py:422-438 | alphabeta polls first, and a completed call answers (-1, -1) or a legal move |
| AlphaBeta.SearchOver | AIND-Isolation/game_agent.py:427-438 | the top-level alpha-beta loop answers its starting choice or a child it explored |
| AlphaBeta.GetMove | AIND-Isolation/game_agent.py:356-374 | AlphaBetaPlayer.get_move never propagates the cancellation: it answers (-1, -1) or a legal move, and with the budget below the threshold at entry it answers the first legal move, or (-1, -1) when there is none |
| AlphaBeta.Deepen | AIND-Isolation/game_agent.py:359-374 | the deepening loop answers its recorded move, (-1, -1) or a legal move; cancelled at once, it answers the recorded move, or the first legal move when nothing is recorded |
| AlphaBetaProofs.MaxOverWithinWindow | AIND-Isolation/game_agent.py:447-458 | fail-hard agreement of the max_value loop with the minimax loop started at alpha: equal while the minimax value stays below beta, and at least beta once it reaches beta |
| AlphaBetaProofs.MinOverWithinWindow | AIND-Isolation/game_agent.py:467-478 | fail-hard agreement of the min_value loop with the minimax loop started at beta: equal while the minimax value stays above alpha, and at most alpha once it reaches alpha |
| AlphaBetaProofs.MaxValueWithinWindow | AIND-Isolation/game_agent.py:440-458 | for a sound oracle and alpha < beta, a completed alpha-beta max_value equals minimax's value when that lies strictly inside the window, is at most alpha when minimax's is, and at least beta when minimax's is |
| AlphaBetaProofs.MinValueWithinWindow | AIND-Isolation/game_agent.py:460-478 | the same fail-hard window agreement for min_value |
| AlphaBetaProofs.ChildWithinBound | AIND-Isolation/game_agent.py:430-434 | a child searched with window (bound, +inf) has a value above the bound exactly when its minimax value does, and then the two are equal |
| AlphaBetaProofs.SearchOverKeepsSentinel | AIND-Isolation/game_agent.py:427-438 | when no child's minimax value exceeds alpha, the top-level loop never selects a move and completes with (-1, -1) |
| AlphaBetaProofs.SearchOverPicksFirstBest | AIND-Isolation/game_agent.py:427-438 | when some child's minimax value exceeds alpha, a completed top-level loop answers the first move of maximal minimax value |
| AlphaBetaProofs.SearchOverSelects | AIND-Isolation/game_agent.py:435-437 | the first-best result of the top-level loop in the case where the current child's value beats the recorded pair |
| AlphaBetaProofs.SearchOverKeeps | AIND-Isolation/game_agent.py:435-437 | the first-best result of the top-level loop in the case where the current child's value ties or loses to the recorded pair (an equal value is skipped) |
| AlphaBetaProofs.SearchChoosesFirstBest | AIND-Isolation/game_agent.py:422-438 | alphabeta with window (alpha, +inf) answers (-1, -1) when every child's minimax value is at most alpha, and otherwise the first move of maximal minimax value |
| AlphaBetaProofs.SearchAgreesWithMinimax | AIND-Isolation/game_agent.py:429-438 | full-window alphabeta and minimax at the same depth: when every move is a proven loss alphabeta answers (-1, -1); otherwise their moves have the same minimax value, alphabeta's is the first such move and not after minimax's, and the two coincide if and only if the best value is attained once |
| AlphaBetaProofs.WindowedMaxIgnoresClock | AIND-Isolation/game_agent.py:440-458 | a completed alpha-beta max_value returns the unbounded search's value whatever the budget |
| AlphaBetaProofs.WindowedMinIgnoresClock | AIND-Isolation/game_agent.py:460-478 | the same for alpha-beta min_value |
| AlphaBetaProofs.WindowedMaxOverIgnoresClock | AIND-Isolation/game_agent.py:447-458 | the same for the windowed max_value loop |
| AlphaBetaProofs.WindowedMinOverIgnoresClock | AIND-Isolation/game_agent.py:467-478 | the same for the windowed min_value loop |
| AlphaBetaProofs.SearchOverIgnoresClock | AIND-Isolation/game_agent.py:427-438 | the same for the top-level loop |
| AlphaBetaProofs.SearchIgnoresClock | AIND-Isolation/game_agent.py:422-438 | a completed alphabeta answers the same move under any budget, so two completed calls with the same state, depth and window agree |
| AlphaBetaProofs.WindowedMaxCancelledExactly | AIND-Isolation/game_agent.py:441-442 | with t ticks, alpha-beta max_value completes if and only if t pays for every poll of the full pruned search, and then leaves exactly the unspent ticks |
| AlphaBetaProofs.WindowedMinCancelledExactly | AIND-Isolation/game_agent.py:461-462 | the same for alpha-beta min_value |
| AlphaBetaProofs.WindowedMaxOverCancelledExactly | AIND-Isolation/game_agent.py:449-457 | the same for the windowed max_value loop, where a beta cut-off spends nothing on the skipped children |
| AlphaBetaProofs.WindowedMaxOverCompletedChild | AIND-Isolation/game_agent.py:455-457 | the exact cancellation of the windowed max_value loop in the case where the current child's search completes within the budget |
| AlphaBetaProofs.WindowedMinOverCancelledExactly | AIND-Isolation/game_agent.py:469-477 | the same for the windowed min_value loop, where an alpha cut-off spends nothing on the skipped children |
| AlphaBetaProofs.WindowedMinOverCompletedChild | AIND-Isolation/game_agent.py:475-477 | the exact cancellation of the windowed min_value loop in the case where the current child's search completes within the budget |
| AlphaBetaProofs.SearchOverCancelledExactly | AIND-Isolation/game_agent.py:429-437 | the same exact cancellation for the top-level loop, each child searched with the window narrowed so far |
| AlphaBetaProofs.SearchOverCompletedChild | AIND-Isolation/game_agent.py:429-437 | the exact cancellation of the top-level loop in the case where the current child's search completes within the budget |
| AlphaBetaProofs.SearchCancelledExactly | AIND-Isolation/game_agent.py:422-438 | alphabeta with t ticks completes if and only if t pays for its own poll and the full pruned search, and then leaves exactly the unspent ticks |
| AlphaBetaProofs.DeepenAnswersCompletedIteration | AIND-Isolation/game_agent.py:362-374 | the deepening loop answers the first-legal-move fallback, its recorded move, or the move of a deeper completed iteration; never a cancelled iteration's partial work or a shallower iteration's move |
| AlphaBetaProofs.GetMoveAnswersCompletedIteration | AIND-Isolation/game_agent.py:356-374 | get_move answers the move of some completed iteration, or the first legal move ((-1, -1) when there is none) |
| AlphaBetaProofs.GetMoveStopsWhenDecided | AIND-Isolation/game_agent.py:363-367 | on a root whose utility is decided, get_move stops after depth 1: it answers that iteration's move when the budget pays for it, and the first-legal-move fallback otherwise |
| AlphaBetaProofs.DeepenUndecidedAnswersLegalMove | AIND-Isolation/game_agent.py:363-374 | on an undecided root with a legal move, the deepening loop answers a legal move |
| AlphaBetaProofs.GetMoveUndecidedAnswersLegalMove | AIND-Isolation/game_agent.py:356-374 | on an undecided root with a legal move, get_move answers a legal move, even where a completed iteration answered (-1, -1) |
| AlphaBetaProofs.IterationFramesGrow | AIND-Isolation/game_agent.py:363-365 | each deepening iteration costs at least one tick, so a finite budget pays for only finitely many |
| AlphaBetaProofs.DeepestAffordableFrom | AIND-Isolation/game_agent.py:362-365 | from any depth k whose iterations the budget pays for, there is a deepest depth n >= k such that the budget pays for iterations 1..n and not for iteration n + 1 |
| AlphaBetaProofs.IterationCompletes | AIND-Isolation/game_agent.py:364-365 | every iteration up to the deepest affordable one completes with the unbounded search's move, leaving the budget minus the cost of the iterations so far |
| AlphaBetaProofs.IterationCancelled | AIND-Isolation/game_agent.py:364-369 | the iteration after the deepest affordable one is cancelled |
| AlphaBetaProofs.DeepenAnswersDeepestAffordable | AIND-Isolation/game_agent.py:359-374 | on an undecided root, the deepening loop resumed after any completed iteration answers what the deepest affordable iteration leaves |
| AlphaBetaProofs.GetMoveAnswersDeepestAffordable | AIND-Isolation/game_agent.py:356-374 | on an undecided root, get_move with t ticks answers the move of the deepest iteration the budget pays for; it falls back to the first legal move when that depth is 0 or that iteration answered (-1, -1) |
| AlphaBetaProofs.GetMoveFollowsMinimax | AIND-Isolation/game_agent.py:356-374 | for a sound oracle, get_move answers the first legal move ((-1, -1) when there is none) or, for some depth d, the first move of maximal minimax value among the children searched to depth d; it answers (-1, -1) in the second case only when every child is a proven loss at that depth |
| AlphaBetaProofs.SearchAnswersSentinelDespiteLegalMove | AIND-Isolation/game_agent.py:427-438 | on a well-formed board with a sound oracle whose single legal move leads to a forced loss, depth-2 alphabeta answers (-1, -1), while get_move with any budget answers the legal move |

## Left out

- The heuristics `custom_score`, `custom_score_2` and `custom_score_3`, with their move-offset tables (lines 17-139), are left out. The evaluation function is a parameter constrained only by `Games.SoundOracle`.
- The `Board` class is not part of this model. Its queries become the fields of `Games.Game`, and its promises are stated as `Games.WellFormed`.
- The wall clock `time_left()` becomes a tick budget. A frame's cost is one tick per poll, and the time the board and the oracle take is not modelled.
- Python exceptions become the `Timeout` case of `Clocks.Result`. `SearchTimeout` is never caught inside the search, so this is exact.
- IEEE floating point is not modelled: scores are reals extended with plus and minus infinity. NaN cannot arise from the modelled operations.
- `self.time_left`, `self.search_depth`, `self.score` and `self.TIMER_THRESHOLD` are passed as parameters. `MinimaxPlayer.current_best_move` is an explicit input and output (`Minimax.Decision`). `AlphaBetaPlayer.current_best_move` is the `best` argument of `AlphaBeta.Deepen`.
- The test `if self.current_best_move:` (line 219) is always true for a 2-tuple, so it is modelled as answering the field unconditionally.
- The optional `alpha` and `beta` arguments of `alphabeta` are modelled as explicit parameters. `AlphaBetaPlayer.get_move` always passes the full window.
- AlphaBeta.GetMove: takes a finite tick count `t`, so no clock that never runs low is modelled for the driver, on any root. Each iteration of the deepening loop `while True` (line 363) spends at least one tick, so `AlphaBeta.Deepen` terminates. Under a clock that never runs low, the source would loop forever on an undecided root and stop after depth 1 on a decided one (lines 366-367). For the decided case, `AlphaBetaProofs.GetMoveStopsWhenDecided` with a `t` large enough to pay for the depth-1 search stands in: it answers that iteration's move.
- Minimax.MaxValue, Minimax.MinValue, AlphaBeta.MaxValue and AlphaBeta.MinValue: their own contracts only bound the clock. Their values are characterised by the lemmas in `MinimaxProofs` and `AlphaBetaProofs`.

## Findings

| source | as written | input that shows it | evidently intended | confidence | as-written member | corrected member |
|---|---|---|---|---|---|---|
| AIND-Isolation/game_agent.py:207-223 | `MinimaxPlayer.get_move` answers `current_best_move` on timeout, but `minimax` resets that field only at line 272, after its first timer check | a player whose previous call left (5, 5) in the field, called again with `time_left()` below `TIMER_THRESHOLD` at entry, answers (5, 5), which is not legal in the new position | reset the field to (-1, -1) at entry, as `AlphaBetaPlayer.get_move` does at line 357, so that a cancelled search answers (-1, -1) or a move of this position | medium, not executed | `Minimax.GetMove`, `MinimaxProofs.GetMoveAnswersStaleMove` | `Minimax.GetMoveFresh`, `MinimaxProofs.GetMoveFreshIsLegal` |
