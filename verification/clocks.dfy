/** Cooperative cancellation.  The clock is a budget of ticks that every
    search frame polls, and spends one tick of, before doing any other work;
    a frame that finds fewer ticks left than the agent's threshold abandons
    the whole search with `Timeout`. */
module Clocks {

  /** `Ticks(left)`: the time left, spent one tick per poll.  `Unbounded`: a
      clock that never runs low (a constant `time_left`). */
  datatype Budget = Ticks(left: int) | Unbounded

  /** A search step either completes with a value and the clock it leaves,
      or is cancelled. */
  datatype Result<T> = Ok(value: T, clock: Budget) | Timeout

  /** The timer check at the top of every search frame. */
  function Poll(c: Budget, threshold: int): (r: Result<()>)
    ensures c.Unbounded? ==> r == Ok((), Unbounded)
    ensures c.Ticks? ==> (r.Timeout? <==> c.left < threshold)
    ensures c.Ticks? && threshold <= c.left ==> r == Ok((), Ticks(c.left - 1))
  {
    match c
    case Unbounded => Ok((), Unbounded)
    case Ticks(left) => if left < threshold then Timeout else Ok((), Ticks(left - 1))
  }

  /** What a search frame promises about the clock: an unbounded clock
      never cancels it; a budget below the threshold at entry cancels it
      before any work; a completed frame spent at least its own poll and
      saw the threshold met at each of its polls. */
  ghost predicate FrameSpends<T>(c: Budget, threshold: int, r: Result<T>) {
    && (c.Unbounded? ==> r.Ok? && r.clock.Unbounded?)
    && (c.Ticks? && c.left < threshold ==> r.Timeout?)
    && (c.Ticks? && r.Ok? ==> r.clock.Ticks? && threshold - 1 <= r.clock.left < c.left)
  }

  /** What a loop over the children promises: no ticks come back, and a
      budget that met the threshold before the last poll still does. */
  ghost predicate LoopSpends<T>(c: Budget, threshold: int, r: Result<T>) {
    && (c.Unbounded? ==> r.Ok? && r.clock.Unbounded?)
    && (c.Ticks? && r.Ok? ==>
          && r.clock.Ticks?
          && r.clock.left <= c.left
          && (threshold - 1 <= c.left ==> threshold - 1 <= r.clock.left))
  }
}
