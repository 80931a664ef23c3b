/**
 * How both scheduler revisions repeat a rule: the pass count of their
 * `for ($i = 0; $i < $limit; ++$i)` loops, and the instant reached by
 * modifying a date with the same phrase again and again.
 */
module Repetition {
  import opened Clock

  /** How many passes `for ($i = 0; $i < $limit; ++$i)` makes. */
  function Iterations(limit: int): (n: nat)
    ensures !(n < limit)
    ensures n == 0 || n - 1 < limit
  {
    if limit > 0 then limit else 0
  }

  /**
   * `from` after `n` successive `modify($rule)` calls on one date. Whether the
   * calls are counted from the last one or from the first, the instant is the
   * same: `n` applications are one application followed by `n - 1` more.
   */
  function Applied(rule: string, step: Modifier, from: Instant, n: nat): (r: Instant)
    ensures n > 0 ==> r == Applied(rule, step, step(rule, from), n - 1)
    decreases n
  {
    if n == 0 then from else step(rule, Applied(rule, step, from, n - 1))
  }
}
