/**
 * The part of the croniter library that this calendar uses, as an abstract parameter.
 * The library's parser and its field rules are not part of this model.
 */
module Cron {

  import opened Wrappers
  import opened Calendar

  /**
   * What croniter offers for a cron expression: whether `croniter(expr, t)` accepts it
   * (otherwise it raises ValueError or KeyError), the message of that error, and the
   * result of `get_next` on an iterator positioned at t, None when get_next raises
   * (for instance when no firing is found within croniter's search horizon). The iterator
   * is assumed to be memoryless: after returning n it is positioned at n.
   */
  datatype CronLib = CronLib(
    accepts: string -> bool,
    message: string -> string,
    nextAfter: (string, Instant) -> Option<Instant>)

  /** croniter's get_next never returns the instant it starts from or an earlier one. */
  ghost predicate Increasing(lib: CronLib) {
    forall expr: string, t: Instant ::
      lib.nextAfter(expr, t).Some? ==> lib.nextAfter(expr, t).value > t
  }
}
