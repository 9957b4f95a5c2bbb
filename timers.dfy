/**
 * The host's timer facility, seen from a toaster: `setTimeout` hands out a
 * fresh handle for a pending callback, `clearTimeout` drops one, and the
 * expiry of a pending timer is an explicit step instead of elapsed time.
 * Every callback a toaster schedules removes one toast, so a pending timer
 * is recorded by the toast id it targets and its delay.
 */
module Timers {
  import opened Wrappers

  type Handle = nat

  datatype Timer = Timer(target: string, delay: int)

  /**
   * The delay a toast's expiry is scheduled with: the `timeout` argument
   * defaults to the configured default when omitted, and a non-positive
   * timeout also falls back to that default.
   */
  function Delay(timeout: Option<int>, default: int): (d: int)
    requires default > 0
    ensures d > 0
    ensures timeout.Some? && timeout.value > 0 ==> d == timeout.value
    ensures !(timeout.Some? && timeout.value > 0) ==> d == default
  {
    var t := if timeout.Some? then timeout.value else default;
    if t > 0 then t else default
  }

  /** The ids targeted by pending timers. */
  ghost function Targets(timers: map<Handle, Timer>): set<string> {
    set h | h in timers :: timers[h].target
  }
}
