/** A clock that never goes back. */
module Time {

  const SECOND := 1_000_000_000

  class Clock {
    /** Since the zero time, before which nothing happens. */
    var now: nat

    constructor ()
    {
      var start: int := *;
      now := if start < 0 then 0 else start;
    }

    /** Reading the clock takes time of its own. */
    method Read() returns (t: nat)
      modifies this
      ensures old(now) <= t == now
    {
      Pass();
      t := now;
    }

    /** Waiting takes at least as long as asked, unless the run is cancelled. */
    method Wait(period: int) returns (cancelled: bool)
      modifies this
      ensures old(now) <= now
      ensures !cancelled ==> now >= old(now) + period
    {
      Pass();
      cancelled := *;
      if !cancelled && period > 0 {
        now := now + period;
      }
    }

    /** Anything may take any time. */
    method Pass()
      modifies this
      ensures old(now) <= now
    {
      var elapsed: int := *;
      if elapsed > 0 {
        now := now + elapsed;
      }
    }
  }
}
