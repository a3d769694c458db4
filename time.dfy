/** The host's notion of time, as the driver sees it through `time.time()`
    and `time.sleep()`: a millisecond counter that only sleeping advances. */
module Time {

  class Clock {
    /** Milliseconds since an arbitrary origin. */
    var now: int

    constructor (start: int)
      ensures now == start
    {
      now := start;
    }

    /** Blocks for `ms` milliseconds. */
    method Sleep(ms: nat)
      modifies this
      ensures now == old(now) + ms
    {
      now := now + ms;
    }
  }
}
