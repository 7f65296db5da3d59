/**
 * The liveness window of the vitals check: a worker is alive when its last
 * heartbeat minute lies within the two minutes before the current one, with
 * the two special cases for the wrap of the minute-of-hour clock at 0 and 1.
 */
module Liveness {
  import opened Tables

  /** Whether a worker whose last heartbeat was at minute `last` counts as alive at minute `now`. */
  predicate IsAlive(now: Minute, last: int)
  {
    if now == 0 then 58 <= last <= 59 || last == 0
    else if now == 1 then last == 59 || 0 <= last <= 1
    else now - 2 <= last <= now
  }

  /** The window is the current minute and the two before it, counted round the hour. */
  lemma AliveIffWithinTwoMinutes(now: Minute, last: Minute)
    ensures IsAlive(now, last) <==> (now - last) % 60 <= 2
  {
  }

  /** A heartbeat sent in the current minute always counts as alive. */
  lemma FreshHeartbeatIsAlive(now: Minute)
    ensures IsAlive(now, now)
  {
  }

  /** At minutes 0 and 1 the window reaches back into the end of the previous hour. */
  lemma AliveAtMidnightWindow(last: int)
    ensures IsAlive(0, last) <==> last in {58, 59, 0}
    ensures IsAlive(1, last) <==> last in {59, 0, 1}
  {
  }

  /**
   * A heartbeat recorded at minute `t` keeps the worker alive for checks at
   * minutes t, t+1 and t+2 (round the hour), and no longer: without a new
   * heartbeat the check at t+3 declares it dead.
   */
  lemma HeartbeatLastsThreeMinutes(t: Minute)
    ensures IsAlive(t, t) && IsAlive((t + 1) % 60, t) && IsAlive((t + 2) % 60, t)
    ensures !IsAlive((t + 3) % 60, t)
  {
  }
}
