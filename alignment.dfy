/**
 * The alignment primitive shared by both posting policies: how long remains,
 * from a position inside the current UTC day, until the next multiple of the
 * posting interval. The bot computes it once in seconds (for the per-chat
 * repeating job) and once in milliseconds (for the simultaneous scheduler);
 * both are `period - (elapsed % period)` with Python's `%`.
 */
module Alignment {
  import opened PyCore

  const SecondsPerDay: int := 86_400
  const MsPerDay: int := 86_400_000

  /**
   * Time since the most recent UTC midnight, for an absolute time `now`
   * counted in units of which `day` make one day. UTC days have no leap
   * seconds in Python's datetime, so midnights are the multiples of `day`.
   */
  function SinceMidnight(now: int, day: int): (r: int)
    requires day > 0
    ensures 0 <= r < day
    ensures (now - r) % day == 0
  {
    FloorMod(now, day)
  }

  /** The most recent UTC midnight at or before `now`. */
  function LastMidnight(now: int, day: int): (r: int)
    requires day > 0
    ensures r <= now < r + day
    ensures r % day == 0
  {
    now - SinceMidnight(now, day)
  }

  /**
   * `period - (elapsed % period)`: the time from `elapsed` to the next
   * multiple of `period`. A position that is already on a boundary gets the
   * full period, never zero.
   */
  function UntilNextBoundary(period: int, elapsed: int): (r: int)
    requires period != 0
    ensures period > 0 ==> 0 < r <= period
    ensures period < 0 ==> period <= r < 0
    ensures (elapsed + r) % period == 0
  {
    var m := FloorMod(elapsed, period);
    var q := (elapsed - m) / period;
    assert elapsed - m == period * q;
    DivModUnique(elapsed + (period - m), period, q + 1, 0);
    period - m
  }

  /** No boundary lies strictly between `elapsed` and `elapsed + UntilNextBoundary(...)`: it is the NEXT boundary. */
  lemma NextBoundaryIsFirst(period: int, elapsed: int, d: int)
    requires period > 0
    requires 0 < d < UntilNextBoundary(period, elapsed)
    ensures (elapsed + d) % period != 0
  {
    var m := FloorMod(elapsed, period);
    var q := (elapsed - m) / period;
    assert elapsed - m == period * q;
    DivModUnique(elapsed + d, period, q, m + d);
  }

  /** At an exact boundary the wait is a whole period; elsewhere it is the distance to the next one. */
  lemma UntilNextBoundaryAtBoundary(period: int, elapsed: int)
    requires period > 0
    ensures elapsed % period == 0 <==> UntilNextBoundary(period, elapsed) == period
  {
    var r := UntilNextBoundary(period, elapsed);
    if r == period {
      var q := (elapsed + r) / period;
      assert elapsed + r == period * q;
      DivModUnique(elapsed, period, q - 1, 0);
    }
  }
}
