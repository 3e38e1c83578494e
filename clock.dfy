/** Elapsed whole minutes between two instants, as
    `Duration.between(start, now).toMinutes()` computes them.
    Instants are whole seconds on the venue's clock, and the clock
    reading is always passed in as `now`. */
module Clock {

  /** Seconds per minute, the divisor `Duration.toMinutes` uses. */
  const SecondsPerMinute: int := 60

  /** Whole minutes from `start` to `now`. Like Java's `long` division,
      this truncates toward zero, so a backwards interval gives zero or
      a negative count. */
  function ElapsedMinutes(start: int, now: int): (m: int)
    ensures now >= start ==> 0 <= m && m * SecondsPerMinute <= now - start < m * SecondsPerMinute + SecondsPerMinute
    ensures now < start ==> m <= 0 && m * SecondsPerMinute - SecondsPerMinute < now - start <= m * SecondsPerMinute
  {
    var d := now - start;
    if d >= 0 then d / SecondsPerMinute else -((-d) / SecondsPerMinute)
  }

  /** A later reading never shows fewer elapsed minutes. */
  lemma ElapsedMinutesMonotone(start: int, now1: int, now2: int)
    requires now1 <= now2
    ensures ElapsedMinutes(start, now1) <= ElapsedMinutes(start, now2)
  {
  }

  /** Truncation, not rounding: 59 seconds is 0 minutes, and 60 to 119
      seconds is 1 minute. */
  lemma ElapsedMinutesTruncates(start: int, now: int)
    ensures 0 <= now - start < 60 ==> ElapsedMinutes(start, now) == 0
    ensures 60 <= now - start < 120 ==> ElapsedMinutes(start, now) == 1
  {
  }
}
