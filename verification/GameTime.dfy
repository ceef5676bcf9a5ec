/** Calendar arithmetic: the game day of internal/store/card_social.go:174-183 and the weekly window of
    internal/playerapi/special_pack_handlers.go:177-186. Instants count from 1970-01-01T00:00Z. */
module GameTime {
  const DAY := 86400
  const RESET := 21600  // 06:00 UTC

  /** Go's integer division: it rounds toward zero, unlike the Euclidean `/`. */
  function GoDiv(x: int, y: int): int
    requires y > 0
  {
    if x >= 0 then x / y else -(-x / y)
  }

  function GameDay(t: int): int {
    GoDiv(t - RESET, DAY)
  }

  function GameDayStart(t: int): int {
    GameDay(t) * DAY + RESET
  }

  /** The day that contains `t` when days begin at 06:00 UTC, also before 1970. */
  function CalendarDay(t: int): int {
    (t - RESET) / DAY
  }

  /** The computed day contains the instant exactly from 1970-01-01T06:00Z on, and at older resets. */
  lemma GameDayContains(t: int)
    ensures GameDayStart(t) <= t < GameDayStart(t) + DAY <==> t >= RESET || (t - RESET) % DAY == 0
    ensures t >= RESET ==> GameDay(t) == CalendarDay(t)
  {
    var x := t - RESET;
    if x < 0 {
      assert -x == DAY * (-x / DAY) + -x % DAY;
    }
  }

  lemma GameDaysGrow(t: int, u: int)
    requires t <= u
    ensures GameDay(t) <= GameDay(u)
  {
  }

  // ---------------------------------------------------------------- the weekly special pack

  const TICKS := 1_000_000_000  // nanoseconds in a second

  const WEEK := 7 * DAY * TICKS

  const FIRST_RESET := (2 * DAY + 3600) * TICKS  // Saturday 1970-01-03T01:00Z

  function DayNumber(now: int): int {
    now / (DAY * TICKS)
  }

  /** Sunday is 0; 1970-01-01 was a Thursday. */
  function Weekday(now: int): int {
    (DayNumber(now) + 4) % 7
  }

  /** time.Date on a day counted from the one of `now`; it carries over month and year ends. */
  function DateAt(now: int, days: int, hour: int): int {
    ((DayNumber(now) + days) * DAY + hour * 3600) * TICKS
  }

  function CycleStart(now: int): int {
    (now - FIRST_RESET) / WEEK * WEEK + FIRST_RESET
  }

  method SpecialPackCycle(now: int) returns (start: int, next: int)
    ensures start <= now < next && next - start == WEEK
    ensures Weekday(start) == 6 && start == DateAt(start, 0, 1)
    ensures start == CycleStart(now)
  {
    var daysUntilSaturday := (6 - Weekday(now) + 7) % 7;
    next := DateAt(now, daysUntilSaturday, 1);
    if !(now < next) {
      next := next + WEEK;
    }
    start := next - WEEK;
    ghost var day, m := DayNumber(now), (DayNumber(now) + daysUntilSaturday - 2) / 7;
    assert (day + daysUntilSaturday - 2) % 7 == 0;
    assert DateAt(now, daysUntilSaturday, 1) == m * WEEK + FIRST_RESET;
    assert start <= now < next;
    WindowOf(now, if now < DateAt(now, daysUntilSaturday, 1) then m - 1 else m);
  }

  lemma WindowOf(now: int, m: int)
    requires m * WEEK + FIRST_RESET <= now < (m + 1) * WEEK + FIRST_RESET
    ensures CycleStart(now) == m * WEEK + FIRST_RESET
    ensures Weekday(m * WEEK + FIRST_RESET) == 6
    ensures DateAt(m * WEEK + FIRST_RESET, 0, 1) == m * WEEK + FIRST_RESET
  {
    assert DayNumber(m * WEEK + FIRST_RESET) == 7 * m + 2;
  }

  /** Two instants share a window exactly when no Saturday reset lies between them, and the next window
      begins where this one ends. */
  lemma WindowsTile(now: int, then': int)
    requires now <= then'
    ensures CycleStart(now) == CycleStart(then') <==> then' < CycleStart(now) + WEEK
    ensures CycleStart(CycleStart(now) + WEEK) == CycleStart(now) + WEEK
    ensures CycleStart(CycleStart(now)) == CycleStart(now)
  {
    var m := (now - FIRST_RESET) / WEEK;
    WindowOf(now, m);
    WindowOf((m + 1) * WEEK + FIRST_RESET, m + 1);
    WindowOf(m * WEEK + FIRST_RESET, m);
    if then' < CycleStart(now) + WEEK {
      WindowOf(then', m);
    }
  }
}
