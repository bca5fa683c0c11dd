/**
 The ISO 8601 week date in `strftime`: a loop that steps through years, against the definition by the
 week's Thursday.  And the split of a year given as a sum into century and rest.
 */
module IsoWeek {
  import opened Arithmetic

  const DAYSPERWEEK := 7
  const DAYSPERLYEAR := 366
  const DAYSPERNYEAR := 365
  const TM_YEAR_BASE := 1900
  const DIVISOR := 100

  // ----- C arithmetic -----

  /** `a / b` and `a % b` as C has them: toward zero. */
  function CDiv(a: int, b: int): int
    requires b > 0
  {
    if a >= 0 then a / b else -((-a) / b)
  }

  function CMod(a: int, b: int): int
    requires b > 0
  {
    a - CDiv(a, b) * b
  }

  predicate IsLeapC(y: int) {
    CMod(y, 4) == 0 && (CMod(y, 100) != 0 || CMod(y, 400) == 0)
  }

  /** `isleap_sum`: does not compute the sum, which might overflow. */
  predicate IsLeapSum(a: int, b: int) {
    IsLeapC(CMod(a, 400) + CMod(b, 400))
  }

  /** The Gregorian rule. */
  predicate IsLeap(y: int) {
    y % 4 == 0 && (y % 100 != 0 || y % 400 == 0)
  }

  lemma CModZero(a: int, b: int)
    requires b > 0
    ensures CMod(a, b) == 0 <==> a % b == 0
  {
    if a < 0 {
      if CMod(a, b) == 0 {
        DivModUnique(CDiv(a, b), 0, b);
      }
      if a % b == 0 {
        assert -a == (-(a / b)) * b + 0;
        DivModUnique(-(a / b), 0, b);
      }
    }
  }

  /** Adding whole cycles of 400 years does not change whether a year is a leap year. */
  lemma LeapCycle(y: int, k: int)
    ensures IsLeap(y + 400 * k) == IsLeap(y)
  {
    ModAddMultiple(y, 100 * k, 4);
    ModAddMultiple(y, 4 * k, 100);
    ModAddMultiple(y, k, 400);
  }

  lemma LeapSum(a: int, b: int)
    ensures IsLeapSum(a, b) == IsLeap(a + b)
  {
    hide CDiv;
    var s := CMod(a, 400) + CMod(b, 400);
    CModZero(s, 4);
    CModZero(s, 100);
    CModZero(s, 400);
    var k := CDiv(a, 400) + CDiv(b, 400);
    assert s == a + b + 400 * (-k);
    LeapCycle(a + b, -k);
  }

  // ----- the week -----

  function YearLength(y: int): int {
    if IsLeap(y) then DAYSPERLYEAR else DAYSPERNYEAR
  }

  /** The day of the year of the week's Thursday; weeks begin on Monday. */
  function Thursday(yday: int, wday: int): int {
    yday - (wday + 6) % 7 + 3
  }

  /** The ISO year is the one the Thursday is in. */
  function IsoYear(y: int, yday: int, wday: int): int {
    var th := Thursday(yday, wday);
    if th < 0 then y - 1 else if th >= YearLength(y) then y + 1 else y
  }

  /** The week counts the Thursdays of that year up to this one. */
  function IsoWeekNo(y: int, yday: int, wday: int): int {
    var th := Thursday(yday, wday);
    1 + (if th < 0 then th + YearLength(y - 1) else if th >= YearLength(y) then th - YearLength(y) else th) / 7
  }

  /** What one turn of the loop computes: the days of the year the ISO year and the next one begin on. */
  function Bot(yday: int, wday: int): int {
    CMod(yday + 11 - wday, DAYSPERWEEK) - 3
  }

  function Top(bot: int, len: int): int {
    var top := bot - CMod(len, DAYSPERWEEK);
    (if top < -3 then top + DAYSPERWEEK else top) + len
  }

  /** The ISO year begins within three days of the first of January, on a Monday. */
  lemma BotTop(yday: int, wday: int, len: int)
    requires 0 <= yday && 0 <= wday <= 6 && (len == 365 || len == 366)
    ensures var (bot, top) := (Bot(yday, wday), Top(Bot(yday, wday), len));
            && -3 <= bot <= 3 && (yday - bot - (wday + 6) % 7) % 7 == 0
            && len - 3 <= top <= len + 3 && (top - bot) % 7 == 0
  {
  }

  /** Where the day lies between the two beginnings says where the week's Thursday lies. */
  lemma Classify(yday: int, wday: int, len: int)
    requires 0 <= yday && 0 <= wday <= 6 && (len == 365 || len == 366)
    ensures var (bot, top, th) := (Bot(yday, wday), Top(Bot(yday, wday), len), Thursday(yday, wday));
            && (yday >= top <==> th >= len) && (yday >= bot <==> th >= 0)
            && (yday >= bot ==> CDiv(yday - bot, DAYSPERWEEK) == th / 7)
  {
    hide Bot, Top;
    BotTop(yday, wday, len);
    var bot, top, m := Bot(yday, wday), Top(Bot(yday, wday), len), (wday + 6) % 7;
    var monday := yday - m;
    var q, r := (monday - bot) / 7, (monday - top) / 7;
    assert (monday - top) % 7 == 0;
    assert monday == bot + 7 * q && monday == top + 7 * r;
  }

  /**
   The loop for %V, %G and %g: the week, and the ISO year as `year + base`.
   */
  method WeekDate(tmYear: int, tmYday: int, tmWday: int) returns (w: int, year: int, base: int, ghost turns: nat)
    requires 0 <= tmWday <= 6 && 0 <= tmYday < YearLength(tmYear + TM_YEAR_BASE)
    ensures turns <= 2
    ensures year == tmYear && year + base == IsoYear(tmYear + TM_YEAR_BASE, tmYday, tmWday)
    ensures w == IsoWeekNo(tmYear + TM_YEAR_BASE, tmYday, tmWday) && 1 <= w <= 53
  {
    year, base := tmYear, TM_YEAR_BASE;
    var yday, wday := tmYday, tmWday;
    turns := 0;
    ghost var y := tmYear + TM_YEAR_BASE;
    while true
      invariant year == tmYear && wday == tmWday
      invariant (turns == 0 && base == TM_YEAR_BASE && yday == tmYday) ||
                (turns == 1 && base == TM_YEAR_BASE - 1 && yday == tmYday + YearLength(y - 1) && Thursday(tmYday, tmWday) < 0)
      decreases 2 - turns
    {
      turns := turns + 1;
      w, base, yday := Turn(year, base, yday, wday);
      if w > 0 {
        break;
      }
    }
  }

  /** One turn of the loop; 0 when the year before has to be tried. */
  method Turn(year: int, base0: int, yday0: int, wday: int) returns (w: int, base: int, yday: int)
    requires 0 <= wday <= 6 && 0 <= yday0
    ensures var (th, len) := (Thursday(yday0, wday), YearLength(year + base0));
            && (th >= len ==> w == 1 && base == base0 + 1)
            && (0 <= th < len ==> w == 1 + th / 7 && base == base0)
            && (th < 0 ==> w == 0 && base == base0 - 1 && yday == yday0 + YearLength(year + base))
  {
    hide IsLeapSum, IsLeap, Thursday, CMod, CDiv;
    base, yday := base0, yday0;
    LeapSum(year, base);
    LeapSum(year, base - 1);
    var len := if IsLeapSum(year, base) then DAYSPERLYEAR else DAYSPERNYEAR;
    Classify(yday, wday, len);
    var bot := CMod(yday + 11 - wday, DAYSPERWEEK) - 3;
    var top := bot - CMod(len, DAYSPERWEEK);
    if top < -3 {
      top := top + DAYSPERWEEK;
    }
    top := top + len;
    if yday >= top {
      base := base + 1;
      w := 1;
      return;
    }
    if yday >= bot {
      w := 1 + CDiv(yday - bot, DAYSPERWEEK);
      return;
    }
    base := base - 1;
    yday := yday + if IsLeapSum(year, base) then DAYSPERLYEAR else DAYSPERNYEAR;
    w := 0;
  }

  // ----- the year in two parts -----

  /** The numbers `_yconv` prints: `a + b` as hundreds and the rest, neither of the other's sign. */
  method Yconv(a: int, b: int) returns (lead: int, trail: int)
    ensures lead * 100 + trail == a + b && -100 < trail < 100
    ensures (lead > 0 ==> trail >= 0) && (lead < 0 ==> trail <= 0)
    ensures a + b >= 0 ==> lead == (a + b) / 100 && trail == (a + b) % 100
    ensures a + b < 0 ==> -lead == (-(a + b)) / 100 && -trail == (-(a + b)) % 100
  {
    trail := CMod(a, DIVISOR) + CMod(b, DIVISOR);
    lead := CDiv(a, DIVISOR) + CDiv(b, DIVISOR) + CDiv(trail, DIVISOR);
    trail := CMod(trail, DIVISOR);
    if trail < 0 && lead > 0 {
      trail := trail + DIVISOR;
      lead := lead - 1;
    } else if lead < 0 && trail > 0 {
      trail := trail - DIVISOR;
      lead := lead + 1;
    }
  }
}
