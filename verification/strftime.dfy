/** tm_diff of strftime.c: the seconds between two broken-down times, for all years. */
module TimeDifference {
  const TM_YEAR_BASE := 1900

  datatype Tm = Tm(year: int, yday: int, hour: int, min: int, sec: int)

  /** C's division, which truncates toward zero. */
  function Quotient(a: int, b: int): int
    requires b > 0
  {
    if a >= 0 then a / b else -(-a / b)
  }

  /** C's remainder, which has the sign of the dividend. */
  function Remainder(a: int, b: int): int
    requires b > 0
  {
    if a >= 0 then a % b else -(-a % b)
  }

  /** `>> 2` of a signed integer keeps the sign. */
  function ShiftRight2(a: int): int { a / 4 }

  predicate IsLeap(year: int) {
    Remainder(year, 4) == 0 && (Remainder(year, 100) != 0 || Remainder(year, 400) == 0)
  }

  /** The leap days that the code counts, from the number of fours: a century that is not a
      multiple of 400 has none, and the quotient has to be floored for negative numbers. */
  function Fours(tmYear: int): int {
    ShiftRight2(tmYear) + ShiftRight2(TM_YEAR_BASE) - (if tmYear % 4 == 0 then 1 else 0)
  }

  function Hundreds(fours: int): int {
    Quotient(fours, 25) - (if Remainder(fours, 25) < 0 then 1 else 0)
  }

  function Days(a: Tm, b: Tm): int {
    var a4, b4 := Fours(a.year), Fours(b.year);
    var a100, b100 := Hundreds(a4), Hundreds(b4);
    var a400, b400 := ShiftRight2(a100), ShiftRight2(b100);
    var interveningLeapDays := (a4 - b4) - (a100 - b100) + (a400 - b400);
    365 * (a.year - b.year) + interveningLeapDays + (a.yday - b.yday)
  }

  function TmDiff(a: Tm, b: Tm): int {
    60 * (60 * (24 * Days(a, b) + (a.hour - b.hour)) + (a.min - b.min)) + (a.sec - b.sec)
  }

  function YearLength(year: int): int {
    if IsLeap(year) then 366 else 365
  }

  /** The days from the start of year `from` to the start of year `to`, year by year. */
  function DaysBetween(from: int, to: int): int
    decreases if from <= to then to - from else from - to
  {
    if from == to then 0
    else if from < to then DaysBetween(from, to - 1) + YearLength(to - 1)
    else DaysBetween(from, to + 1) - YearLength(to)
  }

  /** The correction turns the truncated quotient into the floor. */
  lemma HundredsFloors(n: int)
    ensures Hundreds(n) == n / 25
  {
  }

  lemma DividesBy4(year: int)
    ensures Remainder(year, 4) == 0 <==> year % 4 == 0
  {
  }

  lemma DividesBy100(year: int)
    ensures Remainder(year, 100) == 0 <==> year % 100 == 0
  {
  }

  lemma DividesBy400(year: int)
    ensures Remainder(year, 400) == 0 <==> year % 400 == 0
  {
  }

  lemma LeapByFloors(year: int)
    ensures IsLeap(year) <==> year % 4 == 0 && (year % 100 != 0 || year % 400 == 0)
  {
    hide Remainder;
    DividesBy4(year);
    DividesBy100(year);
    DividesBy400(year);
  }

  /** The leap days before a year. */
  function LeapDaysBefore(year: int): int {
    (year - 1) / 4 - (year - 1) / 100 + (year - 1) / 400
  }

  lemma LeapDaysStep(year: int)
    ensures LeapDaysBefore(year + 1) == LeapDaysBefore(year) + (if IsLeap(year) then 1 else 0)
  {
    hide IsLeap;
    LeapByFloors(year);
    FloorSteps(year);
    MultiplesNest(year);
  }

  lemma FloorSteps(year: int)
    ensures year / 4 == (year - 1) / 4 + (if year % 4 == 0 then 1 else 0)
    ensures year / 100 == (year - 1) / 100 + (if year % 100 == 0 then 1 else 0)
    ensures year / 400 == (year - 1) / 400 + (if year % 400 == 0 then 1 else 0)
  {
  }

  lemma MultiplesNest(year: int)
    ensures year % 400 == 0 ==> year % 100 == 0
    ensures year % 100 == 0 ==> year % 4 == 0
  {
    MultipleOf400(year / 400);
    MultipleOf100(year / 100);
  }

  lemma MultipleOf400(q: int)
    ensures 400 * q % 100 == 0
  {
    assert 400 * q == 100 * (4 * q);
  }

  lemma MultipleOf100(q: int)
    ensures 100 * q % 4 == 0
  {
    assert 100 * q == 4 * (25 * q);
  }

  lemma FoursFloor(tmYear: int)
    ensures Fours(tmYear) == (tmYear + TM_YEAR_BASE - 1) / 4
  {
  }

  lemma FloorsCompose(n: int)
    ensures n / 4 / 25 == n / 100 && n / 100 / 4 == n / 400
  {
  }

  lemma LeapDaysCounted(tmYear: int)
    ensures var a4 := Fours(tmYear);
      a4 - Hundreds(a4) + ShiftRight2(Hundreds(a4)) == LeapDaysBefore(tmYear + TM_YEAR_BASE)
  {
    hide Fours, Hundreds;
    HundredsFloors(Fours(tmYear));
    FoursFloor(tmYear);
    FloorsCompose(tmYear + TM_YEAR_BASE - 1);
  }

  lemma {:induction false} DaysBetweenByFloors(from: int, to: int)
    ensures DaysBetween(from, to) == 365 * (to - from) + LeapDaysBefore(to) - LeapDaysBefore(from)
    decreases if from <= to then to - from else from - to
  {
    if from < to {
      DaysBetweenByFloors(from, to - 1);
      LeapDaysStep(to - 1);
    } else if from > to {
      DaysBetweenByFloors(from, to + 1);
      LeapDaysStep(to);
    }
  }

  /** The difference is the proleptic Gregorian one, in seconds, for all years. */
  lemma TmDiffIsGregorian(a: Tm, b: Tm)
    ensures TmDiff(a, b)
      == 86400 * (DaysBetween(b.year + TM_YEAR_BASE, a.year + TM_YEAR_BASE) + a.yday - b.yday)
         + 3600 * (a.hour - b.hour) + 60 * (a.min - b.min) + a.sec - b.sec
  {
    LeapDaysCounted(a.year);
    LeapDaysCounted(b.year);
    DaysBetweenByFloors(b.year + TM_YEAR_BASE, a.year + TM_YEAR_BASE);
  }

  /** The truncated quotient alone is not the floor: for the year -100 it differs. */
  lemma CorrectionIsNeeded()
    ensures Quotient(Fours(-100 - TM_YEAR_BASE), 25) != Hundreds(Fours(-100 - TM_YEAR_BASE))
  {
  }
}
