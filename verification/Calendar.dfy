/** Which weekday a month begins with: the closed formula of the calendar against counting days. */
module Calendar {
  import opened Arithmetic

  predicate LeapYear(year: int) {
    year % 400 == 0 || (year % 100 != 0 && year % 4 == 0)
  }

  /** How many days the calendar prints. */
  function MonthLength(month: int, year: int): int {
    if month in {1, 3, 5, 7, 8, 10, 12} then 31
    else if month == 2 then (if LeapYear(year) then 29 else 28)
    else 30
  }

  /** January and February count as months 13 and 14 of the year before. */
  function Shifted(month: int, year: int): (int, int) {
    if month < 3 then (month + 12, year - 1) else (month, year)
  }

  function CenturySum(year: int): int
    requires year >= 0
  {
    var k, j := year % 100, year / 100;
    k + k / 4 + j / 4 + 5 * j
  }

  function Weekday(sum: int): int {
    (sum % 7 + 6) % 7
  }

  /** The formula, after Zeller: 0 is Sunday. */
  function Cailei(month0: int, year0: int): (w: int)
    requires 1 <= month0 <= 12 && year0 >= 1
    ensures 0 <= w < 7
  {
    var (month, year) := Shifted(month0, year0);
    Weekday(1 + (13 * (month + 1)) / 5 + CenturySum(year))
  }

  lemma WeekdayMoves(a: int, b: int, days: int, weeks: int)
    requires b - a == days + 7 * weeks
    ensures Weekday(b) == (Weekday(a) + days) % 7
  {
  }

  lemma CenturySumAt(j: nat, k: nat)
    requires k < 100
    ensures CenturySum(100 * j + k) == k + k / 4 + j / 4 + 5 * j
    ensures (100 * j + k) % 100 == k && (100 * j + k) % 4 == k % 4
    ensures k == 0 ==> (100 * j % 400 == 0 <==> j % 4 == 0)
  {
    ModUnique(100 * j + k, 100, j, k);
    ModUnique(100 * j + k, 4, 25 * j + k / 4, k % 4);
    ModUnique(100 * j, 400, j / 4, 100 * (j % 4));
  }

  lemma YearFollows(year: int)
    requires year >= 1
    ensures CenturySum(year) - CenturySum(year - 1) ==
            if year % 100 == 0 then -118 + (if year % 400 == 0 then 1 else 0) else 1 + (if year % 4 == 0 then 1 else 0)
  {
    var k, j := year % 100, year / 100;
    assert year == 100 * j + k;
    CenturySumAt(j, k);
    hide CenturySum;
    if k == 0 {
      CenturySumAt(j - 1, 99);
      assert year - 1 == 100 * (j - 1) + 99;
    } else {
      CenturySumAt(j, k - 1);
      assert year - 1 == 100 * j + (k - 1);
    }
  }

  lemma MarchFollows(year: int)
    requires year >= 1
    ensures Cailei(3, year) == (Cailei(2, year) + MonthLength(2, year)) % 7
  {
    YearFollows(year);
    FebruaryTurns(year, CenturySum(year - 1), CenturySum(year));
  }

  lemma FebruaryTurns(year: int, before: int, after: int)
    requires after - before == if year % 100 == 0 then -118 + (if year % 400 == 0 then 1 else 0)
                               else 1 + (if year % 4 == 0 then 1 else 0)
    ensures Weekday(1 + (13 * 4) / 5 + after) == (Weekday(1 + (13 * 15) / 5 + before) + MonthLength(2, year)) % 7
  {
    WeekdayMoves(1 + (13 * 15) / 5 + before, 1 + (13 * 4) / 5 + after, MonthLength(2, year),
                 if year % 100 == 0 then -25 else -8);
  }

  /** Away from February the year of the formula stays, so only the fifths of 13 * month matter. */
  lemma MonthTurns(month: int, year: int, m: int, century: int)
    requires 1 <= month <= 12 && month != 2 && m == (if month < 3 then month + 12 else month)
    ensures Weekday(1 + (13 * (m + 2)) / 5 + century) ==
            (Weekday(1 + (13 * (m + 1)) / 5 + century) + MonthLength(month, year)) % 7
  {
    hide Weekday;
    WeekdayMoves(1 + (13 * (m + 1)) / 5 + century, 1 + (13 * (m + 2)) / 5 + century, MonthLength(month, year), -4);
  }

  /** One month on, the weekday moves by the length of the month. */
  lemma NextMonth(month: int, year: int)
    requires 1 <= month <= 12 && year >= 1
    ensures Cailei(if month == 12 then 1 else month + 1, if month == 12 then year + 1 else year) ==
            (Cailei(month, year) + MonthLength(month, year)) % 7
  {
    hide Weekday, MonthLength, CenturySum;
    if month == 2 {
      MarchFollows(year);
    } else {
      var (m, y) := Shifted(month, year);
      MonthTurns(month, year, m, CenturySum(y));
    }
  }

  /** Days from the first day of year 1 to the first day of a month, month by month. */
  function DaysBefore(month: int, year: int): int
    requires 1 <= month <= 12 && year >= 1
    decreases year, month
  {
    if month > 1 then DaysBefore(month - 1, year) + MonthLength(month - 1, year)
    else if year > 1 then DaysBefore(12, year - 1) + MonthLength(12, year - 1)
    else 0
  }

  lemma FirstDay()
    ensures Cailei(1, 1) == 1
  {
  }

  /** The formula agrees with counting, from a Monday, over all years. */
  lemma {:induction false} FormulaCountsDays(month: int, year: int)
    requires 1 <= month <= 12 && year >= 1
    ensures Cailei(month, year) == (DaysBefore(month, year) + 1) % 7
    decreases year, month
  {
    hide Cailei, MonthLength;
    FirstDay();
    if month > 1 {
      FormulaCountsDays(month - 1, year);
      NextMonth(month - 1, year);
    } else if year > 1 {
      FormulaCountsDays(12, year - 1);
      NextMonth(12, year - 1);
    }
  }

  /** Days of the months before `month`, whatever the year. */
  function DaysInMonths(month: int, year: int): int
    decreases month
  {
    if month <= 1 then 0 else DaysInMonths(month - 1, year) + MonthLength(month - 1, year)
  }

  /** Within a year the formula agrees with the day count of exercises/10.c. */
  lemma {:induction false} FormulaWithinYear(month: int, year: int)
    requires 1 <= month <= 12 && year >= 1
    ensures DaysBefore(month, year) == DaysBefore(1, year) + DaysInMonths(month, year)
    ensures Cailei(month, year) == (Cailei(1, year) + DaysInMonths(month, year)) % 7
    decreases month
  {
    hide Cailei, MonthLength;
    if month > 1 {
      FormulaWithinYear(month - 1, year);
      NextMonth(month - 1, year);
    }
  }

  const MONTHS: seq<int> := [0, 31, 28, 31, 30, 31, 30, 31, 31, 30, 31, 30, 31]

  /** Which day of the year a date is. The table ends with December, so no more than 13 months are read. */
  method DayOfYear(y: int, m: int, d: int) returns (day: int)
    requires m <= 13
    ensures day == DaysInMonths(m, y) + d
  {
    var month := new int[13](i requires 0 <= i < 13 => MONTHS[i]);
    if LeapYear(y) {
      month[2] := month[2] + 1;
    }
    day := 0;
    var i := 0;
    while i < m
      invariant forall x | 1 <= x <= 12 :: month[x] == MonthLength(x, y)
      invariant month[0] == 0
      invariant 0 <= i && (m >= 0 ==> i <= m) && (m < 0 ==> i == 0)
      invariant day == DaysInMonths(i, y)
    {
      day := day + month[i];
      i := i + 1;
    }
    day := day + d;
  }
}
