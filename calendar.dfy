/** A proleptic Gregorian calendar in a single local time frame without daylight saving.
    An instant is a number of milliseconds since 1970-01-01 00:00 local time; a day number
    counts days since that date. Months are numbered by a month index k = 12 * year + (month - 1),
    so that the month after December of year y is January of year y + 1 simply by k + 1.
    This is the date arithmetic that date-fns performs for addDays, addWeeks and addMonths. */
module Calendar {

  const MsPerDay: int := 86_400_000
  const MsPerHour: int := 3_600_000
  const MsPerMinute: int := 60_000

  /** The month index of January 1970. */
  const EpochMonth: int := 1970 * 12

  predicate IsLeapYear(y: int) {
    y % 4 == 0 && (y % 100 != 0 || y % 400 == 0)
  }

  function DaysInMonth(y: int, m: int): (n: int)
    requires 1 <= m <= 12
    ensures 28 <= n <= 31
    ensures n == 29 <==> m == 2 && IsLeapYear(y)
  {
    if m == 2 then (if IsLeapYear(y) then 29 else 28)
    else if m == 4 || m == 6 || m == 9 || m == 11 then 30
    else 31
  }

  function YearOf(k: int): int { k / 12 }

  function MonthOf(k: int): (m: int)
    ensures 1 <= m <= 12
  {
    k % 12 + 1
  }

  /** Day number of the first day of the month with index k, counted month by month from
      January 1970. */
  function MonthStart(k: int): int
    decreases if k >= EpochMonth then k - EpochMonth else EpochMonth - k
  {
    if k == EpochMonth then 0
    else if k > EpochMonth then MonthStart(k - 1) + MonthLength(k - 1)
    else MonthStart(k + 1) - MonthLength(k)
  }

  function MonthLength(k: int): (n: int)
    ensures 28 <= n <= 31
  {
    DaysInMonth(YearOf(k), MonthOf(k))
  }

  /** Consecutive month starts are one month length apart. */
  lemma MonthStartStep(k: int)
    ensures MonthStart(k + 1) == MonthStart(k) + MonthLength(k)
  {
  }

  lemma {:induction false} MonthStartMonotone(k: int, j: int)
    requires k <= j
    ensures MonthStart(k) + 28 * (j - k) <= MonthStart(j)
    decreases j - k
  {
    if k < j {
      MonthStartMonotone(k, j - 1);
      MonthStartStep(j - 1);
    }
  }

  /** A first guess for the month containing day z (400 Gregorian years have 146097 days). */
  function EstimateMonth(z: int): int {
    EpochMonth + (z * 4800) / 146097
  }

  function SearchUp(z: int, k: int): (r: int)
    requires MonthStart(k) <= z
    ensures MonthStart(r) <= z < MonthStart(r + 1)
    decreases z - MonthStart(k)
  {
    MonthStartStep(k);
    if z < MonthStart(k + 1) then k else SearchUp(z, k + 1)
  }

  function SearchDown(z: int, k: int): (r: int)
    requires z < MonthStart(k)
    ensures MonthStart(r) <= z < MonthStart(r + 1)
    decreases MonthStart(k) - z
  {
    MonthStartStep(k - 1);
    if MonthStart(k - 1) <= z then k - 1 else SearchDown(z, k - 1)
  }

  /** The index of the month that contains day number z. */
  function MonthContaining(z: int): (k: int)
    ensures MonthStart(k) <= z < MonthStart(k + 1)
  {
    var g := EstimateMonth(z);
    if MonthStart(g) <= z then SearchUp(z, g) else SearchDown(z, g)
  }

  /** Day of the month (1-based) of day number z. */
  function DayOfMonth(z: int): (d: int)
    ensures 1 <= d <= MonthLength(MonthContaining(z))
  {
    MonthStartStep(MonthContaining(z));
    z - MonthStart(MonthContaining(z)) + 1
  }

  function Min(a: int, b: int): int { if a <= b then a else b }

  /** The day number of calendar date (y, m, d). */
  function DayNumber(y: int, m: int, d: int): int
    requires 1 <= m <= 12
  {
    MonthStart(12 * y + (m - 1)) + (d - 1)
  }

  function AddDays(t: int, n: int): (r: int)
    ensures r % MsPerDay == t % MsPerDay
    ensures n >= 1 ==> r >= t + MsPerDay
  {
    t + n * MsPerDay
  }

  function AddWeeks(t: int, n: int): (r: int)
    ensures r % MsPerDay == t % MsPerDay
    ensures n >= 1 ==> r >= t + 7 * MsPerDay
  {
    AddDays(t, 7 * n)
  }

  /** addMonths on day numbers: the same day of the month n months later, clipped to the length
      of that month. */
  function ShiftMonths(z: int, n: int): (z2: int)
    ensures n >= 1 ==> z2 > z
    ensures n == 0 ==> z2 == z
  {
    var k := MonthContaining(z);
    var target := k + n;
    var d := Min(DayOfMonth(z), MonthLength(target));
    AddMonthsAdvances(z, k, target, d);
    MonthStart(target) + d - 1
  }

  /** date-fns addMonths: the same day of the month n months later, clipped to the length of
      that month, at the same time of day. */
  function AddMonths(t: int, n: int): (r: int)
    ensures r % MsPerDay == t % MsPerDay
    ensures n >= 1 ==> r >= t + MsPerDay
    ensures n == 0 ==> r == t
  {
    var z, tod := t / MsPerDay, t % MsPerDay;
    var z2 := ShiftMonths(z, n);
    Compose(z2, tod);
    LaterDay(z, z2, tod);
    z2 * MsPerDay + tod
  }

  /** An instant is its day number times the day length plus its time of day. */
  lemma Compose(z: int, tod: int)
    requires 0 <= tod < MsPerDay
    ensures (z * MsPerDay + tod) / MsPerDay == z
    ensures (z * MsPerDay + tod) % MsPerDay == tod
  {
  }

  /** A later day at the same time of day is at least a whole day later. */
  lemma LaterDay(z: int, z2: int, tod: int)
    ensures z2 > z ==> z2 * MsPerDay + tod >= z * MsPerDay + tod + MsPerDay
  {
  }

  lemma AddMonthsAdvances(z: int, k: int, target: int, d: int)
    requires MonthStart(k) <= z < MonthStart(k + 1)
    requires 1 <= d
    ensures target == k ==> d <= z - MonthStart(k) + 1 ==> MonthStart(target) + d - 1 <= z
    ensures target > k ==> MonthStart(target) + d - 1 > z
  {
    if target > k {
      MonthStartMonotone(k + 1, target);
    }
  }

  /** addMonths on an instant is addMonths on its day number, at the same time of day. */
  lemma AddMonthsOnDay(z: int, z2: int, tod: int, n: int)
    requires 0 <= tod < MsPerDay
    requires ShiftMonths(z, n) == z2
    ensures AddMonths(z * MsPerDay + tod, n) == z2 * MsPerDay + tod
  {
    Compose(z, tod);
  }

  /** The shifted day lies in month k + n, on the original day clipped to that month's length. */
  lemma {:induction false} AddMonthsDay(z: int, n: int)
    ensures MonthContaining(ShiftMonths(z, n)) == MonthContaining(z) + n
    ensures DayOfMonth(ShiftMonths(z, n)) == Min(DayOfMonth(z), MonthLength(MonthContaining(z) + n))
  {
    var target := MonthContaining(z) + n;
    MonthStartStep(target);
    MonthContainingUnique(ShiftMonths(z, n), target);
  }

  lemma {:induction false} MonthContainingUnique(z: int, k: int)
    requires MonthStart(k) <= z < MonthStart(k + 1)
    ensures MonthContaining(z) == k
  {
    var j := MonthContaining(z);
    if j < k {
      MonthStartMonotone(j + 1, k);
    } else if j > k {
      MonthStartMonotone(k + 1, j);
    }
  }

  /** Month m of year y has index 12 * y + (m - 1). */
  lemma IndexOf(y: int, m: int)
    requires 1 <= m <= 12
    ensures YearOf(12 * y + (m - 1)) == y && MonthOf(12 * y + (m - 1)) == m
  {
  }

  /** A month index splits into its year and month. */
  lemma IndexParts(k: int)
    ensures 12 * YearOf(k) + (MonthOf(k) - 1) == k
  {
  }

  /** Day numbers round-trip: the day number of a valid date (y, m, d) lies in month m of year y,
      on day d. */
  lemma {:induction false} CivilRoundTrip(y: int, m: int, d: int)
    requires 1 <= m <= 12 && 1 <= d <= DaysInMonth(y, m)
    ensures MonthContaining(DayNumber(y, m, d)) == 12 * y + (m - 1)
    ensures DayOfMonth(DayNumber(y, m, d)) == d
  {
    var k := 12 * y + (m - 1);
    IndexOf(y, m);
    MonthStartStep(k);
    MonthContainingUnique(DayNumber(y, m, d), k);
  }

  /** addMonths on a civil date (y, m, d): the month index 12 * y + (m - 1) moves by n, and the
      day is clipped to the length of the target month. */
  lemma {:induction false} AddMonthsCivil(y: int, m: int, d: int, n: int)
    requires 1 <= m <= 12 && 1 <= d <= DaysInMonth(y, m)
    ensures var k := 12 * y + (m - 1) + n;
            ShiftMonths(DayNumber(y, m, d), n) == DayNumber(YearOf(k), MonthOf(k), Min(d, MonthLength(k)))
  {
    CivilRoundTrip(y, m, d);
    IndexParts(12 * y + (m - 1) + n);
  }

  /** Month-end clipping: January 31 plus one month is the last day of February, the 29th in a
      leap year (2024-01-31 gives 2024-02-29) and the 28th otherwise. */
  lemma {:induction false} MonthEndClips(y: int)
    ensures ShiftMonths(DayNumber(y, 1, 31), 1) == DayNumber(y, 2, if IsLeapYear(y) then 29 else 28)
  {
    AddMonthsCivil(y, 1, 31, 1);
    IndexOf(y, 2);
    assert Min(31, MonthLength(12 * y + 1)) == DaysInMonth(y, 2);
  }

  /** Two monthly steps from January 31 land on the day of March that is the length of
      February (March 29 in a leap year, March 28 otherwise): the clipped day is carried along. */
  lemma {:induction false} RepeatedMonthsDrift(y: int)
    ensures ShiftMonths(ShiftMonths(DayNumber(y, 1, 31), 1), 1) == DayNumber(y, 3, DaysInMonth(y, 2))
  {
    MonthEndClips(y);
    var feb := DaysInMonth(y, 2);
    AddMonthsCivil(y, 2, feb, 1);
    IndexOf(y, 3);
    assert MonthLength(12 * y + 2) == 31;
  }

  /** One two-month step from January 31 lands on March 31, so two monthly steps are not one
      two-month step. */
  lemma {:induction false} TwoMonthsAtOnce(y: int)
    ensures ShiftMonths(DayNumber(y, 1, 31), 2) == DayNumber(y, 3, 31)
  {
    AddMonthsCivil(y, 1, 31, 2);
    IndexOf(y, 3);
  }
}
