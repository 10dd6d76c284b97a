/** The build date: days since the epoch to a Gregorian date. */
module Calendar {
  import opened Bytes
  import opened Text

  const U32: nat := 0x1_0000_0000

  predicate Divides(k: nat, n: nat)
    requires k > 0
  {
    n % k == 0
  }

  predicate IsLeap(year: nat) {
    (Divides(4, year) && !Divides(100, year)) || Divides(400, year)
  }

  function YearLength(year: nat): nat {
    if IsLeap(year) then 366 else 365
  }

  function MonthDays(leap: bool): (r: seq<nat>)
    ensures |r| == 12
  {
    [31, if leap then 29 else 28, 31, 30, 31, 30, 31, 31, 30, 31, 30, 31]
  }

  // ----- The reference: closed-form day numbers

  /** How many multiples of `k` there are from 1 to `n`. */
  function Multiples(k: nat, n: nat): nat
    requires k > 0
  {
    n / k
  }

  /** Days in all years before `year`, from the number of multiples of 4, 100 and 400. */
  function YearStart(year: nat): int
    requires year >= 1
  {
    var n := year - 1;
    365 * n + Multiples(4, n) - Multiples(100, n) + Multiples(400, n)
  }

  /** Days in all months before `month`, in the usual closed form. */
  function MonthStart(leap: bool, month: nat): int
    requires 1 <= month <= 12
  {
    (367 * month - 362) / 12 - (if month <= 2 then 0 else if leap then 1 else 2)
  }

  datatype Date = Date(year: nat, month: nat, day: nat)
  {
    predicate Valid() {
      year >= 1 && 1 <= month <= 12 && 1 <= day <= MonthDays(IsLeap(year))[month - 1]
    }

    function Number(): int
      requires Valid()
    {
      YearStart(year) + MonthStart(IsLeap(year), month) + day
    }
  }

  const EPOCH := Date(1970, 1, 1)

  /** The multiples up to a year are one more than before exactly at a multiple. */
  lemma MultiplesStep(n: nat)
    requires n >= 1
    ensures Multiples(4, n) == Multiples(4, n - 1) + if Divides(4, n) then 1 else 0
    ensures Multiples(100, n) == Multiples(100, n - 1) + if Divides(100, n) then 1 else 0
    ensures Multiples(400, n) == Multiples(400, n - 1) + if Divides(400, n) then 1 else 0
  {
  }

  lemma CenturiesDivide(n: nat)
    ensures Divides(400, n) ==> Divides(100, n)
    ensures Divides(100, n) ==> Divides(4, n)
  {
    assert Divides(400, n) ==> n == 100 * (4 * (n / 400));
    assert Divides(100, n) ==> n == 4 * (25 * (n / 100));
  }

  /** The closed form grows by the length of the year. */
  lemma YearStep(year: nat)
    requires year >= 1
    ensures YearStart(year + 1) == YearStart(year) + YearLength(year)
  {
    hide Multiples, Divides;
    MultiplesStep(year);
    CenturiesDivide(year);
  }

  /** The closed form grows by the length of the month, and the last month ends the year. */
  lemma MonthStep(leap: bool, month: nat)
    requires 1 <= month <= 12
    ensures MonthStart(leap, 1) == 0
    ensures MonthStart(leap, month) + MonthDays(leap)[month - 1] ==
      if month < 12 then MonthStart(leap, month + 1) else if leap then 366 else 365
  {
    if month == 1 {} else if month == 2 {} else if month == 3 {} else if month == 4 {}
    else if month == 5 {} else if month == 6 {} else if month == 7 {} else if month == 8 {}
    else if month == 9 {} else if month == 10 {} else if month == 11 {} else {}
  }

  // ----- The date as text

  /** A number with zeros in front up to a width. */
  function Padded(n: nat, width: nat): Bytes {
    Zeros(width - |Format(n, 10)|) + Format(n, 10)
  }

  const DASH: Bytes := [45]

  function DateText(d: Date): Bytes {
    Padded(d.year, 4) + (DASH + (Padded(d.month, 2) + (DASH + Padded(d.day, 2))))
  }

  lemma PaddedReadsBack(n: nat, width: nat)
    ensures Value(Padded(n, width), 10) == Some(n)
    ensures |Padded(n, width)| >= width
    ensures n < 100 && width == 2 ==> |Padded(n, width)| == 2
  {
    ZerosInFront(width - |Format(n, 10)|, Format(n, 10), 10);
    ValueOfFormat(n, 10);
    assert n < 100 ==> |Format(n, 10)| <= 2;
  }

  /** Year, month and day as they stand in a text, counted from its end. */
  function ReadDate(t: Bytes): (Option<nat>, Option<nat>, Option<nat>)
    requires |t| >= 6
  {
    var n := |t|;
    (Value(t[..n - 6], 10), Value(t[n - 5..n - 3], 10), Value(t[n - 2..], 10))
  }

  /** The date is read back from its text. */
  lemma TextReadsBack(d: Date)
    requires d.Valid()
    ensures |DateText(d)| >= 10 && ReadDate(DateText(d)) == (Some(d.year), Some(d.month), Some(d.day))
    ensures DateText(d)[|DateText(d)| - 6] == DateText(d)[|DateText(d)| - 3] == '-' as int
  {
    hide Value, Padded;
    PaddedReadsBack(d.year, 4);
    PaddedReadsBack(d.month, 2);
    PaddedReadsBack(d.day, 2);
    CutText(Padded(d.year, 4), Padded(d.month, 2), Padded(d.day, 2));
    var t := DateText(d);
    assert t[|t| - 6] == t[|t| - 6..|t| - 5][0] && t[|t| - 3] == t[|t| - 3..|t| - 2][0];
  }

  lemma CutText(y: Bytes, m: Bytes, d: Bytes)
    requires |m| == 2 && |d| == 2
    ensures
      var t := y + (DASH + (m + (DASH + d)));
      var n := |t|;
      && n == |y| + 6 && t[..n - 6] == y && t[n - 6..n - 5] == DASH && t[n - 5..n - 3] == m
      && t[n - 3..n - 2] == DASH && t[n - 2..] == d
  {
  }

  /** Different dates are written differently. */
  lemma TextsDiffer(a: Date, b: Date)
    requires a.Valid() && b.Valid()
    ensures DateText(a) == DateText(b) <==> a == b
  {
    hide DateText, ReadDate, Date.Valid;
    TextReadsBack(a);
    TextReadsBack(b);
  }

  /** The loops end in a valid date whose day number gives the day count back, and the text is that date's. */
  method EpochToDate(secs: nat) returns (text: Bytes, date: Date)
    ensures text == DateText(date)
    ensures date.Valid() && date.year >= 1970
    ensures date.Number() - EPOCH.Number() == secs / 86400 % U32
    ensures date.year < U32
  {
    var days := secs / 86400 % U32;
    var year: nat, remaining: nat := 1970, days;
    while remaining >= YearLength(year)
      invariant 1970 <= year && YearStart(year) + remaining == YearStart(1970) + days
      invariant 365 * (year - 1970) + remaining <= days
      decreases remaining
    {
      YearStep(year);
      remaining := remaining - YearLength(year);
      year := year + 1;
    }
    var leap := IsLeap(year);
    var monthDays := MonthDays(leap);
    ghost var inYear := remaining;
    var month := 1;
    MonthStep(leap, 1);
    while month <= 12
      invariant 1 <= month <= 13
      invariant month <= 12 ==> MonthStart(leap, month) + remaining == inYear
      invariant month == 13 ==> YearLength(year) + remaining == inYear
    {
      if remaining < monthDays[month - 1] { break; }
      MonthStep(leap, month);
      remaining := remaining - monthDays[month - 1];
      month := month + 1;
    }
    date := Date(year, month, remaining + 1);
    text := DateText(date);
  }

  lemma {:induction false} YearsAscend(y: nat, z: nat)
    requires 1 <= y < z
    ensures YearStart(y) + YearLength(y) <= YearStart(z)
    decreases z
  {
    YearStep(z - 1);
    if y == z - 1 {
    } else {
      YearsAscend(y, z - 1);
    }
  }

  lemma {:induction false} MonthsAscend(leap: bool, m: nat, n: nat)
    requires 1 <= m < n <= 12
    ensures MonthStart(leap, m) + MonthDays(leap)[m - 1] <= MonthStart(leap, n)
    decreases n
  {
    MonthStep(leap, n - 1);
    if m == n - 1 {
    } else {
      MonthsAscend(leap, m, n - 1);
    }
  }

  /** A date lies inside its year. */
  lemma InYear(a: Date)
    requires a.Valid()
    ensures YearStart(a.year) < a.Number() <= YearStart(a.year) + YearLength(a.year)
  {
    MonthStep(IsLeap(a.year), a.month);
    if a.month > 1 { MonthsAscend(IsLeap(a.year), 1, a.month); }
    if a.month < 12 { MonthsAscend(IsLeap(a.year), a.month, 12); }
    MonthStep(IsLeap(a.year), 12);
  }

  predicate Before(a: Date, b: Date) {
    a.year < b.year || (a.year == b.year && (a.month < b.month || (a.month == b.month && a.day < b.day)))
  }

  /** Day numbers order dates as the calendar does, so a day count has only one date. */
  lemma NumbersFollowCalendar(a: Date, b: Date)
    requires a.Valid() && b.Valid()
    ensures a.Number() < b.Number() <==> Before(a, b)
    ensures a.Number() == b.Number() <==> a == b
  {
    if Before(a, b) { Ascends(a, b); }
    if Before(b, a) { Ascends(b, a); }
  }

  lemma Ascends(a: Date, b: Date)
    requires a.Valid() && b.Valid() && Before(a, b)
    ensures a.Number() < b.Number()
  {
    if a.year < b.year {
      InYear(a);
      InYear(b);
      YearsAscend(a.year, b.year);
    } else if a.month < b.month {
      MonthsAscend(IsLeap(a.year), a.month, b.month);
    }
  }
}
