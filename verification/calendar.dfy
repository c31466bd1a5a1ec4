/** Proleptic Gregorian calendar dates as Python's `datetime.date` keeps
    them: years 1..9999, month lengths with leap years, ordering, and
    stepping one day forward or back (`+ timedelta(days=1)`). */
module Calendar {
  import opened Results

  datatype Date = Date(year: int, month: int, day: int)

  const MinYear := 1
  const MaxYear := 9999

  /** `date.min` and `date.max`: stepping past either raises OverflowError. */
  const FirstDate := Date(MinYear, 1, 1)
  const LastDate := Date(MaxYear, 12, 31)

  predicate IsLeapYear(y: int) {
    y % 4 == 0 && (y % 100 != 0 || y % 400 == 0)
  }

  function DaysInMonth(y: int, m: int): (n: int)
    requires 1 <= m <= 12
    ensures 28 <= n <= 31
    ensures n == 29 <==> m == 2 && IsLeapYear(y)
  {
    if m == 2 then (if IsLeapYear(y) then 29 else 28)
    else if m == 4 || m == 6 || m == 9 || m == 11 then 30
    else 31
  }

  /** A date Python can represent. */
  predicate Valid(d: Date) {
    && MinYear <= d.year <= MaxYear
    && 1 <= d.month <= 12
    && 1 <= d.day <= DaysInMonth(d.year, d.month)
  }

  /** Python's `<` on dates: lexicographic on (year, month, day). */
  predicate Before(a: Date, b: Date) {
    || a.year < b.year
    || (a.year == b.year && a.month < b.month)
    || (a.year == b.year && a.month == b.month && a.day < b.day)
  }

  /** Python's `<=` on dates. */
  predicate NotAfter(a: Date, b: Date) {
    !Before(b, a)
  }

  lemma BeforeTransitive(a: Date, b: Date, c: Date)
    requires Before(a, b) && Before(b, c)
    ensures Before(a, c)
  {
  }

  /** A numeric key that grows with the calendar order; used as a
      termination measure, it is not a day count. */
  function Rank(d: Date): int {
    d.year * 416 + d.month * 32 + d.day
  }

  lemma RankMonotone(a: Date, b: Date)
    requires Valid(a) && Valid(b) && Before(a, b)
    ensures Rank(a) < Rank(b)
  {
  }

  /** `d + timedelta(days=1)`; the caller handles `LastDate`, where Python
      raises OverflowError. */
  function NextDay(d: Date): (r: Date)
    requires Valid(d) && d != LastDate
    ensures Valid(r) && Before(d, r)
    ensures forall e :: Valid(e) && Before(d, e) ==> NotAfter(r, e)
  {
    if d.day < DaysInMonth(d.year, d.month) then Date(d.year, d.month, d.day + 1)
    else if d.month < 12 then Date(d.year, d.month + 1, 1)
    else Date(d.year + 1, 1, 1)
  }

  /** `d - timedelta(days=1)`; the caller handles `FirstDate`. */
  function PrevDay(d: Date): (r: Date)
    requires Valid(d) && d != FirstDate
    ensures Valid(r) && r != LastDate && NextDay(r) == d
  {
    if d.day > 1 then Date(d.year, d.month, d.day - 1)
    else if d.month > 1 then Date(d.year, d.month - 1, DaysInMonth(d.year, d.month - 1))
    else Date(d.year - 1, 12, 31)
  }

  lemma PrevOfNext(d: Date)
    requires Valid(d) && d != LastDate
    ensures NextDay(d) != FirstDate && PrevDay(NextDay(d)) == d
  {
  }

  /** The valid date strictly after `d` are exactly those not before NextDay(d). */
  lemma NoDateBetween(d: Date, e: Date)
    requires Valid(d) && d != LastDate && Valid(e)
    ensures Before(d, e) <==> NotAfter(NextDay(d), e)
  {
  }

  /** Every valid date is on or before `LastDate`. */
  lemma LastDateIsLast(d: Date)
    requires Valid(d)
    ensures NotAfter(d, LastDate)
  {
  }

  /** The dates `first, first + 1 day, ..., last`, the days a
      `while first <= last: ...; first += timedelta(days=1)` loop visits
      (empty when `first > last`). */
  function DayRange(first: Date, last: Date): (r: seq<Date>)
    requires Valid(first) && Valid(last)
    ensures |r| == 0 <==> Before(last, first)
    ensures |r| > 0 ==> r[0] == first && r[|r| - 1] == last
    ensures forall i :: 0 <= i < |r| ==> Valid(r[i]) && NotAfter(first, r[i]) && NotAfter(r[i], last)
    ensures forall i :: 0 <= i < |r| - 1 ==> r[i] != LastDate && r[i + 1] == NextDay(r[i])
    decreases Rank(last) - Rank(first)
  {
    if Before(last, first) then []
    else if first == last then [first]
    else
      var next := NextDay(first);
      RankMonotone(first, next);
      [first] + DayRange(next, last)
  }

  /** The enumeration is strictly ascending, so it visits no date twice. */
  lemma {:induction false} DayRangeAscending(first: Date, last: Date)
    requires Valid(first) && Valid(last)
    ensures forall i, j :: 0 <= i < j < |DayRange(first, last)| ==>
              Before(DayRange(first, last)[i], DayRange(first, last)[j])
    decreases Rank(last) - Rank(first)
  {
    var r := DayRange(first, last);
    if |r| > 1 {
      var next := NextDay(first);
      RankMonotone(first, next);
      DayRangeAscending(next, last);
      assert r[1..] == DayRange(next, last);
      forall i, j | 0 <= i < j < |r|
        ensures Before(r[i], r[j])
      {
        if i > 0 {
          assert r[i] == r[1..][i - 1] && r[j] == r[1..][j - 1];
        } else {
          assert Before(first, r[1]);
          if j > 1 {
            assert r[1] == r[1..][0] && r[j] == r[1..][j - 1];
            BeforeTransitive(first, r[1], r[j]);
          }
        }
      }
    }
  }

  /** The enumeration misses no date of the range. */
  lemma {:induction false} DayRangeComplete(first: Date, last: Date, d: Date)
    requires Valid(first) && Valid(last) && Valid(d)
    requires NotAfter(first, d) && NotAfter(d, last)
    ensures d in DayRange(first, last)
    decreases Rank(last) - Rank(first)
  {
    if d != first {
      var next := NextDay(first);
      RankMonotone(first, next);
      NoDateBetween(first, d);
      DayRangeComplete(next, last, d);
      assert DayRange(first, last) == [first] + DayRange(next, last);
    }
  }

  /** Membership in the enumeration is exactly the inclusive range test. */
  lemma DayRangeMembership(first: Date, last: Date, d: Date)
    requires Valid(first) && Valid(last)
    ensures d in DayRange(first, last) <==> Valid(d) && NotAfter(first, d) && NotAfter(d, last)
  {
    if Valid(d) && NotAfter(first, d) && NotAfter(d, last) {
      DayRangeComplete(first, last, d);
    }
  }

  /** One step of the enumeration: the first date, then the rest from the
      next day on. */
  lemma DayRangeCons(first: Date, last: Date)
    requires Valid(first) && Valid(last) && NotAfter(first, last) && first != LastDate
    ensures DayRange(first, last) == [first] + DayRange(NextDay(first), last)
  {
    if first == last {
      assert Before(last, NextDay(first));
    }
  }

  /** Strictly ascending dates. */
  predicate Ascending(ds: seq<Date>) {
    forall i, j :: 0 <= i < j < |ds| ==> Before(ds[i], ds[j])
  }

  /** The dates of `days` that `keep` accepts, in their order: the groups a
      `group by` over a date range produces. */
  function Select(days: seq<Date>, keep: Date -> bool): seq<Date> {
    if |days| == 0 then []
    else (if keep(days[0]) then [days[0]] else []) + Select(days[1..], keep)
  }

  lemma {:induction false} SelectMembers(days: seq<Date>, keep: Date -> bool, d: Date)
    ensures d in Select(days, keep) <==> d in days && keep(d)
  {
    if |days| > 0 {
      SelectMembers(days[1..], keep, d);
      assert days == [days[0]] + days[1..];
    }
  }

  lemma {:induction false} SelectAscending(days: seq<Date>, keep: Date -> bool)
    requires Ascending(days)
    ensures Ascending(Select(days, keep))
  {
    if |days| > 0 {
      var tail := days[1..];
      assert Ascending(tail) by {
        forall i, j | 0 <= i < j < |tail|
          ensures Before(tail[i], tail[j])
        {
          assert tail[i] == days[i + 1] && tail[j] == days[j + 1];
        }
      }
      SelectAscending(tail, keep);
      var rest := Select(tail, keep);
      if keep(days[0]) {
        var all := [days[0]] + rest;
        forall i, j | 0 <= i < j < |all|
          ensures Before(all[i], all[j])
        {
          if i == 0 {
            SelectMembers(tail, keep, all[j]);
            assert all[j] == rest[j - 1];
            var m :| 0 <= m < |tail| && tail[m] == all[j];
            assert days[m + 1] == all[j];
          } else {
            assert all[i] == rest[i - 1] && all[j] == rest[j - 1];
          }
        }
      }
    }
  }

  /** Iterating NextDay `n` times, None once it would pass `LastDate`. */
  function DaysAfter(d: Date, n: nat): (r: Option<Date>)
    requires Valid(d)
    ensures r.Some? ==> Valid(r.value)
    decreases n
  {
    if n == 0 then Some(d)
    else if d == LastDate then None
    else DaysAfter(NextDay(d), n - 1)
  }

  function YearLength(y: int): int {
    if IsLeapYear(y) then 366 else 365
  }

  /** Days in the years before `y`. */
  function DaysBeforeYear(y: int): nat
    requires y >= MinYear
    decreases y
  {
    if y == MinYear then 0 else DaysBeforeYear(y - 1) + YearLength(y - 1)
  }

  /** Days in the months of year `y` before month `m`. */
  function DaysBeforeMonth(y: int, m: int): nat
    requires 1 <= m <= 12
    decreases m
  {
    if m == 1 then 0 else DaysBeforeMonth(y, m - 1) + DaysInMonth(y, m - 1)
  }

  /** The number of days from `FirstDate` to `d`: `d.toordinal() - 1`. */
  function Ordinal(d: Date): nat
    requires Valid(d)
  {
    DaysBeforeYear(d.year) + DaysBeforeMonth(d.year, d.month) + d.day - 1
  }

  lemma MonthsFillYear(y: int)
    ensures DaysBeforeMonth(y, 12) + DaysInMonth(y, 12) == YearLength(y)
  {
    assert DaysBeforeMonth(y, 3) == 31 + DaysInMonth(y, 2);
    assert DaysBeforeMonth(y, 6) == DaysBeforeMonth(y, 3) + 92;
    assert DaysBeforeMonth(y, 9) == DaysBeforeMonth(y, 6) + 92;
    assert DaysBeforeMonth(y, 12) == DaysBeforeMonth(y, 9) + 91;
  }

  /** Only the first date has day number 0. */
  lemma OrdinalZero(d: Date)
    requires Valid(d)
    ensures Ordinal(d) == 0 <==> d == FirstDate
  {
    if d.month > 1 {
      assert DaysBeforeMonth(d.year, d.month) >= DaysInMonth(d.year, d.month - 1);
    }
  }

  lemma OrdinalOfPrevInMonth(d: Date)
    requires Valid(d) && d.day > 1
    ensures Ordinal(PrevDay(d)) + 1 == Ordinal(d)
  {
  }

  lemma OrdinalOfMonthStart(d: Date)
    requires Valid(d) && d.day == 1 && d.month > 1
    ensures Ordinal(PrevDay(d)) + 1 == Ordinal(d)
  {
    var m := d.month;
    assert PrevDay(d) == Date(d.year, m - 1, DaysInMonth(d.year, m - 1));
    assert DaysBeforeMonth(d.year, m) == DaysBeforeMonth(d.year, m - 1) + DaysInMonth(d.year, m - 1);
  }

  lemma OrdinalOfYearStart(d: Date)
    requires Valid(d) && d.day == 1 && d.month == 1 && d.year > MinYear
    ensures Ordinal(PrevDay(d)) + 1 == Ordinal(d)
  {
    var y := d.year - 1;
    assert PrevDay(d) == Date(y, 12, 31);
    MonthsFillYear(y);
    assert Ordinal(Date(y, 12, 31)) == DaysBeforeYear(y) + DaysBeforeMonth(y, 12) + 30;
    assert DaysBeforeYear(d.year) == DaysBeforeYear(y) + YearLength(y);
  }

  /** Stepping back one day lowers the day number by one. */
  lemma OrdinalOfPrev(d: Date)
    requires Valid(d) && d != FirstDate
    ensures Ordinal(PrevDay(d)) + 1 == Ordinal(d)
  {
    if d.day > 1 {
      OrdinalOfPrevInMonth(d);
    } else if d.month > 1 {
      OrdinalOfMonthStart(d);
    } else {
      OrdinalOfYearStart(d);
    }
  }

  /** `d - timedelta(days=n)`, None where Python raises OverflowError: it is
      defined exactly when `d` is at least n days after `FirstDate`, and it
      is the date whose day number is n less. */
  function DaysBefore(d: Date, n: nat): (r: Option<Date>)
    requires Valid(d)
    ensures r.Some? <==> n <= Ordinal(d)
    ensures r.Some? ==> Valid(r.value) && Ordinal(r.value) == Ordinal(d) - n
    ensures r.Some? ==> DaysAfter(r.value, n) == Some(d)
    decreases n
  {
    if n == 0 then Some(d)
    else
      match DaysBefore(d, n - 1)
      case None => None
      case Some(later) =>
        OrdinalZero(later);
        if later == FirstDate then None
        else
          OrdinalOfPrev(later);
          Some(PrevDay(later))
  }

  /** The date n days back is the one from which n days forward reach `d`. */
  lemma {:induction false} DaysBeforeExact(d: Date, n: nat, e: Date)
    requires Valid(d) && Valid(e) && DaysAfter(e, n) == Some(d)
    ensures DaysBefore(d, n) == Some(e)
    decreases n
  {
    if n > 0 {
      DaysBeforeExact(d, n - 1, NextDay(e));
      PrevOfNext(e);
    }
  }
}
