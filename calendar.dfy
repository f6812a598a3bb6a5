/** Construction of a year's 52 service weeks: consecutive seven-day weeks
    from a start date, each with an id "W{nn}-{year}", a week type and point
    values decided by the season and the holidays. Dates are day ordinals;
    the month of a date and the "%b %d" rendering of a date are given by the
    caller. */
module WeekCalendar {
  import opened Text
  import opened Records
  import opened Generator

  const WEEKS_PER_YEAR: nat := 52
  const MIN_STAFF: int := 5

  /** The optional holiday dates an administrator gives. */
  datatype Holidays = Holidays(springBreak: Option<int>, thanksgiving: Option<int>, christmas: Option<int>)

  /** A week's type with the points it costs to take off and earns to work. */
  datatype WeekClass = WeekClass(weekType: WeekType, pointCostOff: int, pointRewardWork: int)

  function Dist(a: int, b: int): nat { if a < b then b - a else a - b }

  /** Within six days of a given holiday. */
  predicate NearDay(date: int, day: Option<int>)
  {
    day.Some? && Dist(date, day.value) < 7
  }

  /** On Christmas or in the fourteen days after it. */
  predicate InChristmas(date: int, christmas: Option<int>)
  {
    christmas.Some? && christmas.value <= date <= christmas.value + 14
  }

  predicate SummerMonth(month: int)
  {
    month == 6 || month == 7 || month == 8
  }

  /** The classification by precedence: Christmas over Thanksgiving over
      spring break over summer over a regular week. */
  function ClassOf(date: int, month: int, h: Holidays): WeekClass
  {
    if InChristmas(date, h.christmas) then WeekClass(Christmas, 15, 20)
    else if NearDay(date, h.thanksgiving) then WeekClass(Thanksgiving, 15, 20)
    else if NearDay(date, h.springBreak) then WeekClass(SpringBreak, 12, 15)
    else if SummerMonth(month) then WeekClass(Summer, 7, 5)
    else WeekClass(Regular, 5, 0)
  }

  /** The loop body's classification: start regular, then let each rule
      that applies overwrite the values, the later rules last. */
  method Classify(date: int, month: int, h: Holidays) returns (c: WeekClass)
    ensures c == ClassOf(date, month, h)
  {
    c := WeekClass(Regular, 5, 0);
    if SummerMonth(month) {
      c := WeekClass(Summer, 7, 5);
    }
    if NearDay(date, h.springBreak) {
      c := WeekClass(SpringBreak, 12, 15);
    }
    if NearDay(date, h.thanksgiving) {
      c := WeekClass(Thanksgiving, 15, 20);
    }
    if h.christmas.Some? {
      var christmasEnd := h.christmas.value + 14;
      if h.christmas.value <= date <= christmasEnd {
        c := WeekClass(Christmas, 15, 20);
      }
    }
  }

  /** `f"W{n:02d}-{year}"`. */
  function WeekId(n: nat, year: int): string
  {
    ("W" + Pad2(n)) + ("-" + IntToDecimal(year))
  }

  /** Every id of a year's week ends in "-{year}", the suffix the schedule
      generator selects requests by. */
  lemma WeekIdEndsWithYear(n: nat, year: int)
    ensures EndsWith(WeekId(n, year), "-" + IntToDecimal(year))
  {
    EndsWithAppended("W" + Pad2(n), "-" + IntToDecimal(year));
  }

  /** Week numbers 1 to 99 give different ids within a year. */
  lemma WeekIdInjective(a: nat, b: nat, year: int)
    requires 1 <= a < 100 && 1 <= b < 100
    requires WeekId(a, year) == WeekId(b, year)
    ensures a == b
  {
    var ia, ib := WeekId(a, year), WeekId(b, year);
    assert ia[1] == Pad2(a)[0] && ia[2] == Pad2(a)[1];
    assert ib[1] == Pad2(b)[0] && ib[2] == Pad2(b)[1];
    assert Pad2(a) == [ia[1], ia[2]] && Pad2(b) == [ib[1], ib[2]];
    Pad2Injective(a, b);
  }

  /** Week `n`, starting on `date`. */
  function WeekOn(year: int, n: nat, date: int, h: Holidays, monthOf: int -> int,
                  dayLabel: int -> string): ServiceWeek
  {
    WeekRecord(year, n, date, ClassOf(date, monthOf(date), h), dayLabel)
  }

  /** The row stored for week `n` starting on `date` with class `c`: seven
      days long, five staff required. */
  function WeekRecord(year: int, n: nat, date: int, c: WeekClass, dayLabel: int -> string): ServiceWeek
  {
    ServiceWeek(WeekId(n, year), n, "Week " + NatToDecimal(n) + " (" + dayLabel(date) + ")",
                date, date + 6, year, c.weekType, c.pointCostOff, c.pointRewardWork, MIN_STAFF)
  }

  /** Week `n` of the calendar that starts on `start`. */
  function WeekAt(year: int, start: int, n: nat, h: Holidays, monthOf: int -> int,
                  dayLabel: int -> string): ServiceWeek
  {
    WeekOn(year, n, start + 7 * (n - 1), h, monthOf, dayLabel)
  }

  /** One pass of the loop: week `weekNum`, starting on `current`,
      classified by the overriding rules. */
  method BuildWeek(year: int, start: int, weekNum: nat, current: int, h: Holidays,
                   monthOf: int -> int, dayLabel: int -> string)
    returns (week: ServiceWeek)
    requires current == start + 7 * (weekNum - 1)
    ensures week == WeekAt(year, start, weekNum, h, monthOf, dayLabel)
  {
    var c := Classify(current, monthOf(current), h);
    week := WeekRecord(year, weekNum, current, c, dayLabel);
  }

  /** The first `n` weeks of the calendar that starts on `start`. */
  function Calendar(year: int, start: int, n: nat, h: Holidays, monthOf: int -> int,
                    dayLabel: int -> string): seq<ServiceWeek>
  {
    if n == 0 then [] else Calendar(year, start, n - 1, h, monthOf, dayLabel) + [WeekAt(year, start, n, h, monthOf, dayLabel)]
  }

  lemma {:induction false} CalendarLength(year: int, start: int, n: nat, h: Holidays, monthOf: int -> int,
                                          dayLabel: int -> string)
    ensures |Calendar(year, start, n, h, monthOf, dayLabel)| == n
  {
    if n > 0 {
      CalendarLength(year, start, n - 1, h, monthOf, dayLabel);
    }
  }

  /** Week `k + 1` of the calendar sits at position `k`. */
  lemma {:induction false} CalendarAt(year: int, start: int, n: nat, k: nat, h: Holidays,
                                      monthOf: int -> int, dayLabel: int -> string)
    requires k < n
    ensures |Calendar(year, start, n, h, monthOf, dayLabel)| == n
    ensures Calendar(year, start, n, h, monthOf, dayLabel)[k] == WeekAt(year, start, k + 1, h, monthOf, dayLabel)
  {
    var prev := Calendar(year, start, n - 1, h, monthOf, dayLabel);
    CalendarLength(year, start, n - 1, h, monthOf, dayLabel);
    assert Calendar(year, start, n, h, monthOf, dayLabel) == prev + [WeekAt(year, start, n, h, monthOf, dayLabel)];
    if k < n - 1 {
      CalendarAt(year, start, n - 1, k, h, monthOf, dayLabel);
    }
  }

  datatype CalendarResult =
    | AlreadyExists(year: int)
    | Created(weeks: seq<ServiceWeek>, weeksCreated: nat, year: int, startDate: int, endDate: int)

  predicate YearExists(existing: seq<ServiceWeek>, year: int)
  {
    exists i :: 0 <= i < |existing| && existing[i].year == year
  }

  /** generate_service_weeks: refused when the year already has weeks;
      otherwise week `n` (1 to 52) is WeekAt(n), and the reported end date
      is the last day of week 52. */
  method GenerateServiceWeeks(year: int, start: int, h: Holidays, existing: seq<ServiceWeek>,
                              monthOf: int -> int, dayLabel: int -> string)
    returns (res: CalendarResult)
    ensures res.AlreadyExists? <==> YearExists(existing, year)
    ensures res.AlreadyExists? ==> res.year == year
    ensures res.Created? ==>
      && |res.weeks| == WEEKS_PER_YEAR && res.weeksCreated == WEEKS_PER_YEAR
      && res.year == year && res.startDate == start
      && res.endDate == start + 7 * (WEEKS_PER_YEAR - 1) + 6
      && forall k :: 0 <= k < |res.weeks| ==> res.weeks[k] == WeekAt(year, start, k + 1, h, monthOf, dayLabel)
  {
    if exists i :: 0 <= i < |existing| && existing[i].year == year {
      return AlreadyExists(year);
    }
    var created: seq<ServiceWeek> := [];
    var current := start;
    for weekNum := 1 to WEEKS_PER_YEAR + 1
      invariant current == start + 7 * (weekNum - 1)
      invariant created == Calendar(year, start, weekNum - 1, h, monthOf, dayLabel)
    {
      var week := BuildWeek(year, start, weekNum, current, h, monthOf, dayLabel);
      created := created + [week];
      current := current + 7;
    }
    CalendarLength(year, start, WEEKS_PER_YEAR, h, monthOf, dayLabel);
    forall k | 0 <= k < |created|
      ensures created[k] == WeekAt(year, start, k + 1, h, monthOf, dayLabel)
    {
      CalendarAt(year, start, WEEKS_PER_YEAR, k, h, monthOf, dayLabel);
    }
    res := Created(created, |created|, year, start, created[|created| - 1].endDate);
  }

  /** The weeks of a created calendar: numbered 1 to 52 under distinct ids
      that all end in "-{year}", consecutive and non-overlapping, each seven
      days long, with five staff required; consecutive week numbers are
      exactly calendar weeks seven days apart. */
  lemma CalendarShape(year: int, start: int, h: Holidays, monthOf: int -> int, dayLabel: int -> string,
                      weeks: seq<ServiceWeek>)
    requires |weeks| == WEEKS_PER_YEAR
    requires forall k :: 0 <= k < |weeks| ==> weeks[k] == WeekAt(year, start, k + 1, h, monthOf, dayLabel)
    ensures DistinctWeekIds(weeks)
    ensures forall k :: 0 <= k < |weeks| ==>
      && weeks[k].weekNumber == k + 1
      && EndsWith(weeks[k].id, "-" + IntToDecimal(year))
      && weeks[k].year == year
      && weeks[k].endDate == weeks[k].startDate + 6
      && weeks[k].minStaffRequired == MIN_STAFF
    ensures forall k :: 0 <= k < |weeks| - 1 ==> weeks[k + 1].startDate == weeks[k].endDate + 1
    ensures forall i, j :: (0 <= i < |weeks| && 0 <= j < |weeks| ==>
      (weeks[i].weekNumber + 1 == weeks[j].weekNumber <==> weeks[j].startDate == weeks[i].startDate + 7))
  {
    forall k | 0 <= k < |weeks| ensures EndsWith(weeks[k].id, "-" + IntToDecimal(year)) {
      WeekIdEndsWithYear(k + 1, year);
    }
    forall i, j | 0 <= i < j < |weeks| ensures weeks[i].id != weeks[j].id {
      if weeks[i].id == weeks[j].id {
        WeekIdInjective(i + 1, j + 1, year);
      }
    }
  }
}
