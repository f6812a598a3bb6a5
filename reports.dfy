/** Read-side checks over a stored schedule: the per-week completeness flag
    of the schedule view and the back-to-back validation. Stored rows are
    `Assignment` values; validation looks each row's week number up from
    the year's weeks rather than trusting the row. */
module ScheduleReports {
  import opened Records
  import opened Capacity
  import opened Generator

  // ---------------------------------------------------------------------
  // Completeness (get_schedule_view)

  /** A week is complete with two on MICU and one on each other service. */
  predicate IsComplete(asg: seq<Assignment>, wid: string)
  {
    SlotCount(asg, wid, MICU) >= 2 && SlotCount(asg, wid, AppIcu) >= 1
    && SlotCount(asg, wid, Procedures) >= 1 && SlotCount(asg, wid, Consults) >= 1
  }

  /** Complete means every service has at least its SERVICE_REQUIREMENTS
      headcount. */
  lemma CompleteMeansStaffed(asg: seq<Assignment>, wid: string)
    ensures IsComplete(asg, wid) <==> forall s :: SlotCount(asg, wid, s) >= Required(s)
  {
    if IsComplete(asg, wid) {
      forall s ensures SlotCount(asg, wid, s) >= Required(s) {
        match s
        case MICU =>
        case AppIcu =>
        case Procedures =>
        case Consults =>
      }
    } else {
      assert SlotCount(asg, wid, MICU) < Required(MICU) || SlotCount(asg, wid, AppIcu) < Required(AppIcu)
        || SlotCount(asg, wid, Procedures) < Required(Procedures) || SlotCount(asg, wid, Consults) < Required(Consults);
    }
  }

  /** complete_weeks: how many of the weeks are complete. */
  function CompleteWeeks(weeks: seq<ServiceWeek>, asg: seq<Assignment>): (n: nat)
    ensures n <= |weeks|
    ensures n == |weeks| <==> forall k :: 0 <= k < |weeks| ==> IsComplete(asg, weeks[k].id)
  {
    if weeks == [] then 0
    else
      var init := weeks[..|weeks| - 1];
      assert forall k :: 0 <= k < |init| ==> init[k] == weeks[k];
      CompleteWeeks(init, asg) + (if IsComplete(asg, weeks[|weeks| - 1].id) then 1 else 0)
  }

  /** A week of a schedule is complete exactly when the staffing report of
      that schedule has no entry for any of its services. */
  lemma CompleteIffNotReported(weeks: seq<ServiceWeek>, asg: seq<Assignment>, k: nat)
    requires k < |weeks|
    ensures IsComplete(asg, weeks[k].id) <==> forall s :: IssueAt(weeks[k], asg, s) !in StaffingIssues(weeks, asg)
  {
    CompleteMeansStaffed(asg, weeks[k].id);
    if IsComplete(asg, weeks[k].id) {
      forall s ensures IssueAt(weeks[k], asg, s) !in StaffingIssues(weeks, asg) {
        if IssueAt(weeks[k], asg, s) in StaffingIssues(weeks, asg) {
          var k' := StaffingIssueFrom(weeks, |weeks|, asg, IssueAt(weeks[k], asg, s));
          assert false;
        }
      }
    } else {
      var s :| SlotCount(asg, weeks[k].id, s) < Required(s);
      ShortSlotReported(weeks, |weeks|, asg, k, s);
    }
  }

  /** Every week is complete exactly when the staffing report is empty. */
  lemma AllCompleteIffNoIssues(weeks: seq<ServiceWeek>, asg: seq<Assignment>)
    ensures CompleteWeeks(weeks, asg) == |weeks| <==> StaffingIssues(weeks, asg) == []
  {
    if StaffingIssues(weeks, asg) != [] {
      var e := StaffingIssues(weeks, asg)[0];
      var k := StaffingIssueFrom(weeks, |weeks|, asg, e);
      CompleteIffNotReported(weeks, asg, k);
    } else {
      forall k | 0 <= k < |weeks| ensures IsComplete(asg, weeks[k].id) {
        CompleteIffNotReported(weeks, asg, k);
      }
    }
  }

  // ---------------------------------------------------------------------
  // Back-to-back validation (validate_schedule)

  /** `{w.id: w.week_number for w in weeks}.get(wid)`: a later week with
      the same id overrides an earlier one. */
  function WeekNumberOf(weeks: seq<ServiceWeek>, wid: string): (r: Option<int>)
    ensures r.None? <==> forall k :: 0 <= k < |weeks| ==> weeks[k].id != wid
    ensures r.Some? ==> exists k :: 0 <= k < |weeks| && weeks[k].id == wid && weeks[k].weekNumber == r.value
  {
    if weeks == [] then None
    else if weeks[|weeks| - 1].id == wid then Some(weeks[|weeks| - 1].weekNumber)
    else
      var init := weeks[..|weeks| - 1];
      assert forall k :: 0 <= k < |init| ==> init[k] == weeks[k];
      WeekNumberOf(init, wid)
  }

  /** With distinct week ids the lookup finds the week's own number. */
  lemma WeekNumberOfDistinct(weeks: seq<ServiceWeek>, k: nat)
    requires DistinctWeekIds(weeks) && k < |weeks|
    ensures WeekNumberOf(weeks, weeks[k].id) == Some(weeks[k].weekNumber)
  {
    var r := WeekNumberOf(weeks, weeks[k].id);
    var j :| 0 <= j < |weeks| && weeks[j].id == weeks[k].id && weeks[j].weekNumber == r.value;
    assert j == k;
  }

  /** The stored rows whose week belongs to the year (`week_id.in_(week_ids)`),
      in stored order. */
  function YearRows(weeks: seq<ServiceWeek>, stored: seq<Assignment>): (r: seq<Assignment>)
    ensures forall a :: a in r <==> a in stored && WeekNumberOf(weeks, a.weekId).Some?
    ensures (forall i :: 0 <= i < |stored| ==> WeekNumberOf(weeks, stored[i].weekId).Some?) ==> r == stored
  {
    if stored == [] then []
    else
      var init := stored[..|stored| - 1];
      var last := stored[|stored| - 1];
      assert forall i :: 0 <= i < |init| ==> init[i] == stored[i];
      assert stored == init + [last];
      YearRows(weeks, init) + (if WeekNumberOf(weeks, last.weekId).Some? then [last] else [])
  }

  /** The week number a row contributes: its looked-up number, unless the
      lookup misses or gives 0 (the truthiness test `if week_num:`). */
  function CountedWeek(weeks: seq<ServiceWeek>, a: Assignment): Option<int>
  {
    match WeekNumberOf(weeks, a.weekId)
    case Some(n) => if n != 0 then Some(n) else None
    case None => None
  }

  /** The reference meaning of `faculty_weeks[fid]`: `w` is counted for
      `fid` by some row. */
  predicate WorksWeek(weeks: seq<ServiceWeek>, rows: seq<Assignment>, fid: string, w: int)
  {
    exists i :: 0 <= i < |rows| && rows[i].facultyId == fid && CountedWeek(weeks, rows[i]) == Some(w)
  }

  predicate Increasing(s: seq<int>)
  {
    forall i, j :: 0 <= i < j < |s| ==> s[i] < s[j]
  }

  /** Adds `x` to a strictly increasing list unless it is already there. */
  function InsertSorted(x: int, s: seq<int>): (r: seq<int>)
    requires Increasing(s)
    ensures Increasing(r)
    ensures forall y :: y in r <==> y == x || y in s
  {
    if s == [] then [x]
    else if x < s[0] then [x] + s
    else if x == s[0] then s
    else
      var tail := s[1..];
      assert forall y :: y in tail ==> s[0] < y;
      var r := InsertSorted(x, tail);
      assert forall i :: 0 <= i < |r| ==> s[0] < r[i] by {
        forall i | 0 <= i < |r| ensures s[0] < r[i] {
          assert r[i] in r;
        }
      }
      [s[0]] + r
  }

  /** `sorted(faculty_weeks[fid])`: the weeks counted for `fid`, increasing
      and without repeats. */
  function SortedWeeks(weeks: seq<ServiceWeek>, rows: seq<Assignment>, fid: string): (r: seq<int>)
    ensures Increasing(r)
  {
    if rows == [] then []
    else
      var prior := SortedWeeks(weeks, rows[..|rows| - 1], fid);
      var last := rows[|rows| - 1];
      match CountedWeek(weeks, last)
      case Some(w) => if last.facultyId == fid then InsertSorted(w, prior) else prior
      case None => prior
  }

  /** SortedWeeks holds exactly the weeks counted for `fid`. */
  lemma {:induction false} SortedWeeksExact(weeks: seq<ServiceWeek>, rows: seq<Assignment>, fid: string)
    ensures forall w :: w in SortedWeeks(weeks, rows, fid) <==> WorksWeek(weeks, rows, fid, w)
  {
    if rows != [] {
      var init := rows[..|rows| - 1];
      var last := rows[|rows| - 1];
      SortedWeeksExact(weeks, init, fid);
      assert forall i :: 0 <= i < |init| ==> init[i] == rows[i];
      forall w ensures w in SortedWeeks(weeks, rows, fid) <==> WorksWeek(weeks, rows, fid, w) {
        if WorksWeek(weeks, rows, fid, w) {
          var i :| 0 <= i < |rows| && rows[i].facultyId == fid && CountedWeek(weeks, rows[i]) == Some(w);
          if i < |init| {
            assert WorksWeek(weeks, init, fid, w);
          }
        }
        if WorksWeek(weeks, init, fid, w) {
          var i :| 0 <= i < |init| && init[i].facultyId == fid && CountedWeek(weeks, init[i]) == Some(w);
          assert rows[i] == init[i];
        }
        if last.facultyId == fid && CountedWeek(weeks, last) == Some(w) {
          assert rows[|rows| - 1] == last;
        }
      }
    }
  }

  /** `faculty_weeks` keys in insertion order: each faculty member once, at
      the first row that counts a week for them. */
  function FacultyOrder(weeks: seq<ServiceWeek>, rows: seq<Assignment>): (r: seq<string>)
    ensures forall i, j :: 0 <= i < j < |r| ==> r[i] != r[j]
    ensures forall fid :: fid in r <==> SortedWeeks(weeks, rows, fid) != []
  {
    if rows == [] then []
    else
      var init := rows[..|rows| - 1];
      var last := rows[|rows| - 1];
      var prior := FacultyOrder(weeks, init);
      if CountedWeek(weeks, last).Some? && last.facultyId !in prior then prior + [last.facultyId] else prior
  }

  datatype Violation = Violation(facultyId: string, week1: int, week2: int)

  /** The loop over consecutive pairs of one member's sorted weeks: a
      violation for each pair one week apart. */
  function AdjacentPairs(fid: string, ws: seq<int>): seq<Violation>
  {
    if |ws| < 2 then []
    else
      AdjacentPairs(fid, ws[..|ws| - 1])
        + (if ws[|ws| - 1] - ws[|ws| - 2] == 1 then [Violation(fid, ws[|ws| - 2], ws[|ws| - 1])] else [])
  }

  /** In an increasing list, the pairs reported are exactly the values `w`
      and `w + 1` that both occur. */
  lemma {:induction false} AdjacentPairsExact(fid: string, ws: seq<int>)
    requires Increasing(ws)
    ensures forall v :: (v in AdjacentPairs(fid, ws) <==>
      v.facultyId == fid && v.week2 == v.week1 + 1 && v.week1 in ws && v.week2 in ws)
  {
    if |ws| >= 2 {
      var n := |ws|;
      var init := ws[..n - 1];
      assert forall i :: 0 <= i < |init| ==> init[i] == ws[i];
      AdjacentPairsExact(fid, init);
      forall v ensures (v in AdjacentPairs(fid, ws) <==>
        v.facultyId == fid && v.week2 == v.week1 + 1 && v.week1 in ws && v.week2 in ws)
      {
        if v.facultyId == fid && v.week2 == v.week1 + 1 && v.week1 in ws && v.week2 in ws {
          var i :| 0 <= i < n && ws[i] == v.week1;
          var j :| 0 <= j < n && ws[j] == v.week2;
          if j == n - 1 {
            assert ws[n - 2] < ws[n - 1];
            if i < n - 2 {
              assert false;
            }
          } else {
            assert i < j;
            assert init[i] == v.week1 && init[j] == v.week2;
          }
        }
      }
    }
  }

  /** The violations of the members in `order`, member by member. */
  function ViolationsOf(weeks: seq<ServiceWeek>, rows: seq<Assignment>, order: seq<string>): seq<Violation>
  {
    if order == [] then []
    else
      var fid := order[|order| - 1];
      ViolationsOf(weeks, rows, order[..|order| - 1]) + AdjacentPairs(fid, SortedWeeks(weeks, rows, fid))
  }

  lemma {:induction false} ViolationsOfExact(weeks: seq<ServiceWeek>, rows: seq<Assignment>, order: seq<string>)
    ensures forall v :: (v in ViolationsOf(weeks, rows, order) <==>
      v.facultyId in order && v in AdjacentPairs(v.facultyId, SortedWeeks(weeks, rows, v.facultyId)))
  {
    if order != [] {
      var fid := order[|order| - 1];
      var init := order[..|order| - 1];
      ViolationsOfExact(weeks, rows, init);
      assert order == init + [fid];
      AdjacentPairsExact(fid, SortedWeeks(weeks, rows, fid));
    }
  }

  datatype ValidationReport = ValidationReport(
    year: int,
    totalAssignments: nat,
    violations: seq<Violation>,
    violationCount: nat,
    isValid: bool)

  /** validate_schedule over the stored rows and the year's weeks. */
  function ValidateSchedule(weeks: seq<ServiceWeek>, stored: seq<Assignment>, year: int): ValidationReport
  {
    var rows := YearRows(weeks, stored);
    var violations := ViolationsOf(weeks, rows, FacultyOrder(weeks, rows));
    ValidationReport(year, |rows|, violations, |violations|, |violations| == 0)
  }

  /** One violation is reported exactly when its member is counted for
      both of its weeks and the second follows the first. */
  lemma ViolationExact(weeks: seq<ServiceWeek>, rows: seq<Assignment>, v: Violation)
    ensures v in ViolationsOf(weeks, rows, FacultyOrder(weeks, rows)) <==>
      (v.week2 == v.week1 + 1
       && WorksWeek(weeks, rows, v.facultyId, v.week1) && WorksWeek(weeks, rows, v.facultyId, v.week2))
  {
    var ws := SortedWeeks(weeks, rows, v.facultyId);
    ViolationsOfExact(weeks, rows, FacultyOrder(weeks, rows));
    SortedWeeksExact(weeks, rows, v.facultyId);
    AdjacentPairsExact(v.facultyId, ws);
    assert v.week1 in ws ==> ws != [];
  }

  /** The report lists exactly the pairs of weeks `w`, `w + 1` some member
      is counted for, counts them, and is valid exactly when there are none. */
  lemma ValidationExact(weeks: seq<ServiceWeek>, stored: seq<Assignment>, year: int)
    ensures forall v :: (v in ValidateSchedule(weeks, stored, year).violations <==>
      v.week2 == v.week1 + 1
      && WorksWeek(weeks, YearRows(weeks, stored), v.facultyId, v.week1)
      && WorksWeek(weeks, YearRows(weeks, stored), v.facultyId, v.week2))
    ensures ValidateSchedule(weeks, stored, year).violationCount == |ValidateSchedule(weeks, stored, year).violations|
    ensures ValidateSchedule(weeks, stored, year).isValid <==>
      forall fid, w :: !(WorksWeek(weeks, YearRows(weeks, stored), fid, w)
                         && WorksWeek(weeks, YearRows(weeks, stored), fid, w + 1))
  {
    var rows := YearRows(weeks, stored);
    var r := ValidateSchedule(weeks, stored, year);
    forall v ensures (v in r.violations <==>
      v.week2 == v.week1 + 1
      && WorksWeek(weeks, rows, v.facultyId, v.week1) && WorksWeek(weeks, rows, v.facultyId, v.week2))
    {
      ViolationExact(weeks, rows, v);
    }
    if r.isValid {
      forall fid, w ensures !(WorksWeek(weeks, rows, fid, w) && WorksWeek(weeks, rows, fid, w + 1)) {
        ViolationExact(weeks, rows, Violation(fid, w, w + 1));
      }
    } else {
      var v := r.violations[0];
      assert v in r.violations;
    }
  }

  /** Rows placed in the weeks, with distinct week ids, look up their own
      week number. */
  lemma PlacedRowsLookUp(weeks: seq<ServiceWeek>, asg: seq<Assignment>)
    requires DistinctWeekIds(weeks)
    requires forall i :: 0 <= i < |asg| ==> InWeeks(weeks, |weeks|, asg[i])
    ensures forall i :: 0 <= i < |asg| ==> WeekNumberOf(weeks, asg[i].weekId) == Some(asg[i].weekNumber)
  {
    forall i | 0 <= i < |asg| ensures WeekNumberOf(weeks, asg[i].weekId) == Some(asg[i].weekNumber) {
      assert InWeeks(weeks, |weeks|, asg[i]);
      var k :| 0 <= k < |weeks| && weeks[k].id == asg[i].weekId && weeks[k].weekNumber == asg[i].weekNumber;
      WeekNumberOfDistinct(weeks, k);
    }
  }

  /** Rows that carry their looked-up week numbers and keep members out of
      adjacent weeks never count a member for both `w` and `w + 1`. */
  lemma SpacedRowsNoPair(weeks: seq<ServiceWeek>, asg: seq<Assignment>)
    requires NoBackToBack(asg)
    requires forall i :: 0 <= i < |asg| ==> WeekNumberOf(weeks, asg[i].weekId) == Some(asg[i].weekNumber)
    ensures forall fid, w :: !(WorksWeek(weeks, asg, fid, w) && WorksWeek(weeks, asg, fid, w + 1))
  {
    forall fid, w | WorksWeek(weeks, asg, fid, w) ensures !WorksWeek(weeks, asg, fid, w + 1) {
      var i :| 0 <= i < |asg| && asg[i].facultyId == fid && CountedWeek(weeks, asg[i]) == Some(w);
      forall j | 0 <= j < |asg| && asg[j].facultyId == fid ensures CountedWeek(weeks, asg[j]) != Some(w + 1) {
        if i < j {
          assert Apart(asg[i].weekNumber, asg[j].weekNumber);
        } else if j < i {
          assert Apart(asg[j].weekNumber, asg[i].weekNumber);
        }
      }
    }
  }

  /** A schedule as the generator produces it (every row in one of the
      weeks with that week's number, no member in adjacent weeks) passes
      validation, with every row counted. */
  lemma GeneratedScheduleValidates(weeks: seq<ServiceWeek>, asg: seq<Assignment>, year: int)
    requires DistinctWeekIds(weeks) && NoBackToBack(asg)
    requires forall i :: 0 <= i < |asg| ==> InWeeks(weeks, |weeks|, asg[i])
    ensures ValidateSchedule(weeks, asg, year).isValid
    ensures ValidateSchedule(weeks, asg, year).totalAssignments == |asg|
  {
    PlacedRowsLookUp(weeks, asg);
    assert YearRows(weeks, asg) == asg;
    ValidationExact(weeks, asg, year);
    SpacedRowsNoPair(weeks, asg);
  }
}
