/** The inpatient service schedule generator: a greedy, priority-driven pass
    over the weeks in order and, within each week, over the services in the
    fixed order MICU, APP-ICU, Procedures, Consults. Database reads become
    parameters and the result is returned instead of being stored. */
module Generator {
  import opened Text
  import opened Records
  import opened Capacity
  import opened Ranking

  /** An active faculty member with the per-service annual week columns
      (a missing column reads as 0). */
  datatype FacultyProfile = FacultyProfile(
    id: string,
    name: string,
    micuWeeks: Option<int>,
    appIcuWeeks: Option<int>,
    procedureWeeks: Option<int>,
    consultWeeks: Option<int>)

  function TargetOf(f: FacultyProfile, s: Service): int
  {
    match s
    case MICU => f.micuWeeks.GetOr(0)
    case AppIcu => f.appIcuWeeks.GetOr(0)
    case Procedures => f.procedureWeeks.GetOr(0)
    case Consults => f.consultWeeks.GetOr(0)
  }

  /** ScheduleAssignment; the week number is carried along with the week id. */
  datatype Assignment = Assignment(facultyId: string, weekId: string, weekNumber: int, service: Service)

  /** An "understaffed" entry: a slot filled below its requirement. */
  datatype StaffingIssue = StaffingIssue(week: int, weekLabel: string, service: Service, required: nat, staffed: nat)

  /** A faculty member whose final count is more than one week off target. */
  datatype CapacityIssue = CapacityIssue(
    facultyId: string, facultyName: string, service: Service, target: int, count: int, variance: int)

  /** Assignments made per service. */
  datatype Summary = Summary(micu: nat, appIcu: nat, procedures: nat, consults: nat)

  datatype Outcome =
    | NoWeeks(year: int)
    | Generated(
        year: int,
        totalWeeks: nat,
        assignments: seq<Assignment>,
        staffingIssues: seq<StaffingIssue>,
        capacityIssues: seq<CapacityIssue>,
        summary: Summary)

  /** `assignments_created` of the result. */
  function AssignmentsCreated(out: Outcome): nat
  {
    match out
    case NoWeeks(_) => 0
    case Generated(_, _, asg, _, _, _) => |asg|
  }

  predicate DistinctIds(roster: seq<FacultyProfile>)
  {
    forall i, j :: 0 <= i < j < |roster| ==> roster[i].id != roster[j].id
  }

  predicate DistinctWeekIds(weeks: seq<ServiceWeek>)
  {
    forall i, j :: 0 <= i < j < |weeks| ==> weeks[i].id != weeks[j].id
  }

  // ---------------------------------------------------------------------
  // Tallies over an assignment list

  /** Assignments of `fid` to service `s`. */
  function CountOf(asg: seq<Assignment>, fid: string, s: Service): nat
  {
    if asg == [] then 0
    else CountOf(asg[..|asg| - 1], fid, s)
         + (if asg[|asg| - 1].facultyId == fid && asg[|asg| - 1].service == s then 1 else 0)
  }

  /** Assignments of `fid`, any service. */
  function FacultyCount(asg: seq<Assignment>, fid: string): nat
  {
    if asg == [] then 0
    else FacultyCount(asg[..|asg| - 1], fid) + (if asg[|asg| - 1].facultyId == fid then 1 else 0)
  }

  /** Week numbers `fid` is assigned in. */
  function WeeksOf(asg: seq<Assignment>, fid: string): set<int>
  {
    if asg == [] then {}
    else WeeksOf(asg[..|asg| - 1], fid)
         + (if asg[|asg| - 1].facultyId == fid then {asg[|asg| - 1].weekNumber} else {})
  }

  /** Assignments in week `wid` to service `s`. */
  function SlotCount(asg: seq<Assignment>, wid: string, s: Service): nat
  {
    if asg == [] then 0
    else SlotCount(asg[..|asg| - 1], wid, s)
         + (if asg[|asg| - 1].weekId == wid && asg[|asg| - 1].service == s then 1 else 0)
  }

  /** Assignments to service `s`, any week. */
  function ServiceTotal(asg: seq<Assignment>, s: Service): nat
  {
    if asg == [] then 0
    else ServiceTotal(asg[..|asg| - 1], s) + (if asg[|asg| - 1].service == s then 1 else 0)
  }

  lemma CountOfAppend(asg: seq<Assignment>, a: Assignment)
    ensures forall fid, s :: (CountOf(asg + [a], fid, s)
      == CountOf(asg, fid, s) + (if a.facultyId == fid && a.service == s then 1 else 0))
  {
    assert (asg + [a])[..|asg|] == asg;
  }

  lemma WeeksOfAppend(asg: seq<Assignment>, a: Assignment)
    ensures forall fid :: (WeeksOf(asg + [a], fid)
      == WeeksOf(asg, fid) + (if a.facultyId == fid then {a.weekNumber} else {}))
  {
    assert (asg + [a])[..|asg|] == asg;
  }

  lemma SlotCountAppend(asg: seq<Assignment>, a: Assignment)
    ensures forall wid, s :: (SlotCount(asg + [a], wid, s)
      == SlotCount(asg, wid, s) + (if a.weekId == wid && a.service == s then 1 else 0))
  {
    assert (asg + [a])[..|asg|] == asg;
  }

  /** Every assignment's week is among its faculty member's weeks. */
  lemma {:induction false} InWeeksOf(asg: seq<Assignment>)
    ensures forall i :: 0 <= i < |asg| ==> asg[i].weekNumber in WeeksOf(asg, asg[i].facultyId)
  {
    if asg != [] {
      var init := asg[..|asg| - 1];
      InWeeksOf(init);
      WeeksOfAppend(init, asg[|asg| - 1]);
      assert init + [asg[|asg| - 1]] == asg;
      forall i | 0 <= i < |asg| ensures asg[i].weekNumber in WeeksOf(asg, asg[i].facultyId) {
        if i < |asg| - 1 {
          assert asg[i] == init[i];
        }
      }
    }
  }

  // ---------------------------------------------------------------------
  // Properties of a schedule

  predicate Apart(x: int, y: int) { x < y - 1 || y + 1 < x }

  /** No week of `ws` is `w` or next to it. */
  predicate ClearOf(ws: set<int>, w: int)
  {
    forall x :: x in ws ==> Apart(x, w)
  }

  /** No faculty member has two assignments in the same or adjacent weeks
      (which also rules out two services in one week). */
  predicate NoBackToBack(asg: seq<Assignment>)
  {
    forall i, j :: 0 <= i < j < |asg| && asg[i].facultyId == asg[j].facultyId
      ==> Apart(asg[i].weekNumber, asg[j].weekNumber)
  }

  /** NoBackToBack built up one assignment at a time, the way the generator
      checks it: each assignment is apart from the weeks its faculty member
      already had. */
  predicate Spaced(asg: seq<Assignment>)
  {
    asg == [] ||
    (Spaced(asg[..|asg| - 1])
     && ClearOf(WeeksOf(asg[..|asg| - 1], asg[|asg| - 1].facultyId), asg[|asg| - 1].weekNumber))
  }

  lemma {:induction false} SpacedIsNoBackToBack(asg: seq<Assignment>)
    requires Spaced(asg)
    ensures NoBackToBack(asg)
  {
    if asg != [] {
      var init := asg[..|asg| - 1];
      var a := asg[|asg| - 1];
      SpacedIsNoBackToBack(init);
      InWeeksOf(init);
      forall i, j | 0 <= i < j < |asg| && asg[i].facultyId == asg[j].facultyId
        ensures Apart(asg[i].weekNumber, asg[j].weekNumber)
      {
        assert asg[i] == init[i];
        if j == |asg| - 1 {
          assert init[i].weekNumber in WeeksOf(init, a.facultyId);
        } else {
          assert asg[j] == init[j];
        }
      }
    }
  }

  /** Nobody exceeds target + 1 on a service, and a service with a target of
      zero (or less) is never assigned. */
  predicate WithinCapacity(roster: seq<FacultyProfile>, asg: seq<Assignment>)
  {
    forall k, s {:trigger CountOf(asg, roster[k].id, s)} :: 0 <= k < |roster| ==>
      && (TargetOf(roster[k], s) > 0 ==> CountOf(asg, roster[k].id, s) <= TargetOf(roster[k], s) + 1)
      && (TargetOf(roster[k], s) <= 0 ==> CountOf(asg, roster[k].id, s) == 0)
  }

  predicate InRoster(roster: seq<FacultyProfile>, fid: string)
  {
    exists k :: 0 <= k < |roster| && roster[k].id == fid
  }

  /** `a` is in one of the first `n` weeks, with that week's number. */
  predicate InWeeks(weeks: seq<ServiceWeek>, n: nat, a: Assignment)
    requires n <= |weeks|
  {
    exists k :: 0 <= k < n && weeks[k].id == a.weekId && weeks[k].weekNumber == a.weekNumber
  }

  /** One assignment is for a roster member, in one of the first `n` weeks,
      and not for a week its faculty member is marked unavailable for. */
  predicate Placed(roster: seq<FacultyProfile>, weeks: seq<ServiceWeek>, n: nat,
                   m: map<string, set<string>>, a: Assignment)
    requires n <= |weeks|
  {
    InRoster(roster, a.facultyId) && InWeeks(weeks, n, a) && a.facultyId !in UnavailableIn(m, a.weekId)
  }

  /** Every assignment is Placed (built up one assignment at a time). */
  predicate AllPlaced(roster: seq<FacultyProfile>, weeks: seq<ServiceWeek>, n: nat,
                      m: map<string, set<string>>, asg: seq<Assignment>)
    requires n <= |weeks|
  {
    asg == [] || (AllPlaced(roster, weeks, n, m, asg[..|asg| - 1]) && Placed(roster, weeks, n, m, asg[|asg| - 1]))
  }

  lemma {:induction false} AllPlacedMeans(roster: seq<FacultyProfile>, weeks: seq<ServiceWeek>, n: nat,
                                          m: map<string, set<string>>, asg: seq<Assignment>)
    requires n <= |weeks|
    ensures AllPlaced(roster, weeks, n, m, asg) <==> forall i :: 0 <= i < |asg| ==> Placed(roster, weeks, n, m, asg[i])
  {
    if asg != [] {
      var init := asg[..|asg| - 1];
      AllPlacedMeans(roster, weeks, n, m, init);
      assert forall i :: 0 <= i < |init| ==> init[i] == asg[i];
    }
  }

  lemma {:induction false} AllPlacedGrows(roster: seq<FacultyProfile>, weeks: seq<ServiceWeek>, n: nat, n': nat,
                                          m: map<string, set<string>>, asg: seq<Assignment>)
    requires n <= n' <= |weeks|
    requires AllPlaced(roster, weeks, n, m, asg)
    ensures AllPlaced(roster, weeks, n', m, asg)
  {
    if asg != [] {
      AllPlacedGrows(roster, weeks, n, n', m, asg[..|asg| - 1]);
      var a := asg[|asg| - 1];
      var k :| 0 <= k < n && weeks[k].id == a.weekId && weeks[k].weekNumber == a.weekNumber;
      assert InWeeks(weeks, n', a);
    }
  }

  predicate SlotsWithinRequirement(weeks: seq<ServiceWeek>, asg: seq<Assignment>)
  {
    forall k, s {:trigger SlotCount(asg, weeks[k].id, s)} :: 0 <= k < |weeks| ==> SlotCount(asg, weeks[k].id, s) <= Required(s)
  }

  /** A stored request that takes `fid` out of week `wid` when generating for
      `year`: status "unavailable" and a week id ending in "-{year}". */
  predicate Marks(r: UnavailabilityRequest, year: int, wid: string, fid: string)
  {
    r.status == UNAVAILABLE && EndsWith(r.weekId, "-" + IntToDecimal(year))
    && r.weekId == wid && r.facultyId == fid
  }

  predicate RespectsRequests(requests: seq<UnavailabilityRequest>, year: int, asg: seq<Assignment>)
  {
    forall i, j :: 0 <= i < |asg| && 0 <= j < |requests| ==>
      !Marks(requests[j], year, asg[i].weekId, asg[i].facultyId)
  }

  lemma AppendWithinCapacity(roster: seq<FacultyProfile>, asg: seq<Assignment>, a: Assignment, c: nat)
    requires DistinctIds(roster) && c < |roster| && roster[c].id == a.facultyId
    requires WithinCapacity(roster, asg)
    requires TargetOf(roster[c], a.service) >= 1
    requires CountOf(asg, a.facultyId, a.service) + 1 <= TargetOf(roster[c], a.service) + 1
    ensures WithinCapacity(roster, asg + [a])
  {
    CountOfAppend(asg, a);
    forall k, s | 0 <= k < |roster|
      ensures (TargetOf(roster[k], s) > 0 ==> CountOf(asg + [a], roster[k].id, s) <= TargetOf(roster[k], s) + 1)
      ensures (TargetOf(roster[k], s) <= 0 ==> CountOf(asg + [a], roster[k].id, s) == 0)
    {
      if k != c {
        assert roster[k].id != roster[c].id;
      }
    }
  }

  // ---------------------------------------------------------------------
  // The unavailability index

  function UnavailableIn(m: map<string, set<string>>, wid: string): set<string>
  {
    if wid in m then m[wid] else {}
  }

  /** Some of the first `n` requests marks `fid` out of week `wid`. */
  predicate MarkedBy(requests: seq<UnavailabilityRequest>, n: nat, year: int, wid: string, fid: string)
    requires n <= |requests|
  {
    exists q :: 0 <= q < n && Marks(requests[q], year, wid, fid)
  }

  lemma MarkedByStep(requests: seq<UnavailabilityRequest>, n: nat, year: int, wid: string, fid: string)
    requires n < |requests|
    ensures MarkedBy(requests, n + 1, year, wid, fid)
      <==> MarkedBy(requests, n, year, wid, fid) || Marks(requests[n], year, wid, fid)
  {
  }

  /** `unavailability_map`: week id -> faculty marked "unavailable" for it,
      keeping only week ids that end in "-{year}". */
  method BuildUnavailability(requests: seq<UnavailabilityRequest>, year: int)
    returns (m: map<string, set<string>>)
    ensures forall wid, fid :: (fid in UnavailableIn(m, wid) <==> MarkedBy(requests, |requests|, year, wid, fid))
  {
    m := map[];
    var suffix := "-" + IntToDecimal(year);
    for j := 0 to |requests|
      invariant forall wid, fid :: (fid in UnavailableIn(m, wid) <==> MarkedBy(requests, j, year, wid, fid))
    {
      var r := requests[j];
      ghost var before := m;
      if r.status == UNAVAILABLE && EndsWith(r.weekId, suffix) {
        m := m[r.weekId := UnavailableIn(m, r.weekId) + {r.facultyId}];
      }
      forall wid, fid ensures (fid in UnavailableIn(m, wid) <==> MarkedBy(requests, j + 1, year, wid, fid)) {
        MarkedByStep(requests, j, year, wid, fid);
      }
    }
  }

  // ---------------------------------------------------------------------
  // The run's capacity trackers

  /** The trackers belong to the roster, position by position, as distinct objects. */
  ghost predicate Setup(roster: seq<FacultyProfile>, caps: seq<FacultyCapacity>)
  {
    && |caps| == |roster|
    && DistinctIds(roster)
    && (forall i :: 0 <= i < |caps| ==>
          caps[i].facultyId == roster[i].id && caps[i].name == roster[i].name
          && forall s :: caps[i].Target(s) == TargetOf(roster[i], s))
    && (forall i, j :: 0 <= i < j < |caps| ==> caps[i] != caps[j])
  }

  /** The trackers' counters and week sets are those of the assignments made. */
  ghost predicate Mirrors(roster: seq<FacultyProfile>, caps: seq<FacultyCapacity>, asg: seq<Assignment>)
    reads caps
  {
    && |caps| == |roster|
    && (forall i, s :: 0 <= i < |caps| ==> caps[i].Assigned(s) == CountOf(asg, roster[i].id, s))
    && (forall i :: 0 <= i < |caps| ==> caps[i].assignedWeeks == WeeksOf(asg, roster[i].id))
  }

  /** What the assignments made so far (in the first `n` weeks) satisfy. */
  ghost predicate Sound(roster: seq<FacultyProfile>, weeks: seq<ServiceWeek>, n: nat,
                        m: map<string, set<string>>, asg: seq<Assignment>)
    requires n <= |weeks|
  {
    Spaced(asg) && WithinCapacity(roster, asg) && AllPlaced(roster, weeks, n, m, asg)
  }

  method NewCapacities(roster: seq<FacultyProfile>) returns (caps: seq<FacultyCapacity>)
    requires DistinctIds(roster)
    ensures Setup(roster, caps) && Mirrors(roster, caps, [])
    ensures forall i :: 0 <= i < |caps| ==> fresh(caps[i])
  {
    caps := [];
    for i := 0 to |roster|
      invariant |caps| == i
      invariant forall k :: 0 <= k < i ==> fresh(caps[k])
      invariant forall k :: 0 <= k < i ==>
        caps[k].facultyId == roster[k].id && caps[k].name == roster[k].name
        && (forall s :: caps[k].Target(s) == TargetOf(roster[k], s))
        && (forall s :: caps[k].Assigned(s) == 0) && caps[k].assignedWeeks == {}
      invariant forall k, j :: 0 <= k < j < i ==> caps[k] != caps[j]
    {
      var f := roster[i];
      var c := new FacultyCapacity(f.id, f.name, TargetOf(f, MICU), TargetOf(f, AppIcu),
                                   TargetOf(f, Procedures), TargetOf(f, Consults));
      assert forall s :: c.Target(s) == TargetOf(f, s);
      caps := caps + [c];
    }
  }

  // ---------------------------------------------------------------------
  // Eligibility and selection for one (week, service) slot

  /** Already given another service this week (`week_assignments`). */
  predicate TakenThisWeek(wa: map<Service, seq<string>>, fid: string)
  {
    exists t :: t in wa && fid in wa[t]
  }

  function AddTaken(wa: map<Service, seq<string>>, s: Service, fid: string): map<Service, seq<string>>
  {
    wa[s := (if s in wa then wa[s] else []) + [fid]]
  }

  /** The eligibility rules that depend on the faculty member's own record,
      read off the assignments made so far: not marked unavailable, no
      assigned week within one week of `week`, and a positive target not yet
      reached (one more keeps the count within target + 1). */
  predicate FitsAt(f: FacultyProfile, asg: seq<Assignment>, unavailable: set<string>, week: int, s: Service)
  {
    && f.id !in unavailable
    && ClearOf(WeeksOf(asg, f.id), week)
    && TargetOf(f, s) >= 1
    && CountOf(asg, f.id, s) <= TargetOf(f, s)
  }

  /** An eligible tracker's member fits, read off the assignments it mirrors. */
  lemma EligibleFitsAt(roster: seq<FacultyProfile>, caps: seq<FacultyCapacity>, asg: seq<Assignment>,
                       unavailable: set<string>, wa: map<Service, seq<string>>, week: int, s: Service)
    requires Setup(roster, caps) && Mirrors(roster, caps, asg)
    ensures forall k :: (0 <= k < |caps| && Eligible(caps[k], unavailable, wa, week, s)
      ==> FitsAt(roster[k], asg, unavailable, week, s))
  {
    forall k | 0 <= k < |caps| && Eligible(caps[k], unavailable, wa, week, s)
      ensures FitsAt(roster[k], asg, unavailable, week, s)
    {
      assert caps[k].CanWorkWeek(week) && caps[k].CanWorkService(s);
    }
  }

  lemma FitsAtAppend(f: FacultyProfile, asg: seq<Assignment>, a: Assignment, unavailable: set<string>, week: int, s: Service)
    requires f.id != a.facultyId
    requires FitsAt(f, asg, unavailable, week, s)
    ensures FitsAt(f, asg + [a], unavailable, week, s)
  {
    CountOfAppend(asg, a);
    WeeksOfAppend(asg, a);
  }

  /** The four eligibility rules, checked in the source's order. */
  predicate Eligible(c: FacultyCapacity, unavailable: set<string>, wa: map<Service, seq<string>>,
                     week: int, s: Service)
    reads c
  {
    c.facultyId !in unavailable && !TakenThisWeek(wa, c.facultyId)
    && c.CanWorkWeek(week) && c.CanWorkService(s)
  }

  /** Some candidate of `s` stands for roster position `i`. */
  predicate HasIndex(s: seq<Candidate>, i: nat)
  {
    exists j :: 0 <= j < |s| && s[j].index == i
  }

  lemma HasIndexAppend(s: seq<Candidate>, x: Candidate, i: nat)
    ensures HasIndex(s + [x], i) <==> HasIndex(s, i) || x.index == i
  {
    if HasIndex(s + [x], i) {
      var j :| 0 <= j < |s + [x]| && (s + [x])[j].index == i;
      if j < |s| {
        assert s[j] == (s + [x])[j];
      }
    }
    if HasIndex(s, i) {
      var j :| 0 <= j < |s| && s[j].index == i;
      assert (s + [x])[j] == s[j];
    }
    if x.index == i {
      assert (s + [x])[|s|] == x;
    }
  }

  /** The eligible pool for one slot, in roster order: exactly the eligible
      faculty, each once, with their priority scores and draws. */
  method EligiblePool(caps: seq<FacultyCapacity>, unavailable: set<string>,
                      wa: map<Service, seq<string>>, week: ServiceWeek, s: Service,
                      draw: (string, Service, string) -> real)
    returns (pool: seq<Candidate>)
    ensures forall i :: 0 <= i < |caps| ==>
      (Eligible(caps[i], unavailable, wa, week.weekNumber, s) <==> HasIndex(pool, i))
    ensures forall j :: 0 <= j < |pool| ==>
      pool[j].index < |caps| && pool[j].score == caps[pool[j].index].PriorityScore(s)
    ensures DistinctIndices(pool)
  {
    pool := [];
    for i := 0 to |caps|
      invariant forall j :: 0 <= j < |pool| ==>
        pool[j].index < i && pool[j].score == caps[pool[j].index].PriorityScore(s)
      invariant forall a, b :: 0 <= a < b < |pool| ==> pool[a].index < pool[b].index
      invariant forall k :: 0 <= k < i ==>
        (Eligible(caps[k], unavailable, wa, week.weekNumber, s) <==> HasIndex(pool, k))
    {
      var c := caps[i];
      var ok: bool;
      if c.facultyId in unavailable {
        ok := false;
      } else if TakenThisWeek(wa, c.facultyId) {
        ok := false;
      } else if !c.CanWorkWeek(week.weekNumber) {
        ok := false;
      } else {
        ok := c.CanWorkService(s);
      }
      assert ok == Eligible(c, unavailable, wa, week.weekNumber, s);
      assert !HasIndex(pool, i);
      ghost var before := pool;
      if ok {
        pool := pool + [Candidate(i, c.PriorityScore(s), draw(week.id, s, c.facultyId))];
        forall k | 0 <= k <= i ensures HasIndex(pool, k) <==> HasIndex(before, k) || k == i {
          HasIndexAppend(before, pool[|pool| - 1], k);
        }
      }
    }
  }

  /** A reordering of the eligible pool stands for the same members, with
      the same scores, all of them eligible. */
  lemma RankedFromPool(caps: seq<FacultyCapacity>, unavailable: set<string>,
                       wa: map<Service, seq<string>>, week: ServiceWeek, s: Service,
                       pool: seq<Candidate>, ranked: seq<Candidate>)
    requires forall i :: 0 <= i < |caps| ==>
      (Eligible(caps[i], unavailable, wa, week.weekNumber, s) <==> HasIndex(pool, i))
    requires forall j :: 0 <= j < |pool| ==>
      pool[j].index < |caps| && pool[j].score == caps[pool[j].index].PriorityScore(s)
    requires forall y :: y in ranked <==> y in pool
    ensures forall i :: 0 <= i < |caps| ==>
      (Eligible(caps[i], unavailable, wa, week.weekNumber, s) <==> HasIndex(ranked, i))
    ensures forall j :: 0 <= j < |ranked| ==>
      && ranked[j].index < |caps| && ranked[j].score == caps[ranked[j].index].PriorityScore(s)
      && Eligible(caps[ranked[j].index], unavailable, wa, week.weekNumber, s)
  {
    forall i | 0 <= i < |caps| ensures HasIndex(pool, i) <==> HasIndex(ranked, i) {
      if HasIndex(pool, i) {
        var j :| 0 <= j < |pool| && pool[j].index == i;
        assert pool[j] in ranked;
      }
      if HasIndex(ranked, i) {
        var j :| 0 <= j < |ranked| && ranked[j].index == i;
        assert ranked[j] in pool;
      }
    }
    forall j | 0 <= j < |ranked|
      ensures ranked[j].index < |caps| && ranked[j].score == caps[ranked[j].index].PriorityScore(s)
      ensures Eligible(caps[ranked[j].index], unavailable, wa, week.weekNumber, s)
    {
      assert ranked[j] in pool;
      assert HasIndex(ranked, ranked[j].index);
    }
  }

  /** The eligible pool for one slot, ranked by priority with the supplied
      random draws breaking ties, and the candidates taken from its head:
      the ranking holds exactly the eligible faculty, each once; as many are
      taken as the service requires, or all of them when fewer are eligible;
      and the ones taken score at least as high as the ones left. */
  method SelectForSlot(caps: seq<FacultyCapacity>, unavailable: set<string>,
                       wa: map<Service, seq<string>>, week: ServiceWeek, s: Service,
                       draw: (string, Service, string) -> real)
    returns (ranked: seq<Candidate>, chosen: seq<Candidate>)
    ensures forall i :: 0 <= i < |caps| ==>
      (Eligible(caps[i], unavailable, wa, week.weekNumber, s) <==> HasIndex(ranked, i))
    ensures forall j :: 0 <= j < |ranked| ==>
      ranked[j].index < |caps| && ranked[j].score == caps[ranked[j].index].PriorityScore(s)
    ensures DistinctIndices(ranked)
    ensures |chosen| == if Required(s) < |ranked| then Required(s) else |ranked|
    ensures chosen == ranked[..|chosen|]
    ensures forall i, j :: 0 <= i < |chosen| <= j < |ranked| ==> ranked[i].score >= ranked[j].score
    ensures DistinctIndices(chosen)
    ensures forall j :: 0 <= j < |chosen| ==>
      chosen[j].index < |caps| && Eligible(caps[chosen[j].index], unavailable, wa, week.weekNumber, s)
  {
    var pool := EligiblePool(caps, unavailable, wa, week, s, draw);
    ranked := RankByPriority(pool);
    RankByPriorityCorrect(pool);
    RankedFromPool(caps, unavailable, wa, week, s, pool, ranked);
    var take := if Required(s) < |ranked| then Required(s) else |ranked|;
    chosen := ranked[..take];
    TopScoresFirst(ranked, take);
  }

  // ---------------------------------------------------------------------
  // The greedy rule, stated on the assignments alone

  /** The roster positions eligible for slot `s` of week `w` once the
      assignments `before` are made: the members who fit there. Fitting
      also rules out a member given another service this week, whose week
      set then holds `w` itself. */
  ghost function EligibleSet(roster: seq<FacultyProfile>, before: seq<Assignment>, unavailable: set<string>,
                             w: ServiceWeek, s: Service): set<nat>
  {
    set k: nat | k < |roster| && FitsAt(roster[k], before, unavailable, w.weekNumber, s)
  }

  /** The priority of roster position `k` for service `s` after `before`. */
  ghost function PriorityAt(roster: seq<FacultyProfile>, before: seq<Assignment>, k: nat, s: Service): real
    requires k < |roster|
  {
    Priority(TargetOf(roster[k], s), CountOf(before, roster[k].id, s))
  }

  function Min(a: int, b: int): int { if a < b then a else b }

  /** The assignments placing roster positions `picked`, in order, in slot
      `s` of week `w`. */
  ghost function Placements(roster: seq<FacultyProfile>, w: ServiceWeek, s: Service, picked: seq<nat>): seq<Assignment>
    requires forall q :: 0 <= q < |picked| ==> picked[q] < |roster|
  {
    seq(|picked|, q requires 0 <= q < |picked| => Assignment(roster[picked[q]].id, w.id, w.weekNumber, s))
  }

  /** Slot `s` of week `w` filled greedily after the assignments `before`:
      as many eligible members as the service requires, or all of them when
      fewer are eligible, each once, and none of lower priority than an
      eligible member left out. */
  ghost predicate GreedyFill(roster: seq<FacultyProfile>, unavailable: set<string>, w: ServiceWeek, s: Service,
                             before: seq<Assignment>, picked: seq<nat>)
  {
    var e := EligibleSet(roster, before, unavailable, w, s);
    && |picked| == Min(Required(s), |e|)
    && (forall q :: 0 <= q < |picked| ==> picked[q] in e)
    && (forall q, q' :: 0 <= q < q' < |picked| ==> picked[q] != picked[q'])
    && (forall q, k :: 0 <= q < |picked| && k in e && k !in picked ==>
          PriorityAt(roster, before, picked[q], s) >= PriorityAt(roster, before, k, s))
  }

  /** Every pick of `wp` is a roster position. */
  ghost predicate PicksIn(roster: seq<FacultyProfile>, wp: seq<seq<nat>>)
  {
    forall i, q :: 0 <= i < |wp| && 0 <= q < |wp[i]| ==> wp[i][q] < |roster|
  }

  /** The assignments laid by the week's slots so far, services in
      SERVICE_ORDER, slot `i` placing the members `wp[i]`. */
  ghost function WeekLaid(roster: seq<FacultyProfile>, w: ServiceWeek, wp: seq<seq<nat>>): seq<Assignment>
    requires |wp| <= |SERVICE_ORDER| && PicksIn(roster, wp)
    decreases |wp|
  {
    if wp == [] then []
    else WeekLaid(roster, w, wp[..|wp| - 1]) + Placements(roster, w, SERVICE_ORDER[|wp| - 1], wp[|wp| - 1])
  }

  /** The first `|wp|` slots of week `w` filled greedily after the
      assignments `before`, in SERVICE_ORDER, each slot judged on the
      assignments made before it. */
  ghost predicate WeekSoFar(roster: seq<FacultyProfile>, unavailable: set<string>, w: ServiceWeek,
                            before: seq<Assignment>, wp: seq<seq<nat>>)
    decreases |wp|
  {
    && |wp| <= |SERVICE_ORDER| && PicksIn(roster, wp)
    && (wp != [] ==>
          var prior := wp[..|wp| - 1];
          && WeekSoFar(roster, unavailable, w, before, prior)
          && GreedyFill(roster, unavailable, w, SERVICE_ORDER[|wp| - 1], before + WeekLaid(roster, w, prior), wp[|wp| - 1]))
  }

  /** Week `w` filled greedily after the assignments `before`, every slot. */
  ghost predicate WeekGreedy(roster: seq<FacultyProfile>, unavailable: set<string>, w: ServiceWeek,
                             before: seq<Assignment>, wp: seq<seq<nat>>)
  {
    |wp| == |SERVICE_ORDER| && WeekSoFar(roster, unavailable, w, before, wp)
  }

  /** The members the requests mark out of week `wid` when generating for `year`. */
  ghost function UnavailableSet(requests: seq<UnavailabilityRequest>, year: int, wid: string): set<string>
  {
    set j | 0 <= j < |requests| && Marks(requests[j], year, wid, requests[j].facultyId) :: requests[j].facultyId
  }

  /** Every week's record holds one list of picks per service, each a
      list of roster positions. */
  ghost predicate WeekShaped(roster: seq<FacultyProfile>, picks: seq<seq<seq<nat>>>)
  {
    forall k :: 0 <= k < |picks| ==> |picks[k]| == |SERVICE_ORDER| && PicksIn(roster, picks[k])
  }

  /** The assignments laid by the weeks of `picks`, in order, each slot by slot. */
  ghost function Laid(roster: seq<FacultyProfile>, weeks: seq<ServiceWeek>, picks: seq<seq<seq<nat>>>): seq<Assignment>
    requires |picks| <= |weeks| && WeekShaped(roster, picks)
    decreases |picks|
  {
    if picks == [] then []
    else Laid(roster, weeks, picks[..|picks| - 1]) + WeekLaid(roster, weeks[|picks| - 1], picks[|picks| - 1])
  }

  /** The weeks of `picks` (the first `|picks|` of `weeks`) filled greedily
      in order, each week judged on the assignments of the weeks before it
      and on the unavailability the requests record for it. */
  ghost predicate GreedyRun(roster: seq<FacultyProfile>, requests: seq<UnavailabilityRequest>, year: int,
                            weeks: seq<ServiceWeek>, picks: seq<seq<seq<nat>>>)
    decreases |picks|
  {
    && |picks| <= |weeks| && WeekShaped(roster, picks)
    && (picks != [] ==>
          var prior := picks[..|picks| - 1];
          var w := weeks[|picks| - 1];
          && GreedyRun(roster, requests, year, weeks, prior)
          && WeekGreedy(roster, UnavailableSet(requests, year, w.id), w, Laid(roster, weeks, prior), picks[|picks| - 1]))
  }

  /** The unavailability index holds, for every week, exactly the members
      the requests mark out of it. */
  lemma UnavailableSetIsIndex(requests: seq<UnavailabilityRequest>, year: int, m: map<string, set<string>>)
    requires forall wid, fid :: (fid in UnavailableIn(m, wid) <==> MarkedBy(requests, |requests|, year, wid, fid))
    ensures forall wid :: UnavailableIn(m, wid) == UnavailableSet(requests, year, wid)
  {
    forall wid ensures UnavailableIn(m, wid) == UnavailableSet(requests, year, wid) {
      forall fid | fid in UnavailableIn(m, wid) ensures fid in UnavailableSet(requests, year, wid) {
        var q :| 0 <= q < |requests| && Marks(requests[q], year, wid, fid);
      }
      forall fid | fid in UnavailableSet(requests, year, wid) ensures fid in UnavailableIn(m, wid) {
        var q :| 0 <= q < |requests| && Marks(requests[q], year, wid, requests[q].facultyId) && requests[q].facultyId == fid;
        assert MarkedBy(requests, |requests|, year, wid, fid);
      }
    }
  }

  /** The week's scratch map only names members with an assignment in week `week`. */
  ghost predicate TakenRecorded(wa: map<Service, seq<string>>, asg: seq<Assignment>, week: int)
  {
    forall t, fid :: t in wa && fid in wa[t] ==> week in WeeksOf(asg, fid)
  }

  /** The four eligibility checks on a tracker are exactly fitting on the
      assignments it mirrors. */
  lemma EligibleIsFit(roster: seq<FacultyProfile>, caps: seq<FacultyCapacity>, asg: seq<Assignment>,
                      unavailable: set<string>, wa: map<Service, seq<string>>, w: ServiceWeek, s: Service)
    requires Setup(roster, caps) && Mirrors(roster, caps, asg) && TakenRecorded(wa, asg, w.weekNumber)
    ensures forall k :: 0 <= k < |caps| ==>
      (Eligible(caps[k], unavailable, wa, w.weekNumber, s) <==> k in EligibleSet(roster, asg, unavailable, w, s))
  {
    EligibleFitsAt(roster, caps, asg, unavailable, wa, w.weekNumber, s);
    forall k | 0 <= k < |caps| && FitsAt(roster[k], asg, unavailable, w.weekNumber, s)
      ensures Eligible(caps[k], unavailable, wa, w.weekNumber, s)
    {
      var fid := roster[k].id;
      assert !Apart(w.weekNumber, w.weekNumber);
      assert w.weekNumber !in WeeksOf(asg, fid);
      assert !TakenThisWeek(wa, fid);
      assert caps[k].CanWorkWeek(w.weekNumber);
      assert caps[k].CanWorkService(s);
    }
  }

  /** The pool SelectForSlot ranks, read off the assignments the trackers
      mirror: exactly the eligible set, each scored with its priority. */
  lemma RankedIsEligible(roster: seq<FacultyProfile>, caps: seq<FacultyCapacity>, asg: seq<Assignment>,
                         unavailable: set<string>, wa: map<Service, seq<string>>, w: ServiceWeek, s: Service,
                         ranked: seq<Candidate>)
    requires Setup(roster, caps) && Mirrors(roster, caps, asg) && TakenRecorded(wa, asg, w.weekNumber)
    requires forall i :: 0 <= i < |caps| ==>
      (Eligible(caps[i], unavailable, wa, w.weekNumber, s) <==> HasIndex(ranked, i))
    requires forall j :: 0 <= j < |ranked| ==>
      ranked[j].index < |caps| && ranked[j].score == caps[ranked[j].index].PriorityScore(s)
    ensures IndexSet(ranked) == EligibleSet(roster, asg, unavailable, w, s)
    ensures forall j :: 0 <= j < |ranked| ==>
      ranked[j].index < |roster| && ranked[j].score == PriorityAt(roster, asg, ranked[j].index, s)
  {
    var e := EligibleSet(roster, asg, unavailable, w, s);
    EligibleIsFit(roster, caps, asg, unavailable, wa, w, s);
    forall k | k in e ensures k in IndexSet(ranked) {
      assert HasIndex(ranked, k);
    }
    forall k | k in IndexSet(ranked) ensures k in e {
      var j :| 0 <= j < |ranked| && ranked[j].index == k;
      assert HasIndex(ranked, k);
    }
    forall j | 0 <= j < |ranked| ensures ranked[j].score == PriorityAt(roster, asg, ranked[j].index, s) {
      var i := ranked[j].index;
      assert caps[i].Target(s) == TargetOf(roster[i], s);
    }
  }

  /** Taking the head of a ranking of exactly the eligible set, scored by
      priority, is a greedy fill of the slot. */
  lemma HeadIsGreedy(roster: seq<FacultyProfile>, asg: seq<Assignment>, unavailable: set<string>,
                     w: ServiceWeek, s: Service, ranked: seq<Candidate>, chosen: seq<Candidate>)
    requires IndexSet(ranked) == EligibleSet(roster, asg, unavailable, w, s)
    requires forall j :: 0 <= j < |ranked| ==>
      ranked[j].index < |roster| && ranked[j].score == PriorityAt(roster, asg, ranked[j].index, s)
    requires DistinctIndices(ranked)
    requires |chosen| == Min(Required(s), |ranked|)
    requires chosen == ranked[..|chosen|]
    requires forall i, j :: 0 <= i < |chosen| <= j < |ranked| ==> ranked[i].score >= ranked[j].score
    ensures forall q :: 0 <= q < |chosen| ==> chosen[q].index < |roster|
    ensures GreedyFill(roster, unavailable, w, s, asg, Indices(chosen))
  {
    var e := EligibleSet(roster, asg, unavailable, w, s);
    IndexSetSize(ranked);
    var picked := Indices(chosen);
    forall q | 0 <= q < |picked| ensures picked[q] in e {
      assert chosen[q] == ranked[q];
    }
    forall q, k | 0 <= q < |picked| && k in e && k !in picked
      ensures PriorityAt(roster, asg, picked[q], s) >= PriorityAt(roster, asg, k, s)
    {
      var j :| 0 <= j < |ranked| && ranked[j].index == k;
      assert forall i :: 0 <= i < |chosen| ==> ranked[i].index == picked[i] != k;
      assert chosen[q] == ranked[q];
    }
  }

  /** What SelectForSlot returns, gathered in one place. */
  ghost predicate Selected(caps: seq<FacultyCapacity>, unavailable: set<string>, wa: map<Service, seq<string>>,
                           w: ServiceWeek, s: Service, ranked: seq<Candidate>, chosen: seq<Candidate>)
    reads caps
  {
    && (forall i :: 0 <= i < |caps| ==>
          (Eligible(caps[i], unavailable, wa, w.weekNumber, s) <==> HasIndex(ranked, i)))
    && (forall j :: 0 <= j < |ranked| ==>
          ranked[j].index < |caps| && ranked[j].score == caps[ranked[j].index].PriorityScore(s))
    && DistinctIndices(ranked)
    && |chosen| == (if Required(s) < |ranked| then Required(s) else |ranked|)
    && chosen == ranked[..|chosen|]
    && (forall i, j :: 0 <= i < |chosen| <= j < |ranked| ==> ranked[i].score >= ranked[j].score)
  }

  /** The candidates SelectForSlot takes are a greedy fill of the slot,
      read off the assignments the trackers mirror, and as many as the
      service requires or as are eligible. */
  lemma SelectionIsGreedy(roster: seq<FacultyProfile>, caps: seq<FacultyCapacity>, asg: seq<Assignment>,
                          unavailable: set<string>, wa: map<Service, seq<string>>, w: ServiceWeek, s: Service,
                          ranked: seq<Candidate>, chosen: seq<Candidate>)
    requires Setup(roster, caps) && Mirrors(roster, caps, asg) && TakenRecorded(wa, asg, w.weekNumber)
    requires Selected(caps, unavailable, wa, w, s, ranked, chosen)
    ensures forall q :: 0 <= q < |chosen| ==> chosen[q].index < |roster|
    ensures forall q :: 0 <= q < |chosen| ==> FitsAt(roster[chosen[q].index], asg, unavailable, w.weekNumber, s)
    ensures |chosen| == Min(Required(s), |EligibleSet(roster, asg, unavailable, w, s)|)
    ensures GreedyFill(roster, unavailable, w, s, asg, Indices(chosen))
  {
    RankedIsEligible(roster, caps, asg, unavailable, wa, w, s, ranked);
    HeadIsGreedy(roster, asg, unavailable, w, s, ranked, chosen);
    IndexSetSize(ranked);
    forall q | 0 <= q < |chosen| ensures FitsAt(roster[chosen[q].index], asg, unavailable, w.weekNumber, s) {
      assert Indices(chosen)[q] in EligibleSet(roster, asg, unavailable, w, s);
    }
  }

  // ---------------------------------------------------------------------
  // Assigning the chosen faculty

  /** Adding one assignment that passed the eligibility rules keeps every
      schedule property: spacing, the target + 1 ceiling, the roster, the
      weeks processed so far and the unavailability index. */
  lemma AppendSound(roster: seq<FacultyProfile>, weeks: seq<ServiceWeek>, n: nat,
                    m: map<string, set<string>>, asg: seq<Assignment>, a: Assignment, c: nat)
    requires 0 < n <= |weeks| && DistinctIds(roster) && c < |roster|
    requires Sound(roster, weeks, n, m, asg)
    requires roster[c].id == a.facultyId
    requires a.weekId == weeks[n - 1].id && a.weekNumber == weeks[n - 1].weekNumber
    requires a.facultyId !in UnavailableIn(m, a.weekId)
    requires ClearOf(WeeksOf(asg, a.facultyId), a.weekNumber)
    requires TargetOf(roster[c], a.service) >= 1
    requires CountOf(asg, a.facultyId, a.service) <= TargetOf(roster[c], a.service)
    ensures Sound(roster, weeks, n, m, asg + [a])
  {
    AppendWithinCapacity(roster, asg, a, c);
    var t := asg + [a];
    assert t[..|t| - 1] == asg && t[|t| - 1] == a;
    assert InRoster(roster, a.facultyId);
    assert InWeeks(weeks, n, a);
  }

  /** One assignment: the tracker, the assignment list and the week's
      scratch map all record it, and the schedule properties carry over. */
  method AssignOne(roster: seq<FacultyProfile>, caps: seq<FacultyCapacity>, m: map<string, set<string>>,
                   weeks: seq<ServiceWeek>, wi: nat, s: Service, c: nat,
                   asg0: seq<Assignment>, wa0: map<Service, seq<string>>)
    returns (asg: seq<Assignment>, wa: map<Service, seq<string>>)
    requires wi < |weeks| && c < |caps|
    requires Setup(roster, caps) && Mirrors(roster, caps, asg0) && Sound(roster, weeks, wi + 1, m, asg0)
    requires FitsAt(roster[c], asg0, UnavailableIn(m, weeks[wi].id), weeks[wi].weekNumber, s)
    modifies caps[c]
    ensures Mirrors(roster, caps, asg) && Sound(roster, weeks, wi + 1, m, asg)
    ensures asg == asg0 + [Assignment(roster[c].id, weeks[wi].id, weeks[wi].weekNumber, s)]
    ensures wa == AddTaken(wa0, s, roster[c].id)
  {
    var week := weeks[wi];
    var cap := caps[c];
    var a := Assignment(cap.facultyId, week.id, week.weekNumber, s);
    AppendSound(roster, weeks, wi + 1, m, asg0, a, c);
    CountOfAppend(asg0, a);
    WeeksOfAppend(asg0, a);
    asg := asg0 + [a];
    wa := AddTaken(wa0, s, cap.facultyId);
    cap.Assign(s, week.weekNumber);
    forall i, t | 0 <= i < |caps| ensures caps[i].Assigned(t) == CountOf(asg, roster[i].id, t) {
      if i != c {
        assert caps[i] != cap && roster[i].id != a.facultyId;
      }
    }
  }

  /** Assigning the `j`-th chosen candidate leaves the later ones fitting. */
  lemma RestStillFit(roster: seq<FacultyProfile>, chosen: seq<Candidate>, j: nat, asg: seq<Assignment>,
                     a: Assignment, unavailable: set<string>, week: int, s: Service)
    requires DistinctIds(roster) && DistinctIndices(chosen) && j < |chosen|
    requires forall q :: 0 <= q < |chosen| ==> chosen[q].index < |roster|
    requires a.facultyId == roster[chosen[j].index].id
    requires forall q :: j <= q < |chosen| ==> FitsAt(roster[chosen[q].index], asg, unavailable, week, s)
    ensures forall q :: j < q < |chosen| ==> FitsAt(roster[chosen[q].index], asg + [a], unavailable, week, s)
  {
    forall q | j < q < |chosen| ensures FitsAt(roster[chosen[q].index], asg + [a], unavailable, week, s) {
      assert chosen[q].index != chosen[j].index;
      FitsAtAppend(roster[chosen[q].index], asg, a, unavailable, week, s);
    }
  }

  /** `asg` is `start` followed by the first `j` chosen members placed in
      slot `s` of week `w`. */
  ghost predicate Appended(roster: seq<FacultyProfile>, w: ServiceWeek, s: Service, chosen: seq<Candidate>,
                           j: nat, start: seq<Assignment>, asg: seq<Assignment>)
    requires j <= |chosen| && forall q :: 0 <= q < |chosen| ==> chosen[q].index < |roster|
  {
    && |asg| == |start| + j
    && (forall q :: 0 <= q < |start| ==> asg[q] == start[q])
    && forall q :: 0 <= q < j ==> asg[|start| + q] == Assignment(roster[chosen[q].index].id, w.id, w.weekNumber, s)
  }

  /** Once every chosen member is appended, the assignments are the
      start followed by the slot's placements. */
  lemma AppendedAll(roster: seq<FacultyProfile>, w: ServiceWeek, s: Service, chosen: seq<Candidate>,
                    start: seq<Assignment>, asg: seq<Assignment>)
    requires forall q :: 0 <= q < |chosen| ==> chosen[q].index < |roster|
    requires Appended(roster, w, s, chosen, |chosen|, start, asg)
    ensures asg == start + Placements(roster, w, s, Indices(chosen))
  {
  }

  /** Assigns the `j`-th chosen candidate: the slot has one more
      assignment, nothing else is counted differently, and the candidates
      after it still fit. */
  method AssignNext(roster: seq<FacultyProfile>, caps: seq<FacultyCapacity>, m: map<string, set<string>>,
                    weeks: seq<ServiceWeek>, wi: nat, s: Service, chosen: seq<Candidate>, j: nat,
                    start: seq<Assignment>, asg0: seq<Assignment>, wa0: map<Service, seq<string>>)
    returns (asg: seq<Assignment>, wa: map<Service, seq<string>>)
    requires wi < |weeks| && j < |chosen|
    requires Setup(roster, caps) && Mirrors(roster, caps, asg0) && Sound(roster, weeks, wi + 1, m, asg0)
    requires DistinctIndices(chosen) && forall q :: 0 <= q < |chosen| ==> chosen[q].index < |caps|
    requires forall q :: j <= q < |chosen| ==>
      FitsAt(roster[chosen[q].index], asg0, UnavailableIn(m, weeks[wi].id), weeks[wi].weekNumber, s)
    requires Appended(roster, weeks[wi], s, chosen, j, start, asg0)
    requires TakenRecorded(wa0, asg0, weeks[wi].weekNumber)
    modifies caps
    ensures Mirrors(roster, caps, asg) && Sound(roster, weeks, wi + 1, m, asg)
    ensures forall q :: j + 1 <= q < |chosen| ==>
      FitsAt(roster[chosen[q].index], asg, UnavailableIn(m, weeks[wi].id), weeks[wi].weekNumber, s)
    ensures Appended(roster, weeks[wi], s, chosen, j + 1, start, asg)
    ensures TakenRecorded(wa, asg, weeks[wi].weekNumber)
  {
    var c := chosen[j].index;
    ghost var a := Assignment(roster[c].id, weeks[wi].id, weeks[wi].weekNumber, s);
    TakenRecordedStep(wa0, asg0, a, s);
    asg, wa := AssignOne(roster, caps, m, weeks, wi, s, c, asg0, wa0);
    RestStillFit(roster, chosen, j, asg0, a, UnavailableIn(m, weeks[wi].id), weeks[wi].weekNumber, s);
  }

  /** Placing members in one slot adds that many to the slot's count and
      leaves every other slot's count as it was. */
  lemma {:induction false} SlotCountPlacements(roster: seq<FacultyProfile>, asg0: seq<Assignment>, w: ServiceWeek,
                                               s: Service, picked: seq<nat>)
    requires forall q :: 0 <= q < |picked| ==> picked[q] < |roster|
    ensures forall wid, t :: (SlotCount(asg0 + Placements(roster, w, s, picked), wid, t)
      == SlotCount(asg0, wid, t) + (if wid == w.id && t == s then |picked| else 0))
  {
    if picked == [] {
      assert asg0 + Placements(roster, w, s, picked) == asg0;
    } else {
      var prior := picked[..|picked| - 1];
      var a := Assignment(roster[picked[|picked| - 1]].id, w.id, w.weekNumber, s);
      SlotCountPlacements(roster, asg0, w, s, prior);
      assert asg0 + Placements(roster, w, s, picked) == (asg0 + Placements(roster, w, s, prior)) + [a];
      SlotCountAppend(asg0 + Placements(roster, w, s, prior), a);
    }
  }

  /** Recording a member in the week's scratch map along with an
      assignment in that week keeps the map truthful. */
  lemma TakenRecordedStep(wa: map<Service, seq<string>>, asg: seq<Assignment>, a: Assignment, s: Service)
    requires TakenRecorded(wa, asg, a.weekNumber)
    ensures TakenRecorded(AddTaken(wa, s, a.facultyId), asg + [a], a.weekNumber)
  {
    WeeksOfAppend(asg, a);
  }

  /** Assigns every chosen candidate to the slot, in ranked order: the
      chosen members are appended to the assignments in that order, so the
      slot gains one assignment per chosen candidate and no other slot
      changes. */
  method AssignSlot(roster: seq<FacultyProfile>, caps: seq<FacultyCapacity>, m: map<string, set<string>>,
                    weeks: seq<ServiceWeek>, wi: nat, s: Service, chosen: seq<Candidate>,
                    asg0: seq<Assignment>, wa0: map<Service, seq<string>>)
    returns (asg: seq<Assignment>, wa: map<Service, seq<string>>)
    requires wi < |weeks|
    requires Setup(roster, caps) && Mirrors(roster, caps, asg0) && Sound(roster, weeks, wi + 1, m, asg0)
    requires DistinctIndices(chosen)
    requires forall j :: 0 <= j < |chosen| ==> chosen[j].index < |caps|
    requires forall j :: 0 <= j < |chosen| ==>
      FitsAt(roster[chosen[j].index], asg0, UnavailableIn(m, weeks[wi].id), weeks[wi].weekNumber, s)
    requires TakenRecorded(wa0, asg0, weeks[wi].weekNumber)
    modifies caps
    ensures Mirrors(roster, caps, asg) && Sound(roster, weeks, wi + 1, m, asg)
    ensures forall wid, t :: (SlotCount(asg, wid, t) ==
      SlotCount(asg0, wid, t) + (if wid == weeks[wi].id && t == s then |chosen| else 0))
    ensures asg == asg0 + Placements(roster, weeks[wi], s, Indices(chosen))
    ensures TakenRecorded(wa, asg, weeks[wi].weekNumber)
  {
    asg, wa := asg0, wa0;
    for j := 0 to |chosen|
      invariant Mirrors(roster, caps, asg) && Sound(roster, weeks, wi + 1, m, asg)
      invariant forall q :: j <= q < |chosen| ==>
        FitsAt(roster[chosen[q].index], asg, UnavailableIn(m, weeks[wi].id), weeks[wi].weekNumber, s)
      invariant Appended(roster, weeks[wi], s, chosen, j, asg0, asg)
      invariant TakenRecorded(wa, asg, weeks[wi].weekNumber)
    {
      asg, wa := AssignNext(roster, caps, m, weeks, wi, s, chosen, j, asg0, asg, wa);
    }
    AppendedAll(roster, weeks[wi], s, chosen, asg0, asg);
    SlotCountPlacements(roster, asg0, weeks[wi], s, Indices(chosen));
  }

  // ---------------------------------------------------------------------
  // Staffing report

  function IssueAt(w: ServiceWeek, asg: seq<Assignment>, s: Service): StaffingIssue
  {
    StaffingIssue(w.weekNumber, w.weekLabel, s, Required(s), SlotCount(asg, w.id, s))
  }

  function SlotIssue(w: ServiceWeek, asg: seq<Assignment>, s: Service): seq<StaffingIssue>
  {
    if SlotCount(asg, w.id, s) < Required(s) then [IssueAt(w, asg, s)] else []
  }

  /** Understaffing entries of week `w` for its first `n` services. */
  function SlotIssuesUpTo(w: ServiceWeek, asg: seq<Assignment>, n: nat): seq<StaffingIssue>
    requires n <= |SERVICE_ORDER|
  {
    if n == 0 then [] else SlotIssuesUpTo(w, asg, n - 1) + SlotIssue(w, asg, SERVICE_ORDER[n - 1])
  }

  /** Understaffing entries of the first `n` weeks, judged on `asg`. */
  function StaffingIssuesUpTo(weeks: seq<ServiceWeek>, n: nat, asg: seq<Assignment>): seq<StaffingIssue>
    requires n <= |weeks|
  {
    if n == 0 then [] else StaffingIssuesUpTo(weeks, n - 1, asg) + SlotIssuesUpTo(weeks[n - 1], asg, |SERVICE_ORDER|)
  }

  /** The staffing report of a whole schedule. */
  function StaffingIssues(weeks: seq<ServiceWeek>, asg: seq<Assignment>): seq<StaffingIssue>
  {
    StaffingIssuesUpTo(weeks, |weeks|, asg)
  }

  lemma {:induction false} SlotIssuesStable(w: ServiceWeek, asg: seq<Assignment>, asg': seq<Assignment>, n: nat)
    requires n <= |SERVICE_ORDER|
    requires forall k :: 0 <= k < n ==> SlotCount(asg', w.id, SERVICE_ORDER[k]) == SlotCount(asg, w.id, SERVICE_ORDER[k])
    ensures SlotIssuesUpTo(w, asg', n) == SlotIssuesUpTo(w, asg, n)
  {
    if n > 0 {
      SlotIssuesStable(w, asg, asg', n - 1);
    }
  }

  lemma {:induction false} StaffingIssuesStable(weeks: seq<ServiceWeek>, n: nat, asg: seq<Assignment>, asg': seq<Assignment>)
    requires n <= |weeks|
    requires forall k, s :: 0 <= k < n ==> SlotCount(asg', weeks[k].id, s) == SlotCount(asg, weeks[k].id, s)
    ensures StaffingIssuesUpTo(weeks, n, asg') == StaffingIssuesUpTo(weeks, n, asg)
  {
    if n > 0 {
      StaffingIssuesStable(weeks, n - 1, asg, asg');
      SlotIssuesStable(weeks[n - 1], asg, asg', |SERVICE_ORDER|);
    }
  }

  // ---------------------------------------------------------------------
  // One week

  /** A schedule sound for the first `n` weeks is sound for any longer prefix. */
  lemma SoundGrows(roster: seq<FacultyProfile>, weeks: seq<ServiceWeek>, n: nat, n': nat,
                   m: map<string, set<string>>, asg: seq<Assignment>)
    requires n <= n' <= |weeks|
    requires Sound(roster, weeks, n, m, asg)
    ensures Sound(roster, weeks, n', m, asg)
  {
    AllPlacedGrows(roster, weeks, n, n', m, asg);
  }

  /** The slots of week `w` up to position `si` of SERVICE_ORDER are within
      their requirement, the later ones still empty. */
  predicate FilledUpTo(w: ServiceWeek, asg: seq<Assignment>, si: nat)
  {
    forall t {:trigger SlotCount(asg, w.id, t)} :: (Position(t) < si ==> SlotCount(asg, w.id, t) <= Required(t))
      && (Position(t) >= si ==> SlotCount(asg, w.id, t) == 0)
  }

  /** Filling the `si`-th service of week `w` with `n` assignments, and
      nothing else, moves the week on by one service: the slot holds `n`,
      and the entries of the services before it are unchanged. */
  lemma SlotStep(w: ServiceWeek, asg0: seq<Assignment>, asg: seq<Assignment>, si: nat, n: nat)
    requires si < |SERVICE_ORDER| && n <= Required(SERVICE_ORDER[si])
    requires FilledUpTo(w, asg0, si)
    requires forall wid, t :: (SlotCount(asg, wid, t) ==
      SlotCount(asg0, wid, t) + (if wid == w.id && t == SERVICE_ORDER[si] then n else 0))
    ensures FilledUpTo(w, asg, si + 1)
    ensures SlotCount(asg, w.id, SERVICE_ORDER[si]) == n
    ensures SlotIssuesUpTo(w, asg, si + 1) == SlotIssuesUpTo(w, asg0, si) + SlotIssue(w, asg, SERVICE_ORDER[si])
  {
    var s := SERVICE_ORDER[si];
    assert Position(s) == si;
    assert forall k :: 0 <= k < si ==> Position(SERVICE_ORDER[k]) == k;
    SlotIssuesStable(w, asg0, asg, si);
  }

  /** One service of one week (the `si`-th of SERVICE_ORDER): the slot is
      filled greedily from the members eligible at that point (as many as
      the service requires, or all of them when fewer are eligible, none of
      lower priority than one left out), the chosen members are appended in
      ranked order, and a slot left short is reported with the number
      actually staffed. Only this slot's count changes. */
  method FillSlot(roster: seq<FacultyProfile>, caps: seq<FacultyCapacity>, m: map<string, set<string>>,
                  weeks: seq<ServiceWeek>, wi: nat, si: nat, draw: (string, Service, string) -> real,
                  asg0: seq<Assignment>, wa0: map<Service, seq<string>>, issues0: seq<StaffingIssue>)
    returns (asg: seq<Assignment>, wa: map<Service, seq<string>>, issues: seq<StaffingIssue>, ghost picked: seq<nat>)
    requires wi < |weeks| && si < |SERVICE_ORDER|
    requires Setup(roster, caps) && Mirrors(roster, caps, asg0) && Sound(roster, weeks, wi + 1, m, asg0)
    requires FilledUpTo(weeks[wi], asg0, si)
    requires TakenRecorded(wa0, asg0, weeks[wi].weekNumber)
    requires issues0 == SlotIssuesUpTo(weeks[wi], asg0, si)
    modifies caps
    ensures Mirrors(roster, caps, asg) && Sound(roster, weeks, wi + 1, m, asg)
    ensures TakenRecorded(wa, asg, weeks[wi].weekNumber)
    ensures forall wid, t :: wid != weeks[wi].id ==> SlotCount(asg, wid, t) == SlotCount(asg0, wid, t)
    ensures FilledUpTo(weeks[wi], asg, si + 1)
    ensures SlotCount(asg, weeks[wi].id, SERVICE_ORDER[si])
      == Min(Required(SERVICE_ORDER[si]), |EligibleSet(roster, asg0, UnavailableIn(m, weeks[wi].id), weeks[wi], SERVICE_ORDER[si])|)
    ensures GreedyFill(roster, UnavailableIn(m, weeks[wi].id), weeks[wi], SERVICE_ORDER[si], asg0, picked)
    ensures forall q :: 0 <= q < |picked| ==> picked[q] < |roster|
    ensures asg == asg0 + Placements(roster, weeks[wi], SERVICE_ORDER[si], picked)
    ensures issues == SlotIssuesUpTo(weeks[wi], asg, si + 1)
  {
    var week := weeks[wi];
    var s := SERVICE_ORDER[si];
    var ranked, chosen := SelectForSlot(caps, UnavailableIn(m, week.id), wa0, week, s, draw);
    SelectionIsGreedy(roster, caps, asg0, UnavailableIn(m, week.id), wa0, week, s, ranked, chosen);
    picked := Indices(chosen);
    asg, wa := AssignSlot(roster, caps, m, weeks, wi, s, chosen, asg0, wa0);
    SlotStep(week, asg0, asg, si, |chosen|);
    issues := issues0;
    if |chosen| < Required(s) {
      issues := issues + [StaffingIssue(week.weekNumber, week.weekLabel, s, Required(s), |chosen|)];
    }
  }

  /** One iteration of the week loop: each service in SERVICE_ORDER is
      filled greedily in turn, the assignments are the week's slots laid
      in that order, and only this week's slots change. */
  method ProcessWeek(roster: seq<FacultyProfile>, caps: seq<FacultyCapacity>, m: map<string, set<string>>,
                     weeks: seq<ServiceWeek>, wi: nat, draw: (string, Service, string) -> real,
                     asg0: seq<Assignment>)
    returns (asg: seq<Assignment>, issues: seq<StaffingIssue>, ghost wp: seq<seq<nat>>)
    requires wi < |weeks|
    requires Setup(roster, caps) && Mirrors(roster, caps, asg0) && Sound(roster, weeks, wi, m, asg0)
    requires forall t :: SlotCount(asg0, weeks[wi].id, t) == 0
    modifies caps
    ensures Mirrors(roster, caps, asg) && Sound(roster, weeks, wi + 1, m, asg)
    ensures forall wid, t :: wid != weeks[wi].id ==> SlotCount(asg, wid, t) == SlotCount(asg0, wid, t)
    ensures forall t {:trigger SlotCount(asg, weeks[wi].id, t)} :: SlotCount(asg, weeks[wi].id, t) <= Required(t)
    ensures WeekGreedy(roster, UnavailableIn(m, weeks[wi].id), weeks[wi], asg0, wp)
    ensures asg == asg0 + WeekLaid(roster, weeks[wi], wp)
    ensures issues == SlotIssuesUpTo(weeks[wi], asg, |SERVICE_ORDER|)
  {
    var wa: map<Service, seq<string>> := map[];
    asg, issues, wp := asg0, [], [];
    SoundGrows(roster, weeks, wi, wi + 1, m, asg);
    ghost var un := UnavailableIn(m, weeks[wi].id);
    for si := 0 to |SERVICE_ORDER|
      invariant Mirrors(roster, caps, asg) && Sound(roster, weeks, wi + 1, m, asg)
      invariant forall wid, t :: wid != weeks[wi].id ==> SlotCount(asg, wid, t) == SlotCount(asg0, wid, t)
      invariant FilledUpTo(weeks[wi], asg, si)
      invariant TakenRecorded(wa, asg, weeks[wi].weekNumber)
      invariant |wp| == si && WeekSoFar(roster, un, weeks[wi], asg0, wp)
      invariant asg == asg0 + WeekLaid(roster, weeks[wi], wp)
      invariant issues == SlotIssuesUpTo(weeks[wi], asg, si)
    {
      ghost var before, wp0 := asg, wp;
      ghost var picked;
      asg, wa, issues, picked := FillSlot(roster, caps, m, weeks, wi, si, draw, asg, wa, issues);
      wp := wp + [picked];
      WeekStep(roster, un, weeks[wi], asg0, before, asg, wp0, picked);
    }
  }

  /** Laying one more greedily filled slot after the week's earlier slots
      keeps the week's record of slots in step with the assignments. */
  lemma WeekStep(roster: seq<FacultyProfile>, unavailable: set<string>, w: ServiceWeek, asg0: seq<Assignment>,
                 before: seq<Assignment>, after: seq<Assignment>, wp: seq<seq<nat>>, picked: seq<nat>)
    requires |wp| < |SERVICE_ORDER| && WeekSoFar(roster, unavailable, w, asg0, wp)
    requires forall q :: 0 <= q < |picked| ==> picked[q] < |roster|
    requires before == asg0 + WeekLaid(roster, w, wp)
    requires GreedyFill(roster, unavailable, w, SERVICE_ORDER[|wp|], before, picked)
    requires after == before + Placements(roster, w, SERVICE_ORDER[|wp|], picked)
    ensures WeekSoFar(roster, unavailable, w, asg0, wp + [picked])
    ensures after == asg0 + WeekLaid(roster, w, wp + [picked])
  {
    WeekLaidStep(roster, w, asg0, wp, picked);
    var wp' := wp + [picked];
    assert wp'[..|wp|] == wp && wp'[|wp|] == picked;
  }

  /** One more slot's picks lay that slot's placements after the earlier
      slots'. */
  lemma WeekLaidStep(roster: seq<FacultyProfile>, w: ServiceWeek, asg0: seq<Assignment>, wp: seq<seq<nat>>, picked: seq<nat>)
    requires |wp| < |SERVICE_ORDER| && PicksIn(roster, wp)
    requires forall q :: 0 <= q < |picked| ==> picked[q] < |roster|
    ensures PicksIn(roster, wp + [picked])
    ensures asg0 + WeekLaid(roster, w, wp + [picked])
      == (asg0 + WeekLaid(roster, w, wp)) + Placements(roster, w, SERVICE_ORDER[|wp|], picked)
  {
    var wp' := wp + [picked];
    var slot := Placements(roster, w, SERVICE_ORDER[|wp|], picked);
    assert wp'[..|wp|] == wp && wp'[|wp|] == picked;
    assert PicksIn(roster, wp');
    assert WeekLaid(roster, w, wp') == WeekLaid(roster, w, wp) + slot;
  }

  // ---------------------------------------------------------------------
  // Reports over the finished schedule

  /** Every understaffing entry of week `w` (first `n` services) is that
      week's entry for its service and records a shortfall; a service among
      the first `n` has an entry exactly when its slot is short. */
  lemma {:induction false} WeekIssuesIff(w: ServiceWeek, asg: seq<Assignment>, n: nat)
    requires n <= |SERVICE_ORDER|
    ensures forall e :: (e in SlotIssuesUpTo(w, asg, n) ==>
      e == IssueAt(w, asg, e.service) && Position(e.service) < n && e.staffed < e.required)
    ensures forall s :: (Position(s) < n ==>
      (IssueAt(w, asg, s) in SlotIssuesUpTo(w, asg, n) <==> SlotCount(asg, w.id, s) < Required(s)))
  {
    if n > 0 {
      WeekIssuesIff(w, asg, n - 1);
      var s := SERVICE_ORDER[n - 1];
      assert Position(s) == n - 1;
    }
  }

  /** Every entry of the staffing report is the entry of one of the weeks
      for its service, and records a shortfall. */
  lemma {:induction false} StaffingIssueFrom(weeks: seq<ServiceWeek>, n: nat, asg: seq<Assignment>, e: StaffingIssue)
    returns (k: nat)
    requires n <= |weeks| && e in StaffingIssuesUpTo(weeks, n, asg)
    ensures k < n && e == IssueAt(weeks[k], asg, e.service) && e.staffed < e.required
  {
    WeekIssuesIff(weeks[n - 1], asg, |SERVICE_ORDER|);
    if e in StaffingIssuesUpTo(weeks, n - 1, asg) {
      k := StaffingIssueFrom(weeks, n - 1, asg, e);
    } else {
      k := n - 1;
    }
  }

  /** Every short slot of the first `n` weeks is in the staffing report. */
  lemma {:induction false} ShortSlotReported(weeks: seq<ServiceWeek>, n: nat, asg: seq<Assignment>, k: nat, s: Service)
    requires k < n <= |weeks| && SlotCount(asg, weeks[k].id, s) < Required(s)
    ensures IssueAt(weeks[k], asg, s) in StaffingIssuesUpTo(weeks, n, asg)
  {
    if k < n - 1 {
      ShortSlotReported(weeks, n - 1, asg, k, s);
    } else {
      WeekIssuesIff(weeks[k], asg, |SERVICE_ORDER|);
    }
  }

  function Abs(x: int): nat { if x < 0 then -x else x }

  /** The variance check: a positive target missed by more than one week
      either way. */
  predicate Flagged(target: int, count: int)
  {
    target > 0 && Abs(count - target) > 1
  }

  function IssueFor(f: FacultyProfile, asg: seq<Assignment>, s: Service): CapacityIssue
  {
    var target := TargetOf(f, s);
    var count := CountOf(asg, f.id, s);
    CapacityIssue(f.id, f.name, s, target, count, count - target)
  }

  /** Variance entries of one faculty member, first `n` services. */
  function FacultyVarianceUpTo(f: FacultyProfile, asg: seq<Assignment>, n: nat): seq<CapacityIssue>
    requires n <= |SERVICE_ORDER|
  {
    if n == 0 then []
    else
      var s := SERVICE_ORDER[n - 1];
      FacultyVarianceUpTo(f, asg, n - 1)
        + (if Flagged(TargetOf(f, s), CountOf(asg, f.id, s)) then [IssueFor(f, asg, s)] else [])
  }

  /** Variance entries of the first `n` roster members. */
  function VarianceIssuesUpTo(roster: seq<FacultyProfile>, asg: seq<Assignment>, n: nat): seq<CapacityIssue>
    requires n <= |roster|
  {
    if n == 0 then []
    else VarianceIssuesUpTo(roster, asg, n - 1) + FacultyVarianceUpTo(roster[n - 1], asg, |SERVICE_ORDER|)
  }

  function VarianceIssues(roster: seq<FacultyProfile>, asg: seq<Assignment>): seq<CapacityIssue>
  {
    VarianceIssuesUpTo(roster, asg, |roster|)
  }

  lemma {:induction false} FacultyVarianceIff(f: FacultyProfile, asg: seq<Assignment>, n: nat)
    requires n <= |SERVICE_ORDER|
    ensures forall e :: (e in FacultyVarianceUpTo(f, asg, n) ==>
      e == IssueFor(f, asg, e.service) && Flagged(e.target, e.count))
    ensures forall s :: (Position(s) < n ==>
      (IssueFor(f, asg, s) in FacultyVarianceUpTo(f, asg, n) <==> Flagged(TargetOf(f, s), CountOf(asg, f.id, s))))
  {
    if n > 0 {
      FacultyVarianceIff(f, asg, n - 1);
      assert Position(SERVICE_ORDER[n - 1]) == n - 1;
    }
  }

  /** The capacity report lists exactly the flagged (faculty, service)
      pairs, each with variance = count - target. */
  lemma {:induction false} VarianceIssueIff(roster: seq<FacultyProfile>, asg: seq<Assignment>, n: nat)
    requires n <= |roster| && DistinctIds(roster)
    ensures forall e :: (e in VarianceIssuesUpTo(roster, asg, n) ==>
      (exists k :: 0 <= k < n && e == IssueFor(roster[k], asg, e.service))
      && Flagged(e.target, e.count) && e.variance == e.count - e.target)
    ensures forall k, s :: (0 <= k < n ==>
      (IssueFor(roster[k], asg, s) in VarianceIssuesUpTo(roster, asg, n) <==>
       Flagged(TargetOf(roster[k], s), CountOf(asg, roster[k].id, s))))
  {
    if n > 0 {
      VarianceIssueIff(roster, asg, n - 1);
      var f := roster[n - 1];
      FacultyVarianceIff(f, asg, |SERVICE_ORDER|);
      forall e | e in VarianceIssuesUpTo(roster, asg, n)
        ensures (exists k :: 0 <= k < n && e == IssueFor(roster[k], asg, e.service))
      {
        if e !in VarianceIssuesUpTo(roster, asg, n - 1) {
          assert e == IssueFor(roster[n - 1], asg, e.service);
        }
      }
      forall e | e in VarianceIssuesUpTo(roster, asg, n - 1) ensures e.facultyId != f.id {
        var k :| 0 <= k < n - 1 && e == IssueFor(roster[k], asg, e.service);
      }
    }
  }

  /** Under the target + 1 ceiling the report can only flag under-assignment:
      every reported variance is -2 or less. */
  lemma VarianceUnderOnly(roster: seq<FacultyProfile>, asg: seq<Assignment>)
    requires DistinctIds(roster) && WithinCapacity(roster, asg)
    ensures forall e :: e in VarianceIssues(roster, asg) ==> e.variance <= -2
  {
    VarianceIssueIff(roster, asg, |roster|);
    forall e | e in VarianceIssues(roster, asg) ensures e.variance <= -2 {
      var k :| 0 <= k < |roster| && e == IssueFor(roster[k], asg, e.service);
    }
  }

  /** The capacity variance pass over the trackers, faculty in roster order
      and services in SERVICE_ORDER: it reports what VarianceIssues
      describes for the assignments the trackers mirror. */
  method CapacityReport(roster: seq<FacultyProfile>, caps: seq<FacultyCapacity>, asg: seq<Assignment>)
    returns (issues: seq<CapacityIssue>)
    requires Setup(roster, caps) && Mirrors(roster, caps, asg)
    ensures issues == VarianceIssues(roster, asg)
  {
    issues := [];
    for i := 0 to |caps|
      invariant issues == VarianceIssuesUpTo(roster, asg, i)
    {
      var cap := caps[i];
      ghost var done := issues;
      for si := 0 to |SERVICE_ORDER|
        invariant issues == done + FacultyVarianceUpTo(roster[i], asg, si)
      {
        var s := SERVICE_ORDER[si];
        var target := cap.Target(s);
        var count := cap.Assigned(s);
        if target > 0 {
          var diff := count - target;
          if Abs(diff) > 1 {
            issues := issues + [CapacityIssue(cap.facultyId, cap.name, s, target, count, diff)];
          }
        }
      }
    }
  }

  /** The per-service counts of the result summary. */
  function SummaryOf(asg: seq<Assignment>): Summary
  {
    Summary(ServiceTotal(asg, MICU), ServiceTotal(asg, AppIcu), ServiceTotal(asg, Procedures), ServiceTotal(asg, Consults))
  }

  /** The four summary counts add up to the number of assignments created. */
  lemma {:induction false} SummaryAddsUp(asg: seq<Assignment>)
    ensures SummaryOf(asg).micu + SummaryOf(asg).appIcu + SummaryOf(asg).procedures + SummaryOf(asg).consults == |asg|
  {
    if asg != [] {
      SummaryAddsUp(asg[..|asg| - 1]);
    }
  }

  /** A faculty member's assignments split over the four services. */
  lemma {:induction false} FacultyCountSplits(asg: seq<Assignment>, fid: string)
    ensures FacultyCount(asg, fid)
      == CountOf(asg, fid, MICU) + CountOf(asg, fid, AppIcu) + CountOf(asg, fid, Procedures) + CountOf(asg, fid, Consults)
  {
    if asg != [] {
      FacultyCountSplits(asg[..|asg| - 1], fid);
    }
  }

  /** get_total_assigned of a tracker is the number of assignments made to
      its faculty member. */
  lemma TotalAssignedIsAssignmentCount(roster: seq<FacultyProfile>, caps: seq<FacultyCapacity>,
                                       asg: seq<Assignment>, i: nat)
    requires Mirrors(roster, caps, asg) && i < |caps|
    ensures caps[i].TotalAssigned() == FacultyCount(asg, roster[i].id)
  {
    FacultyCountSplits(asg, roster[i].id);
    assert caps[i].micuAssigned == caps[i].Assigned(MICU) && caps[i].appIcuAssigned == caps[i].Assigned(AppIcu);
    assert caps[i].proceduresAssigned == caps[i].Assigned(Procedures) && caps[i].consultsAssigned == caps[i].Assigned(Consults);
  }

  /** Since week numbers come from the weeks, spacing also rules out two
      services for one faculty member in one week. */
  lemma OneServicePerWeek(weeks: seq<ServiceWeek>, asg: seq<Assignment>)
    requires DistinctWeekIds(weeks) && NoBackToBack(asg)
    requires forall i :: 0 <= i < |asg| ==> InWeeks(weeks, |weeks|, asg[i])
    ensures forall i, j :: (0 <= i < j < |asg| && asg[i].facultyId == asg[j].facultyId ==>
      asg[i].weekId != asg[j].weekId)
  {
    forall i, j | 0 <= i < j < |asg| && asg[i].facultyId == asg[j].facultyId
      ensures asg[i].weekId != asg[j].weekId
    {
      var ki :| 0 <= ki < |weeks| && weeks[ki].id == asg[i].weekId && weeks[ki].weekNumber == asg[i].weekNumber;
      var kj :| 0 <= kj < |weeks| && weeks[kj].id == asg[j].weekId && weeks[kj].weekNumber == asg[j].weekNumber;
      assert ki != kj ==> weeks[ki].id != weeks[kj].id;
    }
  }

  // ---------------------------------------------------------------------
  // The whole run

  /** The weeks before `wi` are within their requirements, the rest empty. */
  predicate WeeksFilledUpTo(weeks: seq<ServiceWeek>, asg: seq<Assignment>, wi: nat)
  {
    forall k, t {:trigger SlotCount(asg, weeks[k].id, t)} :: 0 <= k < |weeks| ==>
      (k < wi ==> SlotCount(asg, weeks[k].id, t) <= Required(t))
      && (wi <= k ==> SlotCount(asg, weeks[k].id, t) == 0)
  }

  /** Processes week `wi` after the weeks before it: the week is filled
      greedily on top of the assignments so far, the slots of the weeks
      done stay within their requirements, the weeks after it stay empty,
      and the staffing report grows by this week's entries. */
  method NextWeek(roster: seq<FacultyProfile>, caps: seq<FacultyCapacity>, m: map<string, set<string>>,
                  weeks: seq<ServiceWeek>, wi: nat, draw: (string, Service, string) -> real,
                  asg0: seq<Assignment>, issues0: seq<StaffingIssue>)
    returns (asg: seq<Assignment>, issues: seq<StaffingIssue>, ghost wp: seq<seq<nat>>)
    requires wi < |weeks| && DistinctWeekIds(weeks)
    requires Setup(roster, caps) && Mirrors(roster, caps, asg0) && Sound(roster, weeks, wi, m, asg0)
    requires WeeksFilledUpTo(weeks, asg0, wi)
    requires issues0 == StaffingIssuesUpTo(weeks, wi, asg0)
    modifies caps
    ensures Mirrors(roster, caps, asg) && Sound(roster, weeks, wi + 1, m, asg)
    ensures WeeksFilledUpTo(weeks, asg, wi + 1)
    ensures WeekGreedy(roster, UnavailableIn(m, weeks[wi].id), weeks[wi], asg0, wp)
    ensures asg == asg0 + WeekLaid(roster, weeks[wi], wp)
    ensures issues == StaffingIssuesUpTo(weeks, wi + 1, asg)
  {
    var weekIssues;
    asg, weekIssues, wp := ProcessWeek(roster, caps, m, weeks, wi, draw, asg0);
    assert forall k :: 0 <= k < |weeks| && k != wi ==> weeks[k].id != weeks[wi].id;
    StaffingIssuesStable(weeks, wi, asg0, asg);
    issues := issues0 + weekIssues;
  }

  /** Adding one greedily filled week after the weeks before it extends a
      greedy run. */
  lemma RunStep(roster: seq<FacultyProfile>, requests: seq<UnavailabilityRequest>, year: int,
                weeks: seq<ServiceWeek>, picks: seq<seq<seq<nat>>>, wp: seq<seq<nat>>,
                before: seq<Assignment>, after: seq<Assignment>)
    requires |picks| < |weeks| && GreedyRun(roster, requests, year, weeks, picks)
    requires before == Laid(roster, weeks, picks)
    requires WeekGreedy(roster, UnavailableSet(requests, year, weeks[|picks|].id), weeks[|picks|], before, wp)
    requires after == before + WeekLaid(roster, weeks[|picks|], wp)
    ensures GreedyRun(roster, requests, year, weeks, picks + [wp])
    ensures after == Laid(roster, weeks, picks + [wp])
  {
    var picks' := picks + [wp];
    assert picks'[..|picks|] == picks;
    assert WeekShaped(roster, picks');
  }

  /** The week loop of generate_schedule over fresh trackers: weeks in the
      given order, each filled greedily on top of the weeks before it. */
  method AssignWeeks(roster: seq<FacultyProfile>, caps: seq<FacultyCapacity>, m: map<string, set<string>>,
                     weeks: seq<ServiceWeek>, draw: (string, Service, string) -> real,
                     ghost requests: seq<UnavailabilityRequest>, ghost year: int)
    returns (asg: seq<Assignment>, issues: seq<StaffingIssue>, ghost picks: seq<seq<seq<nat>>>)
    requires DistinctWeekIds(weeks)
    requires Setup(roster, caps) && Mirrors(roster, caps, [])
    requires forall wid :: UnavailableIn(m, wid) == UnavailableSet(requests, year, wid)
    modifies caps
    ensures Mirrors(roster, caps, asg) && Sound(roster, weeks, |weeks|, m, asg)
    ensures SlotsWithinRequirement(weeks, asg)
    ensures issues == StaffingIssues(weeks, asg)
    ensures |picks| == |weeks| && GreedyRun(roster, requests, year, weeks, picks)
    ensures asg == Laid(roster, weeks, picks)
  {
    asg, issues, picks := [], [], [];
    assert forall k, t :: SlotCount(asg, k, t) == 0;
    for wi := 0 to |weeks|
      invariant Mirrors(roster, caps, asg) && Sound(roster, weeks, wi, m, asg)
      invariant WeeksFilledUpTo(weeks, asg, wi)
      invariant issues == StaffingIssuesUpTo(weeks, wi, asg)
      invariant |picks| == wi && GreedyRun(roster, requests, year, weeks, picks)
      invariant asg == Laid(roster, weeks, picks)
    {
      ghost var before := asg;
      ghost var wp;
      asg, issues, wp := NextWeek(roster, caps, m, weeks, wi, draw, asg, issues);
      RunStep(roster, requests, year, weeks, picks, wp, before, asg);
      picks := picks + [wp];
    }
  }

  /** What a sound schedule over all the weeks means, the unavailability
      index being the one the requests build. */
  lemma SoundMeans(roster: seq<FacultyProfile>, weeks: seq<ServiceWeek>, requests: seq<UnavailabilityRequest>,
                   year: int, m: map<string, set<string>>, asg: seq<Assignment>)
    requires Sound(roster, weeks, |weeks|, m, asg)
    requires forall wid, fid :: (fid in UnavailableIn(m, wid) <==> MarkedBy(requests, |requests|, year, wid, fid))
    ensures NoBackToBack(asg) && WithinCapacity(roster, asg)
    ensures forall i :: 0 <= i < |asg| ==> InRoster(roster, asg[i].facultyId) && InWeeks(weeks, |weeks|, asg[i])
    ensures RespectsRequests(requests, year, asg)
  {
    SpacedIsNoBackToBack(asg);
    AllPlacedMeans(roster, weeks, |weeks|, m, asg);
    forall i, j | 0 <= i < |asg| && 0 <= j < |requests|
      ensures !Marks(requests[j], year, asg[i].weekId, asg[i].facultyId)
    {
      assert Placed(roster, weeks, |weeks|, m, asg[i]);
      assert !MarkedBy(requests, |requests|, year, asg[i].weekId, asg[i].facultyId);
    }
  }

  /** generate_schedule: no weeks gives the "no weeks" failure; otherwise
      every assignment is for a roster member in one of the year's weeks,
      spaced at least one week apart per member, within target + 1, never
      in a week the member asked off, and no slot over its requirement; the
      staffing report lists exactly the short slots, the capacity report
      exactly the (member, service) pairs off target by more than one week,
      and the summary counts the assignments per service. */
  method GenerateSchedule(roster: seq<FacultyProfile>, weeks: seq<ServiceWeek>,
                          requests: seq<UnavailabilityRequest>, year: int,
                          draw: (string, Service, string) -> real)
    returns (out: Outcome, ghost picks: seq<seq<seq<nat>>>)
    requires DistinctIds(roster) && DistinctWeekIds(weeks)
    ensures out.NoWeeks? <==> |weeks| == 0
    ensures out.NoWeeks? ==> out == NoWeeks(year) && AssignmentsCreated(out) == 0
    ensures out.Generated? ==> out.year == year && out.totalWeeks == |weeks|
    ensures out.Generated? ==> NoBackToBack(out.assignments) && WithinCapacity(roster, out.assignments)
    ensures out.Generated? ==> forall i :: 0 <= i < |out.assignments| ==>
      InRoster(roster, out.assignments[i].facultyId) && InWeeks(weeks, |weeks|, out.assignments[i])
    ensures out.Generated? ==> RespectsRequests(requests, year, out.assignments)
    ensures out.Generated? ==> SlotsWithinRequirement(weeks, out.assignments)
    ensures out.Generated? ==> out.staffingIssues == StaffingIssues(weeks, out.assignments)
    ensures out.Generated? ==> out.capacityIssues == VarianceIssues(roster, out.assignments)
    ensures out.Generated? ==> out.summary == SummaryOf(out.assignments)
    ensures out.Generated? ==> |picks| == |weeks| && GreedyRun(roster, requests, year, weeks, picks)
    ensures out.Generated? ==> out.assignments == Laid(roster, weeks, picks)
  {
    if |weeks| == 0 {
      return NoWeeks(year), [];
    }
    var m := BuildUnavailability(requests, year);
    UnavailableSetIsIndex(requests, year, m);
    var caps := NewCapacities(roster);
    var asg, issues;
    asg, issues, picks := AssignWeeks(roster, caps, m, weeks, draw, requests, year);
    var capacityIssues := CapacityReport(roster, caps, asg);
    var summary := SummaryOf(asg);
    SoundMeans(roster, weeks, requests, year, m, asg);
    out := Generated(year, |weeks|, asg, issues, capacityIssues, summary);
  }
}
