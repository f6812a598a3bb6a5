/** The four inpatient services, their weekly headcount, and the per-faculty
    capacity tracker the generator updates as it assigns. */
module Capacity {

  datatype Service = MICU | AppIcu | Procedures | Consults

  /** The order the generator fills services in within a week (the
      insertion order of SERVICE_REQUIREMENTS). */
  const SERVICE_ORDER: seq<Service> := [MICU, AppIcu, Procedures, Consults]

  /** SERVICE_REQUIREMENTS: faculty needed per week for each service. */
  function Required(s: Service): (n: nat)
    ensures 1 <= n <= 2
    ensures n == 2 <==> s == MICU
  {
    match s
    case MICU => 2
    case AppIcu => 1
    case Procedures => 1
    case Consults => 1
  }

  /** Where a service comes in SERVICE_ORDER: every service is there, once. */
  function Position(s: Service): (k: nat)
    ensures k < |SERVICE_ORDER| && SERVICE_ORDER[k] == s
    ensures forall j :: 0 <= j < |SERVICE_ORDER| && SERVICE_ORDER[j] == s ==> j == k
  {
    match s
    case MICU => 0
    case AppIcu => 1
    case Procedures => 2
    case Consults => 3
  }

  /** `max(1, target)` as a positive real. */
  function Scale(target: int): (d: real)
    ensures d >= 1.0
  {
    if target > 1 then target as real else 1.0
  }

  /** The priority score: how far behind target a faculty member is,
      normalised by the target; -1000 when the target is zero. Exact
      rational arithmetic stands for Python's float division. */
  function Priority(target: int, count: int): real
  {
    if target == 0 then -1000.0 else (target - count) as real / Scale(target)
  }

  /** A faculty member who may still take the service scores between 0 and 1. */
  lemma PriorityOfEligible(target: int, count: int)
    requires 0 < target && 0 <= count < target + 1
    ensures 0.0 <= Priority(target, count) <= 1.0
    ensures Priority(target, count) == 0.0 <==> count == target
  {
    var d := Scale(target);
    assert d == target as real;
    var p := (target - count) as real / d;
    assert p * d == (target - count) as real;
  }

  /** For a fixed positive target, each extra assignment lowers the score. */
  lemma {:induction false} PriorityFallsWithAssignments(target: int, a1: int, a2: int)
    requires target > 0 && a1 < a2
    ensures Priority(target, a1) > Priority(target, a2)
  {
    var d := Scale(target);
    var p1 := (target - a1) as real / d;
    var p2 := (target - a2) as real / d;
    assert p1 * d == (target - a1) as real;
    assert p2 * d == (target - a2) as real;
    assert (p1 - p2) * d == (a2 - a1) as real;
  }

  /** A zero target ranks below everyone who has a positive target and has
      not gone past the target + 1 ceiling. */
  lemma NoTargetRanksLast(target: int, count: int, other: int)
    requires 0 < target && 0 <= count <= target + 1
    ensures Priority(0, other) < Priority(target, count)
  {
    var d := Scale(target);
    var p := (target - count) as real / d;
    assert p * d == (target - count) as real;
    assert p * d >= -1.0;
  }

  /** FacultyCapacity: targets are fixed for the run, the four counters and
      the set of assigned week numbers are updated by Assign. */
  class FacultyCapacity {
    const facultyId: string
    const name: string
    const micuTarget: int
    const appIcuTarget: int
    const proceduresTarget: int
    const consultsTarget: int
    var micuAssigned: int
    var appIcuAssigned: int
    var proceduresAssigned: int
    var consultsAssigned: int
    var assignedWeeks: set<int>

    constructor (facultyId: string, name: string, micuTarget: int, appIcuTarget: int,
                 proceduresTarget: int, consultsTarget: int)
      ensures this.facultyId == facultyId && this.name == name
      ensures this.micuTarget == micuTarget && this.appIcuTarget == appIcuTarget
      ensures this.proceduresTarget == proceduresTarget && this.consultsTarget == consultsTarget
      ensures forall s :: Assigned(s) == 0
      ensures assignedWeeks == {}
    {
      this.facultyId := facultyId;
      this.name := name;
      this.micuTarget := micuTarget;
      this.appIcuTarget := appIcuTarget;
      this.proceduresTarget := proceduresTarget;
      this.consultsTarget := consultsTarget;
      micuAssigned, appIcuAssigned, proceduresAssigned, consultsAssigned := 0, 0, 0, 0;
      assignedWeeks := {};
    }

    function Target(s: Service): int
    {
      match s
      case MICU => micuTarget
      case AppIcu => appIcuTarget
      case Procedures => proceduresTarget
      case Consults => consultsTarget
    }

    function Assigned(s: Service): int
      reads this
    {
      match s
      case MICU => micuAssigned
      case AppIcu => appIcuAssigned
      case Procedures => proceduresAssigned
      case Consults => consultsAssigned
    }

    /** Capacity check with +1 flexibility: a zero target never qualifies,
        and one more week must keep the count within target + 1. */
    function CanWorkService(s: Service): (r: bool)
      reads this
      ensures r ==> Target(s) >= 1 && Assigned(s) + 1 <= Target(s) + 1
      ensures Target(s) >= 1 && Assigned(s) <= Target(s) ==> r
    {
      match s
      case MICU => micuTarget > 0 && micuAssigned < micuTarget + 1
      case AppIcu => appIcuTarget > 0 && appIcuAssigned < appIcuTarget + 1
      case Procedures => proceduresTarget > 0 && proceduresAssigned < proceduresTarget + 1
      case Consults => consultsTarget > 0 && consultsAssigned < consultsTarget + 1
    }

    /** The no-back-to-back rule: the week is free only when no assigned week
        lies within one week of it (the week itself included). */
    function CanWorkWeek(week: int): (r: bool)
      reads this
      ensures r <==> forall x :: x in assignedWeeks ==> x < week - 1 || week + 1 < x
    {
      if week - 1 in assignedWeeks then false
      else if week + 1 in assignedWeeks then false
      else if week in assignedWeeks then false
      else true
    }

    /** Still short of the lower flexibility bound: holds exactly when the
        end-of-run variance report would flag this service as under-assigned. */
    function NeedsMoreWeeks(s: Service): (r: bool)
      reads this
      ensures r <==> Target(s) > 0 && Assigned(s) - Target(s) < -1
    {
      match s
      case MICU => micuTarget > 0 && micuAssigned < Max0(micuTarget - 1)
      case AppIcu => appIcuTarget > 0 && appIcuAssigned < Max0(appIcuTarget - 1)
      case Procedures => proceduresTarget > 0 && proceduresAssigned < Max0(proceduresTarget - 1)
      case Consults => consultsTarget > 0 && consultsAssigned < Max0(consultsTarget - 1)
    }

    /** Records one assignment: exactly the counter of `s` goes up by one and
        the week joins the assigned weeks. */
    method Assign(s: Service, week: int)
      modifies this
      ensures Assigned(s) == old(Assigned(s)) + 1
      ensures forall t :: t != s ==> Assigned(t) == old(Assigned(t))
      ensures assignedWeeks == old(assignedWeeks) + {week}
    {
      match s {
        case MICU => micuAssigned := micuAssigned + 1;
        case AppIcu => appIcuAssigned := appIcuAssigned + 1;
        case Procedures => proceduresAssigned := proceduresAssigned + 1;
        case Consults => consultsAssigned := consultsAssigned + 1;
      }
      assignedWeeks := assignedWeeks + {week};
    }

    /** The priority score for `s`; between 0 and 1 while the faculty member
        may still take the service, -1000 for a zero target. */
    function PriorityScore(s: Service): (r: real)
      reads this
      ensures Target(s) == 0 ==> r == -1000.0
      ensures Target(s) > 0 && 0 <= Assigned(s) <= Target(s) ==> 0.0 <= r <= 1.0
    {
      var p := Priority(Target(s), Assigned(s));
      if Target(s) > 0 && 0 <= Assigned(s) <= Target(s) then PriorityOfEligible(Target(s), Assigned(s)); p else p
    }

    /** Total target weeks: zero exactly when the member is eligible for no
        service (targets being non-negative). */
    function TotalTarget(): (r: int)
      ensures (forall s :: Target(s) >= 0) ==> (r == 0 <==> forall s :: Target(s) == 0)
    {
      assert Target(MICU) == micuTarget && Target(AppIcu) == appIcuTarget;
      assert Target(Procedures) == proceduresTarget && Target(Consults) == consultsTarget;
      micuTarget + appIcuTarget + proceduresTarget + consultsTarget
    }

    function TotalAssigned(): int
      reads this
    {
      micuAssigned + appIcuAssigned + proceduresAssigned + consultsAssigned
    }
  }

  function Max0(n: int): int { if n > 0 then n else 0 }
}
