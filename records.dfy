/** The stored records the scheduling core reads: service weeks and the
    faculty's unavailability/availability requests. Rows come from the
    database; here they are plain values handed in by the caller. */
module Records {

  datatype Option<+T> = None | Some(value: T) {
    /** Python's `x or default` for an optional column. */
    function GetOr(default: T): T
    {
      match this
      case Some(v) => v
      case None => default
    }
  }

  /** The `week_type` tag of a service week. */
  datatype WeekType = Regular | Summer | SpringBreak | Thanksgiving | Christmas

  /** One row of the service-week table; dates are day ordinals. */
  datatype ServiceWeek = ServiceWeek(
    id: string,
    weekNumber: int,
    weekLabel: string,
    startDate: int,
    endDate: int,
    year: int,
    weekType: WeekType,
    pointCostOff: int,
    pointRewardWork: int,
    minStaffRequired: int)

  /** One stored request: `status` is free text in the table, normally
      "unavailable" or "available". */
  datatype UnavailabilityRequest = UnavailabilityRequest(
    facultyId: string,
    weekId: string,
    status: string,
    pointsSpent: int,
    pointsEarned: int)

  const UNAVAILABLE: string := "unavailable"
  const AVAILABLE: string := "available"

  /** The number of stored "unavailable" requests for a week: the
      `count(...)` query both the listing and the submission use. */
  function UnavailableCount(rows: seq<UnavailabilityRequest>, weekId: string): (n: nat)
    ensures n <= |rows|
    ensures n == 0 <==> forall i :: 0 <= i < |rows| ==> !(rows[i].weekId == weekId && rows[i].status == UNAVAILABLE)
  {
    if rows == [] then 0
    else
      var last := rows[|rows| - 1];
      assert forall i :: 0 <= i < |rows| - 1 ==> rows[..|rows| - 1][i] == rows[i];
      UnavailableCount(rows[..|rows| - 1], weekId)
        + (if last.weekId == weekId && last.status == UNAVAILABLE then 1 else 0)
  }
}
