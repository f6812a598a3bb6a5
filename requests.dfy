/** Submission of a faculty member's batch of week requests: each request
    is checked and priced on the server, the totals are checked against the
    member's point balance, and the member's stored requests are replaced
    by the batch only when all of it is accepted. */
module ServiceRequests {
  import opened Text
  import opened Records
  import opened Pricing

  /** One entry of a submitted batch; the points a client sends along are
      ignored and recomputed. */
  datatype RequestInput = RequestInput(weekId: string, status: string, pointsSpent: int, pointsEarned: int)

  /** The submitting member's point balance. */
  datatype Member = Member(id: string, name: string, basePoints: int, bonusPoints: Option<int>)

  datatype SubmitError =
    | WeekNotFound(weekId: string)
    | InvalidStatus(status: string)
    | WeekFull(weekNumber: int, weekLabel: string)
    | InsufficientPoints(available: int, needed: int)

  /** The server's verdict on one request: its week and points, or why it
      is refused. */
  datatype Checked = Accepted(week: ServiceWeek, spent: int, earned: int) | Refused(error: SubmitError)

  datatype SubmitResult =
    | Submitted(created: seq<UnavailabilityRequest>, totalRequests: nat, pointsSpent: int,
                pointsEarned: int, remainingPoints: int, table: seq<UnavailabilityRequest>)
    | Rejected(error: SubmitError)

  /** `filter_by(id=...).first()` over the weeks. */
  function FindWeek(weeks: seq<ServiceWeek>, id: string): (r: Option<ServiceWeek>)
    ensures r.None? <==> forall k :: 0 <= k < |weeks| ==> weeks[k].id != id
    ensures r.Some? ==> r.value.id == id && r.value in weeks
  {
    if weeks == [] then None
    else if weeks[0].id == id then Some(weeks[0])
    else
      var rest := weeks[1..];
      assert forall k :: 0 <= k < |rest| ==> rest[k] == weeks[k + 1];
      FindWeek(rest, id)
  }

  /** The stored requests left once the member's own are deleted, in order. */
  function OthersRows(stored: seq<UnavailabilityRequest>, fid: string): (r: seq<UnavailabilityRequest>)
    ensures forall x :: x in r <==> x in stored && x.facultyId != fid
  {
    if stored == [] then []
    else
      var init := stored[..|stored| - 1];
      var last := stored[|stored| - 1];
      assert stored == init + [last];
      OthersRows(init, fid) + (if last.facultyId != fid then [last] else [])
  }

  /** The checks and prices of one request, in the order the server makes
      them: the week must exist, the status must be "unavailable" or
      "available", and a week off needs a free spot among the other
      members' requests. A week off costs the demand price and earns
      nothing; offering to work costs nothing and earns the week's reward. */
  function Check(req: RequestInput, weeks: seq<ServiceWeek>, others: seq<UnavailabilityRequest>): Checked
  {
    match FindWeek(weeks, req.weekId)
    case None => Refused(WeekNotFound(req.weekId))
    case Some(w) =>
      if req.status != UNAVAILABLE && req.status != AVAILABLE then Refused(InvalidStatus(req.status))
      else if req.status == UNAVAILABLE then
        var current := UnavailableCount(others, req.weekId);
        if current >= MAX_CAPACITY then Refused(WeekFull(w.weekNumber, w.weekLabel))
        else Accepted(w, DynamicCost(w.pointCostOff, current), 0)
      else Accepted(w, 0, w.pointRewardWork)
  }

  /** What Check decides: an accepted request has a valid status and its own
      week, a week off is below capacity and pays at most the 15-point tier
      and never the surcharge of a full week, and each refusal happens
      exactly in its own case. */
  lemma CheckRules(req: RequestInput, weeks: seq<ServiceWeek>, others: seq<UnavailabilityRequest>)
    ensures var c := Check(req, weeks, others);
      var current := UnavailableCount(others, req.weekId);
      && (c.Accepted? ==>
            && FindWeek(weeks, req.weekId) == Some(c.week)
            && (req.status == UNAVAILABLE || req.status == AVAILABLE)
            && (req.status == UNAVAILABLE ==>
                  current < MAX_CAPACITY && c.earned == 0
                  && c.spent == DynamicCost(c.week.pointCostOff, current)
                  && c.week.pointCostOff <= c.spent <= c.week.pointCostOff + 15)
            && (req.status == AVAILABLE ==> c.spent == 0 && c.earned == c.week.pointRewardWork))
      && (c == Refused(WeekNotFound(req.weekId)) <==> FindWeek(weeks, req.weekId).None?)
      && (c.Refused? && c.error.InvalidStatus? <==>
            FindWeek(weeks, req.weekId).Some? && req.status != UNAVAILABLE && req.status != AVAILABLE)
      && (c.Refused? && c.error.WeekFull? <==>
            FindWeek(weeks, req.weekId).Some? && req.status == UNAVAILABLE && current >= MAX_CAPACITY)
  {
  }

  /** The stored row for one request (zero points for a refused one, which
      is never stored). */
  function RowFor(fid: string, req: RequestInput, c: Checked): UnavailabilityRequest
  {
    match c
    case Accepted(_, spent, earned) => UnavailabilityRequest(fid, req.weekId, req.status, spent, earned)
    case Refused(_) => UnavailabilityRequest(fid, req.weekId, req.status, 0, 0)
  }

  /** The rows a request's count query sees: the other members' stored
      rows and, when the session flushes pending objects before a query,
      the rows this batch has already added. */
  function Visible(others: seq<UnavailabilityRequest>, pending: seq<UnavailabilityRequest>,
                   flushed: bool): seq<UnavailabilityRequest>
  {
    if flushed then others + pending else others
  }

  /** The rows the batch would store, one per request, in order, each
      checked against the rows visible when the loop reaches it. */
  function PlannedRows(fid: string, batch: seq<RequestInput>, weeks: seq<ServiceWeek>,
                       others: seq<UnavailabilityRequest>, flushed: bool): (r: seq<UnavailabilityRequest>)
    ensures |r| == |batch|
  {
    if batch == [] then []
    else
      var init := batch[..|batch| - 1];
      var prior := PlannedRows(fid, init, weeks, others, flushed);
      prior + [RowFor(fid, batch[|batch| - 1], Check(batch[|batch| - 1], weeks, Visible(others, prior, flushed)))]
  }

  /** Each planned row is the member's row for its request's week and
      status. */
  lemma {:induction false} PlannedRowsFields(fid: string, batch: seq<RequestInput>, weeks: seq<ServiceWeek>,
                                             others: seq<UnavailabilityRequest>, flushed: bool)
    ensures var r := PlannedRows(fid, batch, weeks, others, flushed);
      forall i :: 0 <= i < |batch| ==>
        r[i].facultyId == fid && r[i].weekId == batch[i].weekId && r[i].status == batch[i].status
  {
    if batch != [] {
      var init := batch[..|batch| - 1];
      PlannedRowsFields(fid, init, weeks, others, flushed);
      assert forall i :: 0 <= i < |init| ==> init[i] == batch[i];
    }
  }

  /** The verdict on request `i` of the batch. */
  function CheckAt(fid: string, batch: seq<RequestInput>, weeks: seq<ServiceWeek>,
                   others: seq<UnavailabilityRequest>, flushed: bool, i: nat): Checked
    requires i < |batch|
  {
    Check(batch[i], weeks, Visible(others, PlannedRows(fid, batch[..i], weeks, others, flushed), flushed))
  }

  /** The rows planned for a prefix of the batch are the prefix of the rows
      planned for the whole batch: a request's row never depends on later
      requests. */
  lemma {:induction false} PlannedRowsPrefix(fid: string, batch: seq<RequestInput>, weeks: seq<ServiceWeek>,
                                             others: seq<UnavailabilityRequest>, flushed: bool, i: nat)
    requires i <= |batch|
    ensures PlannedRows(fid, batch, weeks, others, flushed)[..i] == PlannedRows(fid, batch[..i], weeks, others, flushed)
  {
    if i < |batch| {
      var init := batch[..|batch| - 1];
      PlannedRowsPrefix(fid, init, weeks, others, flushed, i);
      assert init[..i] == batch[..i];
    } else {
      assert batch[..i] == batch;
    }
  }

  /** Row `i` of the batch is the row for request `i` under its own
      verdict. */
  lemma PlannedRowsAt(fid: string, batch: seq<RequestInput>, weeks: seq<ServiceWeek>,
                      others: seq<UnavailabilityRequest>, flushed: bool, i: nat)
    requires i < |batch|
    ensures PlannedRows(fid, batch, weeks, others, flushed)[i] == RowFor(fid, batch[i], CheckAt(fid, batch, weeks, others, flushed, i))
  {
    PlannedRowsPrefix(fid, batch, weeks, others, flushed, i + 1);
    var upto := batch[..i + 1];
    assert upto[..i] == batch[..i];
    assert PlannedRows(fid, batch, weeks, others, flushed)[i] == PlannedRows(fid, upto, weeks, others, flushed)[i];
  }

  function SpentTotal(rows: seq<UnavailabilityRequest>): int
  {
    if rows == [] then 0 else SpentTotal(rows[..|rows| - 1]) + rows[|rows| - 1].pointsSpent
  }

  function EarnedTotal(rows: seq<UnavailabilityRequest>): int
  {
    if rows == [] then 0 else EarnedTotal(rows[..|rows| - 1]) + rows[|rows| - 1].pointsEarned
  }

  lemma TotalsAppend(rows: seq<UnavailabilityRequest>, r: UnavailabilityRequest)
    ensures SpentTotal(rows + [r]) == SpentTotal(rows) + r.pointsSpent
    ensures EarnedTotal(rows + [r]) == EarnedTotal(rows) + r.pointsEarned
  {
    assert (rows + [r])[..|rows|] == rows;
  }

  predicate AllAccepted(fid: string, batch: seq<RequestInput>, weeks: seq<ServiceWeek>,
                       others: seq<UnavailabilityRequest>, flushed: bool)
  {
    forall i :: 0 <= i < |batch| ==> CheckAt(fid, batch, weeks, others, flushed, i).Accepted?
  }

  /** `base_points + (bonus_points or 0)`. */
  function Available(m: Member): int
  {
    m.basePoints + m.bonusPoints.GetOr(0)
  }

  /** The checks the submission loop makes on one request, in order,
      stopping at the first that fails. */
  method CheckRequest(req: RequestInput, weeks: seq<ServiceWeek>, others: seq<UnavailabilityRequest>)
    returns (c: Checked)
    ensures c == Check(req, weeks, others)
    ensures c.Refused? ==> !c.error.InsufficientPoints?
  {
    var found := FindWeek(weeks, req.weekId);
    if found.None? {
      return Refused(WeekNotFound(req.weekId));
    }
    var week := found.value;
    if req.status != UNAVAILABLE && req.status != AVAILABLE {
      return Refused(InvalidStatus(req.status));
    }
    if req.status == UNAVAILABLE {
      var current := UnavailableCount(others, req.weekId);
      if current >= MAX_CAPACITY {
        return Refused(WeekFull(week.weekNumber, week.weekLabel));
      }
      c := Accepted(week, DynamicCost(week.pointCostOff, current), 0);
    } else {
      c := Accepted(week, 0, week.pointRewardWork);
    }
  }

  /** submit_unavailability_requests. The member's stored requests are
      deleted (and flushed) first, so the capacity counts are over the other
      members' requests, together with the batch's own earlier rows when
      the session flushes pending objects before each query (`flushed`).
      The batch is refused at its first refused request, or as a whole when
      the balance would go negative; otherwise the member's requests become
      exactly the batch, with server-computed points, and the reported
      totals are the sums of the stored points. */
  method Submit(member: Member, batch: seq<RequestInput>, weeks: seq<ServiceWeek>,
                stored: seq<UnavailabilityRequest>, flushed: bool)
    returns (res: SubmitResult)
    ensures var others := OthersRows(stored, member.id);
      var planned := PlannedRows(member.id, batch, weeks, others, flushed);
      && (res.Submitted? <==>
            AllAccepted(member.id, batch, weeks, others, flushed)
            && Available(member) - SpentTotal(planned) + EarnedTotal(planned) >= 0)
      && (res.Submitted? ==>
            && res.created == planned
            && res.totalRequests == |batch|
            && res.pointsSpent == SpentTotal(res.created)
            && res.pointsEarned == EarnedTotal(res.created)
            && res.remainingPoints == Available(member) - res.pointsSpent + res.pointsEarned
            && res.remainingPoints >= 0
            && res.table == others + res.created)
      && (res.Rejected? && res.error.InsufficientPoints? ==>
            AllAccepted(member.id, batch, weeks, others, flushed)
            && res.error == InsufficientPoints(Available(member), SpentTotal(planned)))
      && (res.Rejected? && !res.error.InsufficientPoints? ==>
            exists i :: 0 <= i < |batch| && CheckAt(member.id, batch, weeks, others, flushed, i) == Refused(res.error)
              && forall j :: 0 <= j < i ==> CheckAt(member.id, batch, weeks, others, flushed, j).Accepted?)
  {
    var others := OthersRows(stored, member.id);
    var failed, created, totalSpent, totalEarned := CheckBatch(member.id, batch, weeks, others, flushed);
    if failed.Some? {
      return Rejected(failed.value);
    }
    var available := Available(member);
    var net := available - totalSpent + totalEarned;
    if net < 0 {
      return Rejected(InsufficientPoints(available, totalSpent));
    }
    res := Submitted(created, |created|, totalSpent, totalEarned, net, others + created);
  }

  /** The loop over the batch: stops at the first refused request, and
      otherwise builds the rows to store and the two point totals. Each
      request is checked against the rows visible at that point. */
  method CheckBatch(fid: string, batch: seq<RequestInput>, weeks: seq<ServiceWeek>,
                    others: seq<UnavailabilityRequest>, flushed: bool)
    returns (failed: Option<SubmitError>, created: seq<UnavailabilityRequest>, totalSpent: int, totalEarned: int)
    ensures failed.None? <==> AllAccepted(fid, batch, weeks, others, flushed)
    ensures failed.None? ==> created == PlannedRows(fid, batch, weeks, others, flushed)
    ensures totalSpent == SpentTotal(created) && totalEarned == EarnedTotal(created)
    ensures failed.Some? ==> !failed.value.InsufficientPoints?
    ensures failed.Some? ==>
      exists i :: 0 <= i < |batch| && CheckAt(fid, batch, weeks, others, flushed, i) == Refused(failed.value)
        && forall j :: 0 <= j < i ==> CheckAt(fid, batch, weeks, others, flushed, j).Accepted?
  {
    totalSpent, totalEarned := 0, 0;
    created := [];
    for i := 0 to |batch|
      invariant created == PlannedRows(fid, batch[..i], weeks, others, flushed)
      invariant forall j :: 0 <= j < i ==> CheckAt(fid, batch, weeks, others, flushed, j).Accepted?
      invariant totalSpent == SpentTotal(created) && totalEarned == EarnedTotal(created)
    {
      var checked := CheckRequest(batch[i], weeks, Visible(others, created, flushed));
      BatchStep(fid, batch, weeks, others, flushed, i, created, checked);
      if checked.Refused? {
        FirstRefusal(fid, batch, weeks, others, flushed, i, checked.error);
        return Some(checked.error), created, totalSpent, totalEarned;
      }
      var row := RowFor(fid, batch[i], checked);
      TotalsAppend(created, row);
      totalSpent, totalEarned := totalSpent + checked.spent, totalEarned + checked.earned;
      created := created + [row];
    }
    assert batch[..|batch|] == batch;
    failed := None;
  }

  /** The loop's request `i`, checked against the rows visible after the
      first `i` rows, gets its own verdict, and its row extends the planned
      rows by one. */
  lemma BatchStep(fid: string, batch: seq<RequestInput>, weeks: seq<ServiceWeek>,
                  others: seq<UnavailabilityRequest>, flushed: bool, i: nat,
                  created: seq<UnavailabilityRequest>, c: Checked)
    requires i < |batch|
    requires created == PlannedRows(fid, batch[..i], weeks, others, flushed)
    requires c == Check(batch[i], weeks, Visible(others, created, flushed))
    ensures c == CheckAt(fid, batch, weeks, others, flushed, i)
    ensures created + [RowFor(fid, batch[i], c)] == PlannedRows(fid, batch[..i + 1], weeks, others, flushed)
  {
    assert batch[..i + 1][..i] == batch[..i];
  }

  /** A refusal at request `i` after `i` accepted requests is the batch's
      first refusal. */
  lemma FirstRefusal(fid: string, batch: seq<RequestInput>, weeks: seq<ServiceWeek>,
                     others: seq<UnavailabilityRequest>, flushed: bool, i: nat, e: SubmitError)
    requires i < |batch| && CheckAt(fid, batch, weeks, others, flushed, i) == Refused(e)
    requires forall j :: 0 <= j < i ==> CheckAt(fid, batch, weeks, others, flushed, j).Accepted?
    ensures exists k :: (0 <= k < |batch| && CheckAt(fid, batch, weeks, others, flushed, k) == Refused(e)
      && forall j :: 0 <= j < k ==> CheckAt(fid, batch, weeks, others, flushed, j).Accepted?)
  {
  }

  lemma UnavailableCountAppend(rows: seq<UnavailabilityRequest>, r: UnavailabilityRequest, wid: string)
    ensures UnavailableCount(rows + [r], wid)
      == UnavailableCount(rows, wid) + (if r.weekId == wid && r.status == UNAVAILABLE then 1 else 0)
  {
    assert (rows + [r])[..|rows|] == rows;
  }

  /** The count over two row lists is the sum of their counts. */
  lemma {:induction false} UnavailableCountConcat(a: seq<UnavailabilityRequest>, b: seq<UnavailabilityRequest>, wid: string)
    ensures UnavailableCount(a + b, wid) == UnavailableCount(a, wid) + UnavailableCount(b, wid)
  {
    if b == [] {
      assert a + b == a;
    } else {
      var init := b[..|b| - 1];
      var last := b[|b| - 1];
      UnavailableCountConcat(a, init, wid);
      assert a + b == (a + init) + [last];
      assert b == init + [last];
      UnavailableCountAppend(a + init, last, wid);
      UnavailableCountAppend(init, last, wid);
    }
  }

  /** The number of requests in a batch asking a week off. */
  function RequestsOff(batch: seq<RequestInput>, wid: string): nat
  {
    if batch == [] then 0
    else RequestsOff(batch[..|batch| - 1], wid)
         + (if batch[|batch| - 1].weekId == wid && batch[|batch| - 1].status == UNAVAILABLE then 1 else 0)
  }

  /** The planned rows ask a week off as often as the batch does. */
  lemma {:induction false} PlannedRowsOff(fid: string, batch: seq<RequestInput>, weeks: seq<ServiceWeek>,
                                          others: seq<UnavailabilityRequest>, flushed: bool, wid: string)
    ensures UnavailableCount(PlannedRows(fid, batch, weeks, others, flushed), wid) == RequestsOff(batch, wid)
  {
    if batch != [] {
      var init := batch[..|batch| - 1];
      var prior := PlannedRows(fid, init, weeks, others, flushed);
      var rows := PlannedRows(fid, batch, weeks, others, flushed);
      PlannedRowsOff(fid, init, weeks, others, flushed, wid);
      assert rows == prior + [rows[|batch| - 1]];
      UnavailableCountAppend(prior, rows[|batch| - 1], wid);
    }
  }

  /** With a flushing session, the count a week-off request is checked and
      priced by includes the batch's own earlier requests off for that week,
      on top of the other members' requests. */
  lemma FlushedCount(fid: string, batch: seq<RequestInput>, weeks: seq<ServiceWeek>,
                     others: seq<UnavailabilityRequest>, i: nat)
    requires i < |batch|
    ensures var pending := PlannedRows(fid, batch[..i], weeks, others, true);
      UnavailableCount(Visible(others, pending, true), batch[i].weekId)
        == UnavailableCount(others, batch[i].weekId) + RequestsOff(batch[..i], batch[i].weekId)
  {
    var pending := PlannedRows(fid, batch[..i], weeks, others, true);
    UnavailableCountConcat(others, pending, batch[i].weekId);
    PlannedRowsOff(fid, batch[..i], weeks, others, true, batch[i].weekId);
  }

  /** Flushing makes no difference to a batch that names no week twice:
      each request then sees only the other members' rows, whether or not
      the batch's pending rows are flushed. */
  lemma {:induction false} FlushUnseenWithoutRepeats(fid: string, batch: seq<RequestInput>, weeks: seq<ServiceWeek>,
                                                     others: seq<UnavailabilityRequest>)
    requires forall i, j :: 0 <= i < j < |batch| ==> batch[i].weekId != batch[j].weekId
    ensures PlannedRows(fid, batch, weeks, others, true) == PlannedRows(fid, batch, weeks, others, false)
  {
    if batch != [] {
      var init := batch[..|batch| - 1];
      var last := batch[|batch| - 1];
      assert forall i :: 0 <= i < |init| ==> init[i] == batch[i];
      FlushUnseenWithoutRepeats(fid, init, weeks, others);
      var prior := PlannedRows(fid, init, weeks, others, true);
      PlannedRowsFields(fid, init, weeks, others, true);
      assert forall k :: 0 <= k < |prior| ==> prior[k].weekId != last.weekId;
      UnavailableCountConcat(others, prior, last.weekId);
      CheckReadsCount(last, weeks, others + prior, others);
    }
  }

  /** A request's verdict depends on the stored rows only through the
      count of its week. */
  lemma CheckReadsCount(req: RequestInput, weeks: seq<ServiceWeek>, a: seq<UnavailabilityRequest>,
                        b: seq<UnavailabilityRequest>)
    requires UnavailableCount(a, req.weekId) == UnavailableCount(b, req.weekId)
    ensures Check(req, weeks, a) == Check(req, weeks, b)
  {
  }

  /** Deleting one member's requests can only lower a week's count, and
      leaves it unchanged when that member had not asked for the week off. */
  lemma OthersCount(stored: seq<UnavailabilityRequest>, fid: string, wid: string)
    ensures UnavailableCount(OthersRows(stored, fid), wid) <= UnavailableCount(stored, wid)
    ensures (forall i :: 0 <= i < |stored| ==>
               !(stored[i].facultyId == fid && stored[i].weekId == wid && stored[i].status == UNAVAILABLE))
            ==> UnavailableCount(OthersRows(stored, fid), wid) == UnavailableCount(stored, wid)
  {
    OthersCountAtMost(stored, fid, wid);
    if forall i :: 0 <= i < |stored| ==>
         !(stored[i].facultyId == fid && stored[i].weekId == wid && stored[i].status == UNAVAILABLE) {
      OthersCountSame(stored, fid, wid);
    }
  }

  lemma {:induction false} OthersCountAtMost(stored: seq<UnavailabilityRequest>, fid: string, wid: string)
    ensures UnavailableCount(OthersRows(stored, fid), wid) <= UnavailableCount(stored, wid)
  {
    if stored != [] {
      var init := stored[..|stored| - 1];
      var last := stored[|stored| - 1];
      OthersCountAtMost(init, fid, wid);
      var prior := OthersRows(init, fid);
      if last.facultyId != fid {
        assert OthersRows(stored, fid) == prior + [last];
        UnavailableCountAppend(prior, last, wid);
      } else {
        assert OthersRows(stored, fid) == prior;
      }
    }
  }

  lemma {:induction false} OthersCountSame(stored: seq<UnavailabilityRequest>, fid: string, wid: string)
    requires forall i :: 0 <= i < |stored| ==>
      !(stored[i].facultyId == fid && stored[i].weekId == wid && stored[i].status == UNAVAILABLE)
    ensures UnavailableCount(OthersRows(stored, fid), wid) == UnavailableCount(stored, wid)
  {
    if stored != [] {
      var init := stored[..|stored| - 1];
      var last := stored[|stored| - 1];
      assert forall i :: 0 <= i < |init| ==> init[i] == stored[i];
      OthersCountSame(init, fid, wid);
      var prior := OthersRows(init, fid);
      if last.facultyId != fid {
        assert OthersRows(stored, fid) == prior + [last];
        UnavailableCountAppend(prior, last, wid);
      } else {
        assert OthersRows(stored, fid) == prior;
      }
    }
  }

  /** A week off checked against the other members' rows (every request
      when pending rows are not flushed, and a batch's first request for a
      week when they are) is never charged more than the price the week
      listing shows for it, and exactly that price when the member did not
      already hold a request off for that week. */
  lemma ChargedAsListed(member: Member, req: RequestInput, weeks: seq<ServiceWeek>,
                        stored: seq<UnavailabilityRequest>)
    requires req.status == UNAVAILABLE
    requires Check(req, weeks, OthersRows(stored, member.id)).Accepted?
    ensures var c := Check(req, weeks, OthersRows(stored, member.id));
      var listed := ListingOf(c.week, UnavailableCount(stored, req.weekId));
      && c.spent <= listed.pointCostOff
      && ((forall i :: 0 <= i < |stored| ==>
             !(stored[i].facultyId == member.id && stored[i].weekId == req.weekId && stored[i].status == UNAVAILABLE))
          ==> c.spent == listed.pointCostOff)
  {
    var others := OthersRows(stored, member.id);
    var c := Check(req, weeks, others);
    var current := UnavailableCount(others, req.weekId);
    CheckRules(req, weeks, others);
    OthersCount(stored, member.id, req.weekId);
    DynamicCostMonotone(c.week.pointCostOff, current, UnavailableCount(stored, req.weekId));
  }

  // ---------------------------------------------------------------------
  // The academic year named in the confirmation

  /** The calendar year an academic year starts in: July onwards belongs to
      the year starting in that July. */
  function AcademicStart(year: int, month: int): int
  {
    if month >= 7 then year else year - 1
  }

  /** `f"{Y}-{Y+1}"` from July, `f"{Y-1}-{Y}"` before. */
  function AcademicYearLabel(year: int, month: int): (s: string)
    ensures s == IntToDecimal(AcademicStart(year, month)) + "-" + IntToDecimal(AcademicStart(year, month) + 1)
  {
    if month >= 7 then IntToDecimal(year) + "-" + IntToDecimal(year + 1)
    else IntToDecimal(year - 1) + "-" + IntToDecimal(year)
  }

  /** A digit string followed by '-' is recovered from the longer string. */
  lemma DigitsBeforeDash(a: string, b: string, c: string, d: string)
    requires forall i :: 0 <= i < |a| ==> IsDigit(a[i])
    requires forall i :: 0 <= i < |c| ==> IsDigit(c[i])
    requires a + "-" + b == c + "-" + d
    ensures a == c
  {
    var s := a + "-" + b;
    assert forall i :: 0 <= i < |a| ==> s[i] == a[i] && IsDigit(s[i]);
    assert forall i :: 0 <= i < |c| ==> s[i] == c[i] && IsDigit(s[i]);
    assert s[|a|] == '-' && s[|c|] == '-';
    assert a == s[..|a|] && c == s[..|c|];
  }

  /** Dates in years 1 and later get the same label exactly when they fall
      in the same academic year. */
  lemma AcademicYearLabelExact(y1: int, m1: int, y2: int, m2: int)
    requires y1 >= 1 && y2 >= 1
    ensures AcademicYearLabel(y1, m1) == AcademicYearLabel(y2, m2) <==> AcademicStart(y1, m1) == AcademicStart(y2, m2)
  {
    var s1, s2 := AcademicStart(y1, m1), AcademicStart(y2, m2);
    if AcademicYearLabel(y1, m1) == AcademicYearLabel(y2, m2) {
      DigitsBeforeDash(IntToDecimal(s1), IntToDecimal(s1 + 1), IntToDecimal(s2), IntToDecimal(s2 + 1));
      NatToDecimalInjective(s1, s2);
    }
  }

  /** The academic year of the confirmation: none when no request of the batch
      asks off a week that can be found (no confirmation is sent) or when the first request's week
      cannot be found (the confirmation step fails and is skipped);
      otherwise the label of the first request's week, whatever that
      request's status. */
  function ConfirmationYear(created: seq<UnavailabilityRequest>, weeks: seq<ServiceWeek>,
                            yearOf: int -> int, monthOf: int -> int): (r: Option<string>)
    ensures r.Some? <==> (exists i :: 0 <= i < |created| && created[i].status == UNAVAILABLE
                                     && FindWeek(weeks, created[i].weekId).Some?)
                         && FindWeek(weeks, created[0].weekId).Some?
    ensures r.Some? ==> (FindWeek(weeks, created[0].weekId).Some?
      && var start := FindWeek(weeks, created[0].weekId).value.startDate;
         r.value == IntToDecimal(AcademicStart(yearOf(start), monthOf(start))) + "-"
                    + IntToDecimal(AcademicStart(yearOf(start), monthOf(start)) + 1))
  {
    if exists i :: 0 <= i < |created| && created[i].status == UNAVAILABLE && FindWeek(weeks, created[i].weekId).Some? then
      match FindWeek(weeks, created[0].weekId)
      case Some(w) => Some(AcademicYearLabel(yearOf(w.startDate), monthOf(w.startDate)))
      case None => None
    else None
  }
}
