# FacultyHub inpatient scheduling core, in Dafny

This project models the scheduling core of FacultyHub, the system that
assigns medical faculty to weekly inpatient services: MICU (two people a
week), APP-ICU, Procedures and Consults (one each). It covers:

- the **schedule generator**: per-faculty capacity trackers, the greedy
  priority-driven pass over weeks and services, and its understaffing,
  capacity-variance and summary reports;
- the **read-side checks** over a stored schedule: the per-week
  completeness flag of the schedule view and the back-to-back validation;
- the **dynamic pricing of weeks off**: the tiered cost, the demand level,
  the remaining spots and the public week listing;
- the **submission of a batch of week requests**: per-request validation,
  the 17-person cap, point accounting, the net-points check and the
  academic-year label of the confirmation;
- the **construction of a year's 52 service weeks**: ids `W{nn}-{year}`,
  seven-day stepping and the week-type rules, where later rules override
  earlier ones.

Modules, one per file:

| file | module | what it holds |
|---|---|---|
| text.dfy | Text | decimal rendering, `{:02d}` padding, `endswith` |
| records.dfy | Records | stored service weeks and requests |
| capacity.dfy | Capacity | the services, SERVICE_REQUIREMENTS, the class `FacultyCapacity` |
| ranking.dfy | Ranking | the priority sort of the eligible pool |
| generator.dfy | Generator | `generate_schedule` as imperative methods over the trackers |
| reports.dfy | ScheduleReports | `is_complete`, `complete_weeks`, `validate_schedule` |
| pricing.dfy | Pricing | the tiered cost, demand level, spots and the week listing |
| requests.dfy | ServiceRequests | the submission of a batch of requests |
| calendar.dfy | WeekCalendar | the 52-week calendar construction |

The generator is imperative, as in the source. `FacultyCapacity` is a class
whose `Assign` method updates its counters and week set in place. The week,
service and candidate loops are methods with loop invariants, and every
method is proved against specification functions:

- `StaffingIssues` and `VarianceIssues` say what the two reports hold;
- `SlotCount`, `CountOf` and `WeeksOf` count the assignments made;
- `GreedyFill` says which members a slot may get: min(required, eligible
  count) distinct eligible members, none outranked by an eligible member
  left out. `WeekLaid` and `Laid` lay these picks out slot by slot and
  week by week, in the order the loops make them.

Lemmas then prove what the source promises of these functions. Its database
reads are parameters:

- the active roster;
- the year's weeks, ordered by week number;
- the stored requests.

## Model

| member | source | states |
|---|---|---|
| Capacity.Required | backend/schedule_generator.py:137-142 | Every service needs one or two people a week, and only MICU needs two. |
| Capacity.Position | backend/schedule_generator.py:222 | Each service appears exactly once in the fixed fill order MICU, APP-ICU, Procedures, Consults. |
| Capacity.PriorityOfEligible | backend/schedule_generator.py:99-117 | While a member is below target + 1, their priority score is between 0 and 1. It is 0 exactly when they have reached their target. |
| Capacity.PriorityFallsWithAssignments | backend/schedule_generator.py:99-117 | For a positive target, each extra assignment strictly lowers the priority score. |
| Capacity.NoTargetRanksLast | backend/schedule_generator.py:101-103 | The -1000 score of a zero target ranks below every member with a positive target who is within target + 1. |
| Capacity.FacultyCapacity.constructor | backend/schedule_generator.py:29-43 | A new tracker holds the given targets, zero counts and no assigned weeks. |
| Capacity.FacultyCapacity.CanWorkService | backend/schedule_generator.py:45-55 | True only for a positive target where one more week stays within target + 1. Always true while the count is at most the target. |
| Capacity.FacultyCapacity.CanWorkWeek | backend/schedule_generator.py:57-70 | True exactly when no assigned week lies within one week of the given week, that week included. |
| Capacity.FacultyCapacity.NeedsMoreWeeks | backend/schedule_generator.py:72-82 | True exactly when the target is positive and the count is more than one week below it, which is the case the variance report flags as under-assignment. |
| Capacity.FacultyCapacity.Assign | backend/schedule_generator.py:84-97 | Exactly the counter of the given service goes up by one, the other three are unchanged, and the week joins the assigned weeks. |
| Capacity.FacultyCapacity.PriorityScore | backend/schedule_generator.py:99-117 | -1000 for a zero target. Between 0 and 1 while the member is within target. |
| Capacity.FacultyCapacity.TotalTarget | backend/schedule_generator.py:119-121 | For non-negative targets, the total is zero exactly when every service's target is zero. |
| Ranking.Insert | backend/schedule_generator.py:245 | Inserting a candidate into the ranking adds exactly that candidate. |
| Ranking.InsertRanked | backend/schedule_generator.py:245 | Inserting keeps the ranking in descending (score, draw) order. |
| Ranking.InsertDistinct | backend/schedule_generator.py:245 | Inserting a new faculty member keeps each member in the ranking once. |
| Ranking.RankByPriority | backend/schedule_generator.py:245 | The sorted pool is a permutation of the pool: the same candidates, each as often, so also the same length. |
| Ranking.RankByPriorityCorrect | backend/schedule_generator.py:245 | The sorted pool is in descending (score, draw) order, and each faculty member appears once. |
| Ranking.TopScoresFirst | backend/schedule_generator.py:245-251 | The first k of the ranking score at least as high as every candidate left behind. |
| Records.UnavailableCount | backend/routes/service_weeks.py:79-82 | The count of a week's "unavailable" requests is at most the number of rows. It is zero exactly when no row is an "unavailable" request for that week. |
| Generator.SpacedIsNoBackToBack | backend/schedule_generator.py:235-237 | Checking each new assignment against its member's earlier weeks, as `can_work_week` does, leaves nobody in the same or adjacent weeks. |
| Generator.AppendWithinCapacity | backend/schedule_generator.py:240-241 | An assignment that passes `can_work_service` keeps everyone within target + 1. A zero target is never assigned. |
| Generator.BuildUnavailability | backend/schedule_generator.py:182-189 | A member is in a week's unavailability set exactly when they have an "unavailable" request for that week and the week id ends in "-{year}". |
| Generator.NewCapacities | backend/schedule_generator.py:200-209 | There is one fresh, distinct tracker per roster member, in roster order, holding that member's targets (a missing column counts as 0) and zero counts. |
| Generator.EligibleFitsAt | backend/schedule_generator.py:224-241 | A member the trackers find eligible fits the schedule made so far: they are available, clear of adjacent weeks and below their capacity. |
| Generator.EligiblePool | backend/schedule_generator.py:224-241 | The pool holds exactly the eligible members, each once, with their priority scores. Eligible means: not marked unavailable, not already given a service this week, clear of adjacent weeks, and below capacity. |
| Generator.EligibleIsFit | backend/schedule_generator.py:224-241 | The four checks on a tracker (not asked off, not already placed this week, clear of adjacent weeks, below capacity) hold exactly when the member fits the assignments the tracker mirrors. |
| Generator.RankedIsEligible | backend/schedule_generator.py:224-245 | The ranked pool holds exactly the members eligible on the assignments so far, each scored with its priority on those assignments. |
| Generator.HeadIsGreedy | backend/schedule_generator.py:243-251 | Taking the first min(required, pool size) of a priority ranking of the eligible members is a greedy fill of the slot. That many are picked, all eligible and distinct, and each ranks at least as high as every eligible member left out. |
| Generator.SelectionIsGreedy | backend/schedule_generator.py:224-251 | The members SelectForSlot takes number the smaller of the requirement and the eligible count. They fit the schedule so far, and they are a greedy fill of the slot. |
| Generator.SelectForSlot | backend/schedule_generator.py:243-251 | The ranking holds exactly the eligible members, each once. The number chosen is the smaller of the requirement and the pool size. The chosen are the head of the ranking and score at least as high as every member not chosen. |
| Generator.AppendSound | backend/schedule_generator.py:253-261 | An assignment that passed the eligibility rules keeps spacing, the target + 1 ceiling, the roster, the weeks so far and the unavailability sets intact. |
| Generator.AssignOne | backend/schedule_generator.py:253-261 | One assignment updates the tracker, the assignment list and the week's scratch map alike, and keeps the schedule sound. |
| Generator.RestStillFit | backend/schedule_generator.py:249-262 | After one chosen member is assigned, the later chosen members still fit. |
| Generator.AssignNext | backend/schedule_generator.py:249-262 | Assigning the next chosen member appends exactly its assignment. The trackers keep mirroring the assignments, the schedule stays sound, and the later chosen members still fit. |
| Generator.AssignSlot | backend/schedule_generator.py:249-262 | The chosen members are appended in ranked order, one assignment each. So the slot's count grows by the number chosen, and no other slot changes. |
| Generator.SlotCountPlacements | backend/schedule_generator.py:249-262 | Placing members in one slot adds that many to its count and leaves every other slot's count unchanged. |
| Generator.SlotStep | backend/schedule_generator.py:264-273 | Filling the next service of a week extends that week's understaffing entries by exactly that service's entry. |
| Generator.FillSlot | backend/schedule_generator.py:222-273 | The slot gets min(required, eligible count) people, chosen greedily. They are distinct and eligible, and each ranks at least as high as every eligible member left out. The assignments grow by exactly their placements, only this slot's count changes, and a short slot is reported. |
| Generator.ProcessWeek | backend/schedule_generator.py:216-273 | The week's four slots are filled greedily in SERVICE_ORDER, each on top of the slots before it. The assignments grow by exactly those placements. No slot exceeds its requirement, other weeks are untouched, and the week's understaffing entries are reported. |
| Generator.WeekStep | backend/schedule_generator.py:222-262 | One more greedily filled slot, laid after the week's earlier slots, extends the week's greedy record. |
| Generator.WeekIssuesIff | backend/schedule_generator.py:264-273 | A week has an understaffing entry for a service exactly when that slot is short. Each entry records the required and the staffed counts. |
| Generator.StaffingIssueFrom | backend/schedule_generator.py:264-273 | Every entry of the staffing report is one week's entry for its service, and it records a shortfall. |
| Generator.ShortSlotReported | backend/schedule_generator.py:264-273 | Every short slot appears in the staffing report. |
| Generator.FacultyVarianceIff | backend/schedule_generator.py:277-294 | A member has an entry for a service exactly when the target is positive and the count misses it by more than one. |
| Generator.VarianceIssueIff | backend/schedule_generator.py:276-294 | The capacity report lists exactly the flagged (member, service) pairs, with variance = count - target. |
| Generator.VarianceUnderOnly | backend/schedule_generator.py:284-294 | Under the target + 1 ceiling, every reported variance is -2 or less. |
| Generator.CapacityReport | backend/schedule_generator.py:276-294 | The variance pass over the trackers yields exactly VarianceIssues of the assignments made. |
| Generator.SummaryAddsUp | backend/schedule_generator.py:317-322 | The four per-service summary counts add up to the number of assignments created. |
| Generator.FacultyCountSplits | backend/schedule_generator.py:123-125 | A member's assignments split exactly over the four services. |
| Generator.TotalAssignedIsAssignmentCount | backend/schedule_generator.py:123-125 | `get_total_assigned` of a tracker equals the number of assignments made to its member. |
| Generator.OneServicePerWeek | backend/schedule_generator.py:230-232 | Nobody holds two services in the same week. |
| Generator.NextWeek | backend/schedule_generator.py:216-273 | The week is filled greedily on top of the weeks before it. The weeks done stay within their requirements, later weeks stay empty, and the staffing report grows by this week's entries. |
| Generator.AssignWeeks | backend/schedule_generator.py:216-273 | The week loop keeps the trackers mirroring the assignments and every slot within its requirement. It produces exactly StaffingIssues. The assignments are the weeks laid in order, each slot a greedy fill on top of everything before it. |
| Generator.RunStep | backend/schedule_generator.py:216-273 | One more greedily filled week, laid after the weeks before it, extends the greedy run. |
| Generator.UnavailableSetIsIndex | backend/schedule_generator.py:182-189 | The unavailability map holds, for every week, exactly the members whose requests mark them out of it. |
| Generator.SoundMeans | backend/schedule_generator.py:216-262 | A schedule built under the eligibility rules has no back-to-back weeks, stays within target + 1, uses only roster members and the year's weeks, and respects every request off. |
| Generator.GenerateSchedule | backend/schedule_generator.py:145-323 | With no weeks the result is the failure with 0 assignments. Otherwise every assignment is for a roster member in one of the year's weeks, and: <br>- nobody works adjacent weeks; <br>- nobody exceeds target + 1; <br>- nobody works a week they asked off; <br>- no slot exceeds its requirement; <br>- every slot, in week and service order, gets min(required, eligible count) people, chosen greedily by priority. <br>Both reports are exactly their specifications, and the summary counts per service. |
| ScheduleReports.CompleteMeansStaffed | backend/schedule_generator.py:377-382 | A week is complete exactly when every service has at least its SERVICE_REQUIREMENTS count. |
| ScheduleReports.CompleteWeeks | backend/schedule_generator.py:388 | `complete_weeks` is at most the number of weeks, and equals it exactly when every week is complete. |
| ScheduleReports.CompleteIffNotReported | backend/schedule_generator.py:377-382 | A week is complete exactly when the staffing report has no entry for it. |
| ScheduleReports.AllCompleteIffNoIssues | backend/schedule_generator.py:388 | Every week is complete exactly when the staffing report is empty. |
| ScheduleReports.WeekNumberOf | backend/schedule_generator.py:427-430 | The id-to-number lookup misses exactly the ids of no week. A hit is the number of a week with that id. |
| ScheduleReports.WeekNumberOfDistinct | backend/schedule_generator.py:427 | With distinct week ids, the lookup gives each week its own number. |
| ScheduleReports.YearRows | backend/schedule_generator.py:420-423 | The year's rows are exactly the stored rows whose week is among the year's weeks. |
| ScheduleReports.InsertSorted | backend/schedule_generator.py:432 | Adding a week to a member's week set keeps it strictly increasing and adds exactly that week. |
| ScheduleReports.SortedWeeks | backend/schedule_generator.py:437 | `sorted(faculty_weeks[fid])` is strictly increasing. |
| ScheduleReports.SortedWeeksExact | backend/schedule_generator.py:429-437 | The sorted weeks of a member are exactly the weeks counted for them. Rows whose week is missing or numbered 0 are not counted. |
| ScheduleReports.FacultyOrder | backend/schedule_generator.py:436 | The members checked are distinct, and are exactly those with a counted week. |
| ScheduleReports.AdjacentPairsExact | backend/schedule_generator.py:438-444 | In an increasing week list, the pairs reported are exactly (w, w + 1) with both weeks present. |
| ScheduleReports.ViolationsOfExact | backend/schedule_generator.py:436-444 | The violations are exactly the adjacent pairs of the members checked. |
| ScheduleReports.ViolationExact | backend/schedule_generator.py:436-444 | A violation (member, w, w + 1) is reported exactly when the member is counted in both weeks. |
| ScheduleReports.ValidationExact | backend/schedule_generator.py:446-451 | The report lists exactly the pairs of weeks w, w + 1 some member is counted in. `violation_count` is their number. `is_valid` holds exactly when no member is counted in two consecutive weeks. |
| ScheduleReports.PlacedRowsLookUp | backend/schedule_generator.py:427-432 | With distinct week ids, the rows the generator places look up their own week numbers. |
| ScheduleReports.SpacedRowsNoPair | backend/schedule_generator.py:429-444 | Rows that keep members out of adjacent weeks give no member two consecutive counted weeks. |
| ScheduleReports.GeneratedScheduleValidates | backend/schedule_generator.py:400-451 | A schedule as GenerateSchedule produces it passes `validate_schedule`, and its row count is the number of assignments. |
| Pricing.DynamicCost | backend/routes/service_weeks.py:21-40 | The cost lies between the stored cost and the stored cost + 20. It is the stored cost up to 5 requests and the stored cost + 20 from 17 on. The copy in backend/routes/service_requests.py:65-76 has the same five tiers, so both use this one function. |
| Pricing.DynamicCostMonotone | backend/routes/service_weeks.py:21-40 | More requests never make a week cheaper. |
| Pricing.DemandOf | backend/routes/service_weeks.py:88-97 | The demand level is: <br>- full exactly from 17 requests; <br>- critical exactly for 15-16; <br>- high exactly for 11-14; <br>- medium exactly for 6-10; <br>- low exactly up to 5. |
| Pricing.CostFollowsDemand | backend/routes/service_weeks.py:85-97 | The cost tiers and the demand levels share their boundaries: the cost is the stored cost plus the level's surcharge (0/5/10/15/20). |
| Pricing.SpotsRemaining | backend/routes/service_weeks.py:99 | For any count that is not negative, the spots lie in 0..17. There are 0 spots exactly from 17 requests, and spots + count = 17 below that. |
| Pricing.FullIsNoSpots | backend/routes/service_weeks.py:99-100 | `is_full`, "no spots left" and the "full" demand level coincide. |
| Pricing.ListServiceWeeks | backend/routes/service_weeks.py:74-121 | There is one entry per week, in order, priced by that week's "unavailable" requests. The entry keeps the stored cost as the base cost and shows the base plus the demand surcharge. It is full exactly when no spot is left, and its count is zero exactly when nobody asked the week off. |
| ServiceRequests.FindWeek | backend/routes/service_requests.py:110 | The week lookup fails exactly when no week has the id. A hit is a week with that id. |
| ServiceRequests.OthersRows | backend/routes/service_requests.py:96-100 | After the delete, the rows are exactly the stored rows of other members. |
| ServiceRequests.CheckRules | backend/routes/service_requests.py:108-145 | An accepted request has its week and a valid status. <br>- A week off is below 17 requests, costs the tiered price (at most the stored cost + 15) and earns 0. <br>- An offer to work costs 0 and earns the week's reward. <br>Each refusal (week not found, invalid status, week full) happens exactly in its own case. |
| ServiceRequests.PlannedRows | backend/routes/service_requests.py:150-162 | There is one stored row per request, in order, for the member, with the request's week and status. |
| ServiceRequests.PlannedRowsPrefix | backend/routes/service_requests.py:108-162 | A request's row never depends on later requests: the rows for a prefix of the batch are the prefix of the rows. |
| ServiceRequests.PlannedRowsAt | backend/routes/service_requests.py:108-162 | Row i holds the server-computed points of request i, checked against the rows visible when the loop reaches it. |
| ServiceRequests.TotalsAppend | backend/routes/service_requests.py:147-148 | Each request adds its own points to the two totals. |
| ServiceRequests.CheckRequest | backend/routes/service_requests.py:109-145 | The checks of one request decide as CheckRules describes. The points check is never one of them. |
| ServiceRequests.CheckBatch | backend/routes/service_requests.py:108-162 | The loop stops at the first refused request and reports its error, each request being checked against the rows visible at that point. Otherwise it yields the planned rows. The totals are the sums of the rows' points. |
| ServiceRequests.Submit | backend/routes/service_requests.py:95-223 | The batch is accepted exactly when every request passes and the net points are not negative. The stored requests then become the other members' rows plus the planned rows, and the reported totals and remaining points are their sums. A points refusal happens only after every request passes. Any other refusal is the error of the first refused request. |
| ServiceRequests.OthersCount | backend/routes/service_requests.py:96-130 | Deleting a member's requests never raises a week's count. It leaves the count unchanged when that member had not asked the week off. |
| ServiceRequests.ChargedAsListed | backend/routes/service_requests.py:124-141 | A week off checked against the other members' rows never costs more than the price the week listing shows. It costs exactly that price when the member held no request off for that week. |
| ServiceRequests.FlushedCount | backend/routes/service_requests.py:124-140 | When pending rows are flushed before the count query, a request is counted and priced by the other members' requests off for its week plus the batch's own earlier requests off for it. |
| ServiceRequests.FlushUnseenWithoutRepeats | backend/routes/service_requests.py:108-162 | For a batch that names no week twice, flushing makes no difference: every request is checked, priced and stored the same way. |
| ServiceRequests.AcademicYearLabel | backend/routes/service_requests.py:200-203 | The label is "Y-(Y+1)" from July on and "(Y-1)-Y" before July. |
| ServiceRequests.AcademicYearLabelExact | backend/routes/service_requests.py:197-203 | For years 1 and later, two dates get the same label exactly when their academic years start in the same year. |
| ServiceRequests.ConfirmationYear | backend/routes/service_requests.py:179-203 | A label is produced exactly when some request asks off a week that exists and the first request's week exists. It is then the label of the first request's week start. |
| WeekCalendar.Classify | backend/routes/admin_service.py:115-147 | The successive overriding rules give the precedence Christmas > Thanksgiving > spring break > summer > regular, with their point values. |
| WeekCalendar.WeekIdEndsWithYear | backend/routes/admin_service.py:151 | Every week id ends in "-{year}", which is the suffix the generator selects requests by. |
| WeekCalendar.WeekIdInjective | backend/routes/admin_service.py:151 | Week numbers 1..99 give distinct ids within a year. |
| WeekCalendar.BuildWeek | backend/routes/admin_service.py:113-161 | Week n starts on start + 7(n-1), ends six days later, and carries its id, label, classification and five staff. |
| WeekCalendar.CalendarAt | backend/routes/admin_service.py:112-167 | Position k of the calendar holds week k + 1. |
| WeekCalendar.GenerateServiceWeeks | backend/routes/admin_service.py:95-177 | Generation is refused exactly when the year already has weeks. Otherwise there are 52 weeks, week k + 1 at position k, and the end date is start + 7·51 + 6. |
| WeekCalendar.CalendarShape | backend/routes/admin_service.py:112-167 | The created weeks have distinct ids ending in "-{year}". They are numbered 1..52, seven days long, contiguous, and need five staff. Consecutive numbers are exactly starts seven days apart. |
| Text.Pad2Digits | backend/routes/admin_service.py:151 | `{:02d}` of a number below 100 is its tens digit then its units digit. |

## Left out

- Persistence is not modelled. This covers:
  - database queries, commits and rollbacks;
  - `uuid` request and assignment ids;
  - `clear_existing`.
  Query results are parameters, and results are returned rather than stored.
- Query ordering is taken as given. The year's weeks arrive ordered by week number, and stored rows arrive in table order.
- The session factory of the request routes is not part of this model, so whether a query flushes the batch's pending rows is a parameter of `ServiceRequests.Submit`. With flushing, which is SQLAlchemy's default, a batch that repeats a week off counts its earlier rows toward the 17-request cap and the price (`ServiceRequests.FlushedCount`). A batch naming each week once is treated the same either way.
- The random tie-break is modelled as a draw function passed in. The contracts state only "chosen ≥ not chosen" in (score, draw) order, never a particular order.
- Priority scores use exact rationals (`real`) instead of floating point.
- Generator.GenerateSchedule: does not model `back_to_back_prevented` or `last_assigned_week`, which are diagnostics with no effect on the assignments.
- Service names outside the four services are not modelled: the enumeration rules them out, and the source's fall-through `False`/`0` answers are not kept.
- Dates are day ordinals. The month of a date, its calendar year and its `%b %d` rendering are functions passed in, so the Gregorian calendar is not modelled.
- Presentation fields of the schedule view are not modelled: names, ISO dates and the per-service lists. Only `is_complete`, `complete_weeks` and `total_assignments` are.
- Sending the confirmation email is not modelled. Only the academic year it would carry is.
- `VacationWeek` rows are modelled as the same service-week record the generator reads.
- HTTP status codes and message texts are not modelled. Errors are datatype constructors carrying their values.
- The heat map, authentication, Notion, the moonlighting optimizer and the import scripts are not part of this model.
- Pricing.SpotsRemaining: the 0..17 bound is stated for counts that are not negative. A database count never is negative.
