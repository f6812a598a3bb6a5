/** Demand-based pricing of weeks off: the tiered cost of asking for a
    week off, the demand classification shown beside it, and the public
    week listing that carries both. */
module Pricing {
  import opened Records

  /** At most this many faculty may be off in one week. */
  const MAX_CAPACITY: nat := 17

  /** calculate_dynamic_cost: the stored cost plus a surcharge of 0, 5, 10,
      15 or 20 points as the week's request count passes 5, 10, 14 and 16. */
  function DynamicCost(baseCost: int, requestCount: int): (c: int)
    ensures baseCost <= c <= baseCost + 20
    ensures requestCount <= 5 ==> c == baseCost
    ensures requestCount >= MAX_CAPACITY ==> c == baseCost + 20
  {
    if requestCount <= 5 then baseCost
    else if requestCount <= 10 then baseCost + 5
    else if requestCount <= 14 then baseCost + 10
    else if requestCount <= 16 then baseCost + 15
    else baseCost + 20
  }

  /** More requests never make a week cheaper. */
  lemma DynamicCostMonotone(baseCost: int, a: int, b: int)
    requires a <= b
    ensures DynamicCost(baseCost, a) <= DynamicCost(baseCost, b)
  {
  }

  datatype DemandLevel = Low | Medium | High | Critical | Full

  /** The demand level of a week by its request count. */
  function DemandOf(requestCount: int): (d: DemandLevel)
    ensures d == Full <==> requestCount >= MAX_CAPACITY
    ensures d == Critical <==> 15 <= requestCount < MAX_CAPACITY
    ensures d == High <==> 11 <= requestCount <= 14
    ensures d == Medium <==> 6 <= requestCount <= 10
    ensures d == Low <==> requestCount <= 5
  {
    if requestCount >= MAX_CAPACITY then Full
    else if requestCount >= 15 then Critical
    else if requestCount >= 11 then High
    else if requestCount >= 6 then Medium
    else Low
  }

  /** The surcharge each demand level stands for. */
  function Surcharge(d: DemandLevel): nat
  {
    match d
    case Low => 0
    case Medium => 5
    case High => 10
    case Critical => 15
    case Full => 20
  }

  /** The cost tiers and the demand levels draw their boundaries in the same
      places: the cost is the stored cost plus the surcharge of the level. */
  lemma CostFollowsDemand(baseCost: int, requestCount: int)
    ensures DynamicCost(baseCost, requestCount) == baseCost + Surcharge(DemandOf(requestCount))
  {
  }

  /** `max(0, MAX_CAPACITY - request_count)`. */
  function SpotsRemaining(requestCount: int): (n: nat)
    ensures requestCount >= 0 ==> n <= MAX_CAPACITY
    ensures n == 0 <==> requestCount >= MAX_CAPACITY
    ensures 0 <= requestCount <= MAX_CAPACITY ==> n + requestCount == MAX_CAPACITY
  {
    if MAX_CAPACITY - requestCount > 0 then MAX_CAPACITY - requestCount else 0
  }

  predicate IsFull(requestCount: int)
  {
    requestCount >= MAX_CAPACITY
  }

  /** The three ways the listing says a week is full agree. */
  lemma FullIsNoSpots(requestCount: int)
    ensures IsFull(requestCount) <==> SpotsRemaining(requestCount) == 0
    ensures IsFull(requestCount) <==> DemandOf(requestCount) == Full
  {
  }

  /** One entry of the public week listing. */
  datatype WeekListing = WeekListing(
    id: string,
    weekNumber: int,
    weekLabel: string,
    startDate: int,
    endDate: int,
    weekType: WeekType,
    baseCost: int,
    pointCostOff: int,
    pointRewardWork: int,
    minStaffRequired: int,
    year: int,
    requestCount: nat,
    maxCapacity: nat,
    isFull: bool,
    demandLevel: DemandLevel,
    spotsRemaining: nat)

  /** The listing entry of a week with `count` requests off. */
  function ListingOf(w: ServiceWeek, count: nat): WeekListing
  {
    WeekListing(w.id, w.weekNumber, w.weekLabel, w.startDate, w.endDate, w.weekType,
                w.pointCostOff, DynamicCost(w.pointCostOff, count), w.pointRewardWork,
                w.minStaffRequired, w.year, count, MAX_CAPACITY, IsFull(count),
                DemandOf(count), SpotsRemaining(count))
  }

  /** get_service_weeks: one entry per week, in the order given (the year's
      weeks by week number), priced by that week's "unavailable" requests.
      The stored cost stays visible as the base cost, the shown cost is the
      base plus the demand surcharge, and a week is shown full exactly when
      no spot is left. */
  method ListServiceWeeks(weeks: seq<ServiceWeek>, requests: seq<UnavailabilityRequest>)
    returns (result: seq<WeekListing>)
    ensures |result| == |weeks|
    ensures forall i :: 0 <= i < |weeks| ==> result[i] == ListingOf(weeks[i], UnavailableCount(requests, weeks[i].id))
    ensures forall i :: 0 <= i < |weeks| ==>
      && result[i].id == weeks[i].id
      && result[i].baseCost == weeks[i].pointCostOff
      && result[i].pointCostOff == weeks[i].pointCostOff + Surcharge(result[i].demandLevel)
      && (result[i].isFull <==> result[i].spotsRemaining == 0)
      && (result[i].requestCount == 0 <==>
            forall j :: 0 <= j < |requests| ==> !(requests[j].weekId == weeks[i].id && requests[j].status == UNAVAILABLE))
  {
    result := [];
    for i := 0 to |weeks|
      invariant |result| == i
      invariant forall k :: 0 <= k < i ==> result[k] == ListingOf(weeks[k], UnavailableCount(requests, weeks[k].id))
    {
      var count := UnavailableCount(requests, weeks[i].id);
      result := result + [ListingOf(weeks[i], count)];
    }
    forall i | 0 <= i < |weeks|
      ensures result[i].pointCostOff == weeks[i].pointCostOff + Surcharge(result[i].demandLevel)
    {
      CostFollowsDemand(weeks[i].pointCostOff, UnavailableCount(requests, weeks[i].id));
    }
  }
}
