/**
 * The metering-point half of `execute_core_logic`: every electrical-heating
 * child period is paired with the consumption period of its parent, the
 * overlap of the two is computed, the parent period is split into calendar
 * years and clipped to each, and every yearly piece gets its pro-rata share
 * of the yearly consumption limit.
 *
 * Tables are sequences of rows; the order of rows carries no meaning.
 * Instants are on the local wall clock (the inputs have been converted from
 * UTC before this point). `today` stands for `F.current_date()`.
 */
module PeriodLimits {
  import opened Wrappers
  import opened Calendar
  import opened Sequences
  import opened PysparkFunctions

  /** The metering point type that marks a child as electrical heating. */
  const ElectricalHeatingType: string := "electrical_heating"

  /** A row of the child metering point periods. */
  datatype ChildPeriod = ChildPeriod(
    meteringPointId: string,
    meteringPointType: string,
    parentMeteringPointId: string,
    periodFrom: Instant,
    periodTo: Option<Instant>)

  /** A row of the consumption (parent) metering point periods. */
  datatype ConsumptionPeriod = ConsumptionPeriod(
    meteringPointId: string,
    periodFrom: Instant,
    periodTo: Option<Instant>)

  /**
   * A child period paired with its parent period for one calendar year.
   * Right after the pairing the consumption period is the whole parent
   * period; after `ClipToYear` it is the part of it inside `periodYear`.
   */
  datatype PeriodRow = PeriodRow(
    childMeteringPointId: string,
    consumptionMeteringPointId: string,
    overlapStart: Instant,
    overlapEnd: Instant,
    periodYear: Instant,
    consumptionPeriodStart: Instant,
    consumptionPeriodEnd: Instant,
    childPeriodStart: Instant,
    childPeriodEnd: Instant)

  /** A yearly piece with its share of the yearly limit, in thousandths of a kWh. */
  datatype LimitRow = LimitRow(period: PeriodRow, periodConsumptionLimit: real)

  // ---------------------------------------------------------------------
  // Electrical-heating children
  // ---------------------------------------------------------------------

  predicate IsElectricalHeating(c: ChildPeriod) {
    c.meteringPointType == ElectricalHeatingType
  }

  /** Only the electrical-heating children take part; all others are dropped. */
  function ElectricalHeatingChildren(children: seq<ChildPeriod>): (r: seq<ChildPeriod>)
    ensures forall c :: c in r <==> c in children && c.meteringPointType == ElectricalHeatingType
  {
    Filter(children, IsElectricalHeating)
  }

  // ---------------------------------------------------------------------
  // Pairing and overlap
  // ---------------------------------------------------------------------

  /** `begining_of_year(F.current_date(), years_to_add=1)`: what a missing period end is read as. */
  function OpenEnd(today: Instant): (r: Instant)
    ensures IsYearStart(r) && Year(r) == Year(today) + 1
    ensures today < r
  {
    YearContains(today);
    YearStartFacts(Year(today) + 1);
    BeginningOfYear(Some(today), 1).value
  }

  /** `F.coalesce(period_to_date, begining_of_year(F.current_date(), years_to_add=1))`. */
  function PeriodEnd(periodTo: Option<Instant>, today: Instant): (r: Instant)
    ensures periodTo.Some? ==> r == periodTo.value
    ensures periodTo.None? ==> IsYearStart(r) && Year(r) == Year(today) + 1 && today < r
  {
    match periodTo
    case Some(t) => t
    case None => OpenEnd(today)
  }

  /** The later of the two period starts. */
  function OverlapStart(c: ChildPeriod, p: ConsumptionPeriod): (r: Instant)
    ensures c.periodFrom <= r && p.periodFrom <= r
    ensures r == c.periodFrom || r == p.periodFrom
  {
    Max(c.periodFrom, p.periodFrom)
  }

  /** The earlier of the two period ends, a missing end read as the open end. */
  function OverlapEnd(c: ChildPeriod, p: ConsumptionPeriod, today: Instant): (r: Instant)
    ensures r <= PeriodEnd(c.periodTo, today) && r <= PeriodEnd(p.periodTo, today)
    ensures r == PeriodEnd(c.periodTo, today) || r == PeriodEnd(p.periodTo, today)
  {
    Min(PeriodEnd(c.periodTo, today), PeriodEnd(p.periodTo, today))
  }

  /** The two periods share at least one instant. */
  predicate Overlaps(c: ChildPeriod, p: ConsumptionPeriod, today: Instant) {
    OverlapStart(c, p) < OverlapEnd(c, p, today)
  }

  /** The overlap is exactly the intersection of the two half-open periods. */
  lemma OverlapIsIntersection(c: ChildPeriod, p: ConsumptionPeriod, today: Instant, t: Instant)
    ensures OverlapStart(c, p) <= t < OverlapEnd(c, p, today) <==>
      && c.periodFrom <= t < PeriodEnd(c.periodTo, today)
      && p.periodFrom <= t < PeriodEnd(p.periodTo, today)
  {
  }

  /** 1 January of every year from `first` to `last`, in order. */
  function YearStarts(first: int, last: int): (r: seq<Instant>)
    ensures forall t :: t in r <==> IsYearStart(t) && first <= Year(t) <= last
    ensures Distinct(r)
    decreases last - first
  {
    if first > last then []
    else
      var rest := YearStarts(first + 1, last);
      YearStartFacts(first);
      DistinctAppend([YearStart(first)], rest);
      [YearStart(first)] + rest
  }

  /**
   * `F.sequence(start, stop, INTERVAL 1 YEAR)` for a `start` at 1 January
   * 00:00: every 1 January from `start` up to and including `stop`. Spark
   * refuses a `start` after `stop`.
   */
  function YearlySequence(start: Instant, stop: Instant): (r: Option<seq<Instant>>)
    requires IsYearStart(start)
    ensures r.None? <==> start > stop
    ensures r.Some? ==> forall t :: t in r.value <==> IsYearStart(t) && start <= t <= stop
    ensures r.Some? ==> Distinct(r.value)
  {
    if start > stop then None
    else
      YearlySequenceBounds(start, stop);
      Some(YearStarts(Year(start), Year(stop)))
  }

  lemma YearlySequenceBounds(start: Instant, stop: Instant)
    requires IsYearStart(start) && start <= stop
    ensures forall t :: IsYearStart(t) ==> (start <= t <= stop <==> Year(start) <= Year(t) <= Year(stop))
  {
    forall t | IsYearStart(t) ensures start <= t <= stop <==> Year(start) <= Year(t) <= Year(stop) {
      if start <= t { YearMonotone(start, t); }
      if t <= stop { YearMonotone(t, stop); }
      if Year(start) <= Year(t) { YearStartMonotone(Year(start), Year(t)); }
      if Year(t) <= Year(stop) {
        YearStartMonotone(Year(t), Year(stop));
        YearContains(stop);
      }
    }
  }

  /** The first year of the explode: `begining_of_year(parent.period_from_date)`. */
  function SequenceStart(p: ConsumptionPeriod): (r: Instant)
    ensures IsYearStart(r) && Year(r) == Year(p.periodFrom) && r <= p.periodFrom
  {
    BeginningOfYear(Some(p.periodFrom), 0).value
  }

  /** The last year of the explode: `coalesce(begining_of_year(parent.period_to_date), begining_of_year(today, 1))`. */
  function SequenceStop(p: ConsumptionPeriod, today: Instant): (r: Instant)
    ensures IsYearStart(r) && Year(r) == Year(PeriodEnd(p.periodTo, today)) && r <= PeriodEnd(p.periodTo, today)
  {
    match p.periodTo
    case Some(t) => BeginningOfYear(Some(t), 0).value
    case None => OpenEnd(today)
  }

  /** For a pair that overlaps, the years of the explode are in order, so Spark accepts them. */
  lemma SequenceLegal(c: ChildPeriod, p: ConsumptionPeriod, today: Instant)
    requires Overlaps(c, p, today)
    ensures SequenceStart(p) <= SequenceStop(p, today)
  {
    YearMonotone(p.periodFrom, PeriodEnd(p.periodTo, today));
    YearStartMonotone(Year(p.periodFrom), Year(PeriodEnd(p.periodTo, today)));
    YearStartFacts(Year(p.periodFrom));
    YearStartFacts(Year(PeriodEnd(p.periodTo, today)));
  }

  /**
   * The rows of `join_child_to_parent_metering_point` for one child period
   * and one parent period: nothing when the two do not overlap, otherwise
   * one row per calendar year of the parent period, from the year of its
   * start to the year of its end (next year's 1 January when it is open),
   * each row carrying the overlap and both periods.
   */
  function PairRows(c: ChildPeriod, p: ConsumptionPeriod, today: Instant): (r: seq<PeriodRow>)
    ensures r != [] <==> Overlaps(c, p, today)
    ensures forall row :: row in r ==>
      && row.childMeteringPointId == c.meteringPointId
      && row.consumptionMeteringPointId == c.parentMeteringPointId
      && row.overlapStart == OverlapStart(c, p)
      && row.overlapEnd == OverlapEnd(c, p, today)
      && row.consumptionPeriodStart == p.periodFrom
      && row.consumptionPeriodEnd == PeriodEnd(p.periodTo, today)
      && row.childPeriodStart == c.periodFrom
      && row.childPeriodEnd == PeriodEnd(c.periodTo, today)
    ensures forall t :: (exists row :: row in r && row.periodYear == t) <==>
      (Overlaps(c, p, today) && IsYearStart(t) && Year(p.periodFrom) <= Year(t) <= Year(PeriodEnd(p.periodTo, today)))
    ensures Distinct(r)
  {
    if !Overlaps(c, p, today) then []
    else
      SequenceLegal(c, p, today);
      var years := YearlySequence(SequenceStart(p), SequenceStop(p, today)).value;
      YearlySequenceBounds(SequenceStart(p), SequenceStop(p, today));
      assert SequenceStart(p) in years;
      var rowOf := (y: Instant) => PeriodRow(
        c.meteringPointId, c.parentMeteringPointId,
        OverlapStart(c, p), OverlapEnd(c, p, today),
        y,
        p.periodFrom, PeriodEnd(p.periodTo, today),
        c.periodFrom, PeriodEnd(c.periodTo, today));
      MapDistinct(years, rowOf);
      Map(years, rowOf)
  }

  /** Two half-open periods share an instant. */
  predicate Intersect(from1: Instant, end1: Instant, from2: Instant, end2: Instant) {
    Max(from1, from2) < Min(end1, end2)
  }

  /**
   * No electrical-heating child period is listed twice, and two different
   * periods of one child share no instant.
   */
  predicate ChildPeriodsDisjoint(children: seq<ChildPeriod>, today: Instant) {
    && Distinct(children)
    && forall c1, c2 ::
      && c1 in children && c2 in children && IsElectricalHeating(c1) && IsElectricalHeating(c2)
      && c1.meteringPointId == c2.meteringPointId
      && Intersect(c1.periodFrom, PeriodEnd(c1.periodTo, today), c2.periodFrom, PeriodEnd(c2.periodTo, today))
      ==> c1 == c2
  }

  /** No parent period is listed twice, and two different periods of one parent share no instant. */
  predicate ParentPeriodsDisjoint(parents: seq<ConsumptionPeriod>, today: Instant) {
    && Distinct(parents)
    && forall p1, p2 ::
      && p1 in parents && p2 in parents && p1.meteringPointId == p2.meteringPointId
      && Intersect(p1.periodFrom, PeriodEnd(p1.periodTo, today), p2.periodFrom, PeriodEnd(p2.periodTo, today))
      ==> p1 == p2
  }

  /** Pairs every electrical-heating child period with every period of its parent. */
  function ChildParentPairs(children: seq<ChildPeriod>, parents: seq<ConsumptionPeriod>, today: Instant): (r: seq<PeriodRow>)
    ensures forall row :: row in r <==> exists c, p ::
      && c in children && p in parents
      && c.meteringPointType == ElectricalHeatingType && c.parentMeteringPointId == p.meteringPointId
      && row in PairRows(c, p, today)
    ensures ChildPeriodsDisjoint(children, today) && ParentPeriodsDisjoint(parents, today) ==> Distinct(r)
  {
    var rowsOf := (c: ChildPeriod) => ParentRows(c, parents, today);
    var eh := ElectricalHeatingChildren(children);
    assert ChildPeriodsDisjoint(children, today) && ParentPeriodsDisjoint(parents, today) ==> Distinct(FlatMap(eh, rowsOf)) by {
      if ChildPeriodsDisjoint(children, today) && ParentPeriodsDisjoint(parents, today) {
        FilterDistinct(children, IsElectricalHeating);
        forall i, j, row | 0 <= i < j < |eh| && row in rowsOf(eh[i]) ensures row !in rowsOf(eh[j]) {
          RowDeterminesChild(children, parents, today, eh[i], eh[j], row);
        }
        FlatMapDistinct(eh, rowsOf);
      }
    }
    FlatMap(eh, rowsOf)
  }

  function ParentRows(c: ChildPeriod, parents: seq<ConsumptionPeriod>, today: Instant): (r: seq<PeriodRow>)
    ensures forall row :: row in r <==> exists p :: p in parents && c.parentMeteringPointId == p.meteringPointId && row in PairRows(c, p, today)
    ensures ParentPeriodsDisjoint(parents, today) ==> Distinct(r)
  {
    var ofParent := (p: ConsumptionPeriod) => p.meteringPointId == c.parentMeteringPointId;
    var pairRows := (p: ConsumptionPeriod) => PairRows(c, p, today);
    var ps := Filter(parents, ofParent);
    assert ParentPeriodsDisjoint(parents, today) ==> Distinct(FlatMap(ps, pairRows)) by {
      if ParentPeriodsDisjoint(parents, today) {
        FilterDistinct(parents, ofParent);
        forall i, j, row | 0 <= i < j < |ps| && row in pairRows(ps[i]) ensures row !in pairRows(ps[j]) {
          RowDeterminesParent(parents, today, c, ps[i], ps[j], row);
        }
        FlatMapDistinct(ps, pairRows);
      }
    }
    FlatMap(ps, pairRows)
  }

  /** Under disjoint parent periods, a row of the pairing comes from one parent period only. */
  lemma RowDeterminesParent(parents: seq<ConsumptionPeriod>, today: Instant, c: ChildPeriod, p1: ConsumptionPeriod, p2: ConsumptionPeriod, row: PeriodRow)
    requires ParentPeriodsDisjoint(parents, today)
    requires p1 in parents && p2 in parents
    requires p1.meteringPointId == c.parentMeteringPointId && p2.meteringPointId == c.parentMeteringPointId
    requires row in PairRows(c, p1, today)
    ensures row in PairRows(c, p2, today) ==> p1 == p2
  {
    if row in PairRows(c, p2, today) {
      SharedInstant(c, p1, c, p2, today, row.overlapStart);
    }
  }

  /** Under disjoint child periods, a row of the pairing comes from one child period only. */
  lemma RowDeterminesChild(children: seq<ChildPeriod>, parents: seq<ConsumptionPeriod>, today: Instant, c1: ChildPeriod, c2: ChildPeriod, row: PeriodRow)
    requires ChildPeriodsDisjoint(children, today)
    requires c1 in children && c2 in children && IsElectricalHeating(c1) && IsElectricalHeating(c2)
    requires row in ParentRows(c1, parents, today)
    ensures row in ParentRows(c2, parents, today) ==> c1 == c2
  {
    if row in ParentRows(c2, parents, today) {
      var p1 :| p1 in parents && row in PairRows(c1, p1, today);
      var p2 :| p2 in parents && row in PairRows(c2, p2, today);
      SharedInstant(c1, p1, c2, p2, today, row.overlapStart);
    }
  }

  /**
   * When a row comes from two child / parent pairs, the two child periods
   * share an instant and so do the two parent periods.
   */
  lemma SharedInstant(c1: ChildPeriod, p1: ConsumptionPeriod, c2: ChildPeriod, p2: ConsumptionPeriod, today: Instant, t: Instant)
    requires OverlapStart(c1, p1) <= t < OverlapEnd(c1, p1, today)
    requires OverlapStart(c2, p2) <= t < OverlapEnd(c2, p2, today)
    ensures Intersect(c1.periodFrom, PeriodEnd(c1.periodTo, today), c2.periodFrom, PeriodEnd(c2.periodTo, today))
    ensures Intersect(p1.periodFrom, PeriodEnd(p1.periodTo, today), p2.periodFrom, PeriodEnd(p2.periodTo, today))
  {
    OverlapIsIntersection(c1, p1, today, t);
    OverlapIsIntersection(c2, p2, today, t);
  }

  // ---------------------------------------------------------------------
  // Splitting by year
  // ---------------------------------------------------------------------

  /**
   * `split_consumption_period_by_year` for one row: the consumption start is
   * kept when it lies in the row's year and otherwise becomes 1 January of
   * that year; the consumption end is kept when it lies in the row's year
   * and otherwise becomes 1 January of the following year.
   */
  function ClipToYear(row: PeriodRow): (r: PeriodRow)
    ensures r.(consumptionPeriodStart := row.consumptionPeriodStart, consumptionPeriodEnd := row.consumptionPeriodEnd) == row
    ensures IsYearStart(row.periodYear) ==> Year(r.consumptionPeriodStart) == Year(row.periodYear)
  {
    var y := Year(row.periodYear);
    var start := if Year(row.consumptionPeriodStart) == y then row.consumptionPeriodStart
      else BeginningOfYear(Some(row.periodYear), 0).value;
    var end := if Year(row.consumptionPeriodEnd) == y then row.consumptionPeriodEnd
      else BeginningOfYear(Some(row.periodYear), 1).value;
    row.(consumptionPeriodStart := start, consumptionPeriodEnd := end)
  }

  /**
   * For a year between the years of the consumption start and end, the
   * clipped piece is the intersection of the consumption period with that
   * calendar year, and it starts in that year.
   */
  lemma ClipIsIntersection(row: PeriodRow)
    requires IsYearStart(row.periodYear)
    requires row.consumptionPeriodStart <= row.consumptionPeriodEnd
    requires Year(row.consumptionPeriodStart) <= Year(row.periodYear) <= Year(row.consumptionPeriodEnd)
    ensures var y := Year(row.periodYear);
      && ClipToYear(row).consumptionPeriodStart == Max(row.consumptionPeriodStart, YearStart(y))
      && ClipToYear(row).consumptionPeriodEnd == Min(row.consumptionPeriodEnd, YearStart(y + 1))
      && YearStart(y) <= ClipToYear(row).consumptionPeriodStart <= ClipToYear(row).consumptionPeriodEnd <= YearStart(y + 1)
      && Year(ClipToYear(row).consumptionPeriodStart) == y
  {
    var y := Year(row.periodYear);
    ClipStart(row.consumptionPeriodStart, row.periodYear);
    ClipEnd(row.consumptionPeriodEnd, row.periodYear);
    YearContains(row.consumptionPeriodStart);
    YearContains(row.consumptionPeriodEnd);
    YearStartFacts(y);
    YearStartFacts(y + 1);
  }

  /** The clipped start is the later of the start and 1 January of the row's year. */
  lemma ClipStart(start: Instant, periodYear: Instant)
    requires IsYearStart(periodYear) && Year(start) <= Year(periodYear)
    ensures var clipped := if Year(start) == Year(periodYear) then start else BeginningOfYear(Some(periodYear), 0).value;
      clipped == Max(start, periodYear) && Year(clipped) == Year(periodYear)
  {
    YearContains(start);
    if Year(start) < Year(periodYear) {
      YearStartMonotone(Year(start) + 1, Year(periodYear));
    }
  }

  /** The clipped end is the earlier of the end and 1 January of the year after the row's year. */
  lemma ClipEnd(end: Instant, periodYear: Instant)
    requires IsYearStart(periodYear) && Year(periodYear) <= Year(end)
    ensures var clipped := if Year(end) == Year(periodYear) then end else BeginningOfYear(Some(periodYear), 1).value;
      clipped == Min(end, YearStart(Year(periodYear) + 1))
  {
    var y := Year(periodYear);
    YearContains(end);
    YearStartFacts(y + 1);
    if y < Year(end) {
      YearStartMonotone(y + 1, Year(end));
    }
  }

  // ---------------------------------------------------------------------
  // Pro-rata limit
  // ---------------------------------------------------------------------

  /**
   * `datediff(end, start) * ELECTRICAL_HEATING_LIMIT_YEARLY / days_in_year(start)`,
   * with the yearly limit in thousandths of a kWh and the quotient exact.
   */
  function PeriodConsumptionLimit(start: Instant, end: Instant, yearlyLimit: int): (r: real)
    ensures start <= end && yearlyLimit >= 0 ==> r >= 0.0
  {
    if start <= end then
      DayNumberMonotone(start, end);
      ProRata(DateDiff(end, start), yearlyLimit, DaysInYearOf(start))
    else
      ProRata(DateDiff(end, start), yearlyLimit, DaysInYearOf(start))
  }

  /** `days` days' share of a yearly amount over a year of `daysInYear` days. */
  function ProRata(days: int, yearly: int, daysInYear: int): real
    requires daysInYear > 0
  {
    (days as real) * (yearly as real) / (daysInYear as real)
  }

  lemma ProRataWhole(days: int, yearly: int)
    requires days > 0
    ensures ProRata(days, yearly, days) == yearly as real
  {
    var n := days as real;
    var l := yearly as real;
    assert n * l / n == l;
  }

  lemma ProRataMonotone(d1: int, d2: int, yearly: int, daysInYear: int)
    requires d1 <= d2 && yearly >= 0 && daysInYear > 0
    ensures ProRata(d1, yearly, daysInYear) <= ProRata(d2, yearly, daysInYear)
  {
    var l := yearly as real;
    var n := daysInYear as real;
    assert (d1 as real) * l <= (d2 as real) * l;
  }

  /** The limit grows with the length of the piece. */
  lemma LimitMonotone(start: Instant, end1: Instant, end2: Instant, yearlyLimit: int)
    requires end1 <= end2 && yearlyLimit >= 0
    ensures PeriodConsumptionLimit(start, end1, yearlyLimit) <= PeriodConsumptionLimit(start, end2, yearlyLimit)
  {
    DayNumberMonotone(end1, end2);
    ProRataMonotone(DateDiff(end1, start), DateDiff(end2, start), yearlyLimit, DaysInYearOf(start));
  }

  /** A piece that covers a whole calendar year gets exactly the yearly limit. */
  lemma FullYearLimit(y: int, yearlyLimit: int)
    ensures PeriodConsumptionLimit(YearStart(y), YearStart(y + 1), yearlyLimit) == yearlyLimit as real
  {
    YearLength(y);
    YearStartFacts(y);
    ProRataWhole(DaysInYear(y), yearlyLimit);
  }

  /** A piece inside one calendar year gets between nothing and the yearly limit. */
  lemma LimitBounds(y: int, start: Instant, end: Instant, yearlyLimit: int)
    requires YearStart(y) <= start <= end <= YearStart(y + 1) && Year(start) == y
    requires yearlyLimit >= 0
    ensures 0.0 <= PeriodConsumptionLimit(start, end, yearlyLimit) <= yearlyLimit as real
  {
    DayNumberMonotone(start, end);
    DayNumberMonotone(end, YearStart(y + 1));
    DayNumberMonotone(YearStart(y), start);
    YearLength(y);
    var n := DaysInYear(y);
    assert 0 <= DateDiff(end, start) <= n;
    ProRataMonotone(0, DateDiff(end, start), yearlyLimit, n);
    ProRataMonotone(DateDiff(end, start), n, yearlyLimit, n);
    ProRataWhole(n, yearlyLimit);
  }

  /** `calculate_period_consumption_limit` for one paired row. */
  function LimitOf(row: PeriodRow, yearlyLimit: int): (r: LimitRow)
    ensures r.period == ClipToYear(row)
  {
    var clipped := ClipToYear(row);
    LimitRow(clipped, PeriodConsumptionLimit(clipped.consumptionPeriodStart, clipped.consumptionPeriodEnd, yearlyLimit))
  }

  /**
   * `calculate_period_consumption_limit`: every yearly piece of every
   * overlapping electrical-heating child / parent pair, clipped to its year,
   * with its share of the yearly limit.
   */
  function PeriodLimits(children: seq<ChildPeriod>, parents: seq<ConsumptionPeriod>, today: Instant, yearlyLimit: int): (r: seq<LimitRow>)
    ensures forall l :: l in r <==> exists row :: row in ChildParentPairs(children, parents, today) && l == LimitOf(row, yearlyLimit)
  {
    Map(ChildParentPairs(children, parents, today), (row: PeriodRow) => LimitOf(row, yearlyLimit))
  }

  /** Every limit row carries the share of the yearly limit of its own clipped piece. */
  lemma LimitsOfOwnPieces(children: seq<ChildPeriod>, parents: seq<ConsumptionPeriod>, today: Instant, yearlyLimit: int)
    ensures forall l :: l in PeriodLimits(children, parents, today, yearlyLimit) ==>
      l.periodConsumptionLimit == PeriodConsumptionLimit(l.period.consumptionPeriodStart, l.period.consumptionPeriodEnd, yearlyLimit)
  {
    forall l | l in PeriodLimits(children, parents, today, yearlyLimit)
      ensures l.periodConsumptionLimit == PeriodConsumptionLimit(l.period.consumptionPeriodStart, l.period.consumptionPeriodEnd, yearlyLimit)
    {
      var row :| row in ChildParentPairs(children, parents, today) && l == LimitOf(row, yearlyLimit);
    }
  }

  /** What every yearly piece satisfies. */
  predicate WellFormedLimitRow(l: LimitRow, yearlyLimit: int) {
    var row := l.period;
    var y := Year(row.periodYear);
    && row.overlapStart < row.overlapEnd
    && IsYearStart(row.periodYear)
    && YearStart(y) <= row.consumptionPeriodStart <= row.consumptionPeriodEnd <= YearStart(y + 1)
    && Year(row.consumptionPeriodStart) == y
    && 0.0 <= l.periodConsumptionLimit <= yearlyLimit as real
  }

  /**
   * Every limit row comes from an electrical-heating child that overlaps a
   * period of its parent; its consumption period is the parent period
   * clipped to a calendar year, and its limit lies between zero and the
   * yearly limit.
   */
  lemma PeriodLimitsFacts(children: seq<ChildPeriod>, parents: seq<ConsumptionPeriod>, today: Instant, yearlyLimit: int, l: LimitRow)
    requires yearlyLimit >= 0
    requires l in PeriodLimits(children, parents, today, yearlyLimit)
    ensures WellFormedLimitRow(l, yearlyLimit)
    ensures exists c, p ::
      && c in children && p in parents
      && c.meteringPointType == ElectricalHeatingType && c.parentMeteringPointId == p.meteringPointId
      && Overlaps(c, p, today)
      && l.period.childMeteringPointId == c.meteringPointId
      && l.period.consumptionMeteringPointId == p.meteringPointId
      && l.period.overlapStart == OverlapStart(c, p) && l.period.overlapEnd == OverlapEnd(c, p, today)
  {
    var row :| row in ChildParentPairs(children, parents, today) && l == LimitOf(row, yearlyLimit);
    var c, p :| c in children && p in parents && c.meteringPointType == ElectricalHeatingType &&
      c.parentMeteringPointId == p.meteringPointId && row in PairRows(c, p, today);
    PairLimitFacts(c, p, today, yearlyLimit, row);
  }

  lemma PairLimitFacts(c: ChildPeriod, p: ConsumptionPeriod, today: Instant, yearlyLimit: int, row: PeriodRow)
    requires yearlyLimit >= 0
    requires row in PairRows(c, p, today)
    ensures WellFormedLimitRow(LimitOf(row, yearlyLimit), yearlyLimit)
    ensures Overlaps(c, p, today)
  {
    assert row.periodYear in Map(PairRows(c, p, today), (r: PeriodRow) => r.periodYear);
    assert IsYearStart(row.periodYear) && Year(p.periodFrom) <= Year(row.periodYear) <= Year(PeriodEnd(p.periodTo, today));
    LimitOfYearPiece(row, yearlyLimit);
  }

  /** A paired row whose year lies within its consumption period gives a well-formed limit row. */
  lemma LimitOfYearPiece(row: PeriodRow, yearlyLimit: int)
    requires yearlyLimit >= 0
    requires row.overlapStart < row.overlapEnd
    requires IsYearStart(row.periodYear) && row.consumptionPeriodStart <= row.consumptionPeriodEnd
    requires Year(row.consumptionPeriodStart) <= Year(row.periodYear) <= Year(row.consumptionPeriodEnd)
    ensures WellFormedLimitRow(LimitOf(row, yearlyLimit), yearlyLimit)
  {
    ClipIsIntersection(row);
    var clipped := ClipToYear(row);
    LimitBounds(Year(row.periodYear), clipped.consumptionPeriodStart, clipped.consumptionPeriodEnd, yearlyLimit);
  }

  /**
   * With disjoint child periods and disjoint parent periods, a child has at
   * most one paired row per year covering any instant: the source relies on
   * a child period overlapping at most one period of its parent.
   */
  lemma PairRowPerChildYearInstant(children: seq<ChildPeriod>, parents: seq<ConsumptionPeriod>, today: Instant, r1: PeriodRow, r2: PeriodRow, t: Instant)
    requires ChildPeriodsDisjoint(children, today) && ParentPeriodsDisjoint(parents, today)
    requires r1 in ChildParentPairs(children, parents, today) && r2 in ChildParentPairs(children, parents, today)
    requires r1.childMeteringPointId == r2.childMeteringPointId && Year(r1.periodYear) == Year(r2.periodYear)
    requires r1.overlapStart <= t < r1.overlapEnd && r2.overlapStart <= t < r2.overlapEnd
    ensures r1 == r2
  {
    var c1, p1 :| c1 in children && p1 in parents && c1.meteringPointType == ElectricalHeatingType &&
      c1.parentMeteringPointId == p1.meteringPointId && r1 in PairRows(c1, p1, today);
    var c2, p2 :| c2 in children && p2 in parents && c2.meteringPointType == ElectricalHeatingType &&
      c2.parentMeteringPointId == p2.meteringPointId && r2 in PairRows(c2, p2, today);
    SharedInstant(c1, p1, c2, p2, today, t);
    assert c1 == c2;
    assert p1 == p2;
    assert IsYearStart(r1.periodYear) && IsYearStart(r2.periodYear);
  }

  /** With disjoint child and parent periods no limit row is produced twice. */
  lemma PeriodLimitsDistinct(children: seq<ChildPeriod>, parents: seq<ConsumptionPeriod>, today: Instant, yearlyLimit: int)
    requires ChildPeriodsDisjoint(children, today) && ParentPeriodsDisjoint(parents, today)
    ensures Distinct(PeriodLimits(children, parents, today, yearlyLimit))
  {
    var pairs := ChildParentPairs(children, parents, today);
    var limitOf := (row: PeriodRow) => LimitOf(row, yearlyLimit);
    forall r1, r2 | r1 in pairs && r2 in pairs && limitOf(r1) == limitOf(r2) ensures r1 == r2 {
      var c, p :| c in children && p in parents && c.meteringPointType == ElectricalHeatingType &&
        c.parentMeteringPointId == p.meteringPointId && r1 in PairRows(c, p, today);
      PairLimitFacts(c, p, today, 0, r1);
      PairRowPerChildYearInstant(children, parents, today, r1, r2, r1.overlapStart);
    }
    MapDistinct(pairs, limitOf);
  }

  /**
   * With disjoint child and parent periods, two limit rows of one child for
   * one year whose overlaps intersect are the same row.
   */
  lemma PeriodLimitsOnePerChildYear(children: seq<ChildPeriod>, parents: seq<ConsumptionPeriod>, today: Instant, yearlyLimit: int, l1: LimitRow, l2: LimitRow)
    requires ChildPeriodsDisjoint(children, today) && ParentPeriodsDisjoint(parents, today)
    requires l1 in PeriodLimits(children, parents, today, yearlyLimit) && l2 in PeriodLimits(children, parents, today, yearlyLimit)
    requires l1.period.childMeteringPointId == l2.period.childMeteringPointId
    requires Year(l1.period.periodYear) == Year(l2.period.periodYear)
    requires Intersect(l1.period.overlapStart, l1.period.overlapEnd, l2.period.overlapStart, l2.period.overlapEnd)
    ensures l1 == l2
  {
    var r1 := LimitRowOrigin(children, parents, today, yearlyLimit, l1);
    var r2 := LimitRowOrigin(children, parents, today, yearlyLimit, l2);
    PairRowsOnePerChildYear(children, parents, today, r1, r2);
    assert l1 == LimitOf(r1, yearlyLimit);
  }

  /** The paired row a limit row was computed from; clipping to the year changes only the consumption period bounds. */
  lemma LimitRowOrigin(children: seq<ChildPeriod>, parents: seq<ConsumptionPeriod>, today: Instant, yearlyLimit: int, l: LimitRow)
    returns (row: PeriodRow)
    requires l in PeriodLimits(children, parents, today, yearlyLimit)
    ensures row in ChildParentPairs(children, parents, today) && l == LimitOf(row, yearlyLimit)
    ensures l.period.childMeteringPointId == row.childMeteringPointId
    ensures l.period.overlapStart == row.overlapStart && l.period.overlapEnd == row.overlapEnd
    ensures l.period.periodYear == row.periodYear
  {
    row :| row in ChildParentPairs(children, parents, today) && l == LimitOf(row, yearlyLimit);
  }

  lemma PairRowsOnePerChildYear(children: seq<ChildPeriod>, parents: seq<ConsumptionPeriod>, today: Instant, r1: PeriodRow, r2: PeriodRow)
    requires ChildPeriodsDisjoint(children, today) && ParentPeriodsDisjoint(parents, today)
    requires r1 in ChildParentPairs(children, parents, today) && r2 in ChildParentPairs(children, parents, today)
    requires r1.childMeteringPointId == r2.childMeteringPointId && Year(r1.periodYear) == Year(r2.periodYear)
    requires Intersect(r1.overlapStart, r1.overlapEnd, r2.overlapStart, r2.overlapEnd)
    ensures r1 == r2
  {
    PairRowPerChildYearInstant(children, parents, today, r1, r2, Max(r1.overlapStart, r2.overlapStart));
  }
}
