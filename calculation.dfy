/**
 * `execute_core_logic` end to end: the electrical-heating children and the
 * parent periods are turned into yearly limit rows, the parents' time series
 * into daily consumption tagged with each child, the two are joined, capped
 * and compared with what was calculated before.
 *
 * All timestamps arrive in UTC; the calculation runs on the local wall clock
 * of the given time zone and the dates it emits are converted back to UTC.
 */
module Calculation {
  import opened Wrappers
  import opened Calendar
  import opened Sequences
  import opened PysparkFunctions
  import opened PeriodLimits
  import opened DailyConsumption
  import opened Capping

  // ---------------------------------------------------------------------
  // Time-zone conversion of the input and output records
  // ---------------------------------------------------------------------

  function LocalInstant(t: Option<Instant>, tz: TimeZone): Option<Instant> {
    match t
    case None => None
    case Some(v) => Some(tz.fromUtc(v))
  }

  /** `convert_from_utc` of a child period: both of its period timestamps to local time. */
  function LocalChildPeriod(c: ChildPeriod, tz: TimeZone): ChildPeriod {
    c.(periodFrom := tz.fromUtc(c.periodFrom), periodTo := LocalInstant(c.periodTo, tz))
  }

  /** `convert_from_utc` of a parent period. */
  function LocalConsumptionPeriod(p: ConsumptionPeriod, tz: TimeZone): ConsumptionPeriod {
    p.(periodFrom := tz.fromUtc(p.periodFrom), periodTo := LocalInstant(p.periodTo, tz))
  }

  /** `convert_from_utc` of a time series point: its observation time to local time. */
  function LocalPoint(p: TimeSeriesPoint, tz: TimeZone): TimeSeriesPoint {
    p.(observationTime := tz.fromUtc(p.observationTime))
  }

  /** `convert_to_utc` of a result row: its date back to UTC. */
  function UtcMeasurement(m: Measurement, tz: TimeZone): Measurement {
    m.(date := tz.toUtc(m.date))
  }

  // ---------------------------------------------------------------------
  // The stages
  // ---------------------------------------------------------------------

  /** The electrical-heating child periods on the local clock (the filter of lines 56-59 comes first). */
  function LocalChildren(children: seq<ChildPeriod>, tz: TimeZone): (r: seq<ChildPeriod>)
    ensures forall c :: c in r <==> exists c0 :: c0 in children && c0.meteringPointType == ElectricalHeatingType && c == LocalChildPeriod(c0, tz)
  {
    Map(ElectricalHeatingChildren(children), (c: ChildPeriod) => LocalChildPeriod(c, tz))
  }

  function LocalParents(parents: seq<ConsumptionPeriod>, tz: TimeZone): (r: seq<ConsumptionPeriod>)
    ensures forall p :: p in r <==> exists p0 :: p0 in parents && p == LocalConsumptionPeriod(p0, tz)
  {
    Map(parents, (p: ConsumptionPeriod) => LocalConsumptionPeriod(p, tz))
  }

  function LocalPoints(points: seq<TimeSeriesPoint>, tz: TimeZone): (r: seq<TimeSeriesPoint>)
    ensures |r| == |points|
    ensures forall i :: 0 <= i < |points| ==> r[i] == LocalPoint(points[i], tz)
  {
    Map(points, (p: TimeSeriesPoint) => LocalPoint(p, tz))
  }

  /**
   * `join_consumption_to_previously_calculated_consumption`: the parents'
   * daily consumption, each row once per electrical-heating child, with the
   * child's previously calculated value for the day.
   */
  function ConsumptionRows(points: seq<TimeSeriesPoint>, children: seq<ChildPeriod>): seq<ConsumptionRow> {
    var tagged := TagWithChildren(DailyConsumption.DailyConsumption(points), UniqueChildParentIds(children));
    JoinPrevious(Consumption(tagged), PreviouslyCalculated(tagged))
  }

  /** The window, the capping and the comparison with the previous values. */
  function CappedMeasurements(joined: seq<JoinedRow>): seq<Measurement> {
    CompareWithPrevious(PeriodConsumptionWithLimit(PeriodConsumption(joined)))
  }

  /** `join_consumption_to_metering_points` as written, on the local clock. */
  function JoinedRowsAsWritten(
    points: seq<TimeSeriesPoint>, parents: seq<ConsumptionPeriod>, children: seq<ChildPeriod>,
    tz: TimeZone, today: Instant, yearlyLimit: int): seq<JoinedRow>
  {
    var localChildren := LocalChildren(children, tz);
    var limits := PeriodLimits.PeriodLimits(localChildren, LocalParents(parents, tz), today, yearlyLimit);
    JoinMeteringPointsAsWritten(ConsumptionRows(LocalPoints(points, tz), localChildren), limits)
  }

  /** `join_consumption_to_metering_points` on the parent id and the child id, on the local clock. */
  function JoinedRows(
    points: seq<TimeSeriesPoint>, parents: seq<ConsumptionPeriod>, children: seq<ChildPeriod>,
    tz: TimeZone, today: Instant, yearlyLimit: int): seq<JoinedRow>
  {
    var localChildren := LocalChildren(children, tz);
    var limits := PeriodLimits.PeriodLimits(localChildren, LocalParents(parents, tz), today, yearlyLimit);
    JoinMeteringPoints(ConsumptionRows(LocalPoints(points, tz), localChildren), limits)
  }

  /** The calculation on the local clock, with the join as written (parent id only). */
  function LocalMeasurementsAsWritten(
    points: seq<TimeSeriesPoint>, parents: seq<ConsumptionPeriod>, children: seq<ChildPeriod>,
    tz: TimeZone, today: Instant, yearlyLimit: int): seq<Measurement>
  {
    CappedMeasurements(JoinedRowsAsWritten(points, parents, children, tz, today, yearlyLimit))
  }

  /** The calculation on the local clock, with the join on the parent id and the child id. */
  function LocalMeasurements(
    points: seq<TimeSeriesPoint>, parents: seq<ConsumptionPeriod>, children: seq<ChildPeriod>,
    tz: TimeZone, today: Instant, yearlyLimit: int): seq<Measurement>
  {
    CappedMeasurements(JoinedRows(points, parents, children, tz, today, yearlyLimit))
  }

  /** `execute_core_logic` as written. */
  function ExecuteCoreLogicAsWritten(
    points: seq<TimeSeriesPoint>, parents: seq<ConsumptionPeriod>, children: seq<ChildPeriod>,
    tz: TimeZone, today: Instant, yearlyLimit: int): (r: seq<Measurement>)
    ensures |r| == |LocalMeasurementsAsWritten(points, parents, children, tz, today, yearlyLimit)|
  {
    Map(LocalMeasurementsAsWritten(points, parents, children, tz, today, yearlyLimit), (m: Measurement) => UtcMeasurement(m, tz))
  }

  /** `execute_core_logic` with the join corrected to match the child id as well. */
  function ExecuteCoreLogic(
    points: seq<TimeSeriesPoint>, parents: seq<ConsumptionPeriod>, children: seq<ChildPeriod>,
    tz: TimeZone, today: Instant, yearlyLimit: int): (r: seq<Measurement>)
    ensures |r| == |LocalMeasurements(points, parents, children, tz, today, yearlyLimit)|
  {
    Map(LocalMeasurements(points, parents, children, tz, today, yearlyLimit), (m: Measurement) => UtcMeasurement(m, tz))
  }

  // ---------------------------------------------------------------------
  // Where every result row comes from
  // ---------------------------------------------------------------------

  /**
   * A consumption row is a parent's daily total on a day it has readings,
   * tagged with one of that parent's children.
   */
  lemma ConsumptionRowOrigin(points: seq<TimeSeriesPoint>, children: seq<ChildPeriod>, c: ConsumptionRow)
    requires c in ConsumptionRows(points, children)
    ensures c.childMeteringPointId.Some?
    ensures exists ch :: ch in children && ch.meteringPointId == c.childMeteringPointId.value && ch.parentMeteringPointId == c.meteringPointId
    ensures c.quantity == DailyTotal(points, DayKey(c.meteringPointId, c.date))
    ensures exists p :: p in points && KeyOf(p) == DayKey(c.meteringPointId, c.date)
  {
    var daily := DailyConsumption.DailyConsumption(points);
    var ids := UniqueChildParentIds(children);
    var tagged := TagWithChildren(daily, ids);
    var t :| t in Consumption(tagged) && c in JoinPreviousRow(t, PreviouslyCalculated(tagged));
    var d :| d in daily && t in TagRow(d, ids);
    assert ChildParentId(t.childMeteringPointId.value, d.meteringPointId) in ids;
    DailyConsumptionKeys(points);
  }

  /**
   * Every emitted measurement is a joined row's child and day with the
   * capped value of that row's running sum, and that value differs from the
   * one calculated before, if any.
   */
  lemma CappedMeasurementOrigin(joined: seq<JoinedRow>, m: Measurement)
    requires m in CappedMeasurements(joined)
    ensures exists i ::
      && 0 <= i < |joined|
      && m == MeasurementOf(CapRow(WithCumulative(joined, i)))
      && joined[i].previouslyCalculatedQuantity != Some(m.quantity)
      && (joined[i].quantity >= 0 && joined[i].periodConsumptionLimit >= 0.0 ==> 0 <= m.quantity <= joined[i].quantity)
  {
    var pcs := PeriodConsumption(joined);
    var c :| c in PeriodConsumptionWithLimit(pcs) && c.previouslyCalculatedQuantity != Some(c.quantity)
      && m == Measurement(c.meteringPointId, c.date, c.quantity);
    var pc :| pc in pcs && c == CapRow(pc);
    var i :| 0 <= i < |joined| && pc == WithCumulative(joined, i);
    CapRowBounds(pc);
    assert m == MeasurementOf(CapRow(WithCumulative(joined, i)));
    assert joined[i].previouslyCalculatedQuantity != Some(m.quantity);
    assert joined[i].quantity >= 0 && joined[i].periodConsumptionLimit >= 0.0 ==> 0 <= m.quantity <= joined[i].quantity;
  }

  /** A capped row's quantity lies between nothing and the day's own quantity. */
  lemma CapRowBounds(pc: PeriodConsumptionRow)
    ensures pc.quantity >= 0 && pc.periodConsumptionLimit >= 0.0 ==> 0 <= CapRow(pc).quantity <= pc.quantity
  {
    if pc.quantity >= 0 && pc.periodConsumptionLimit >= 0.0 {
      CappedBounds(pc.cumulativeQuantity, pc.quantity, pc.periodConsumptionLimit);
    }
  }

  /**
   * The child `childId` is an electrical-heating child of the parent
   * `parentId`, and the local instant `d` lies in the overlap of one of the
   * child's periods with one of the parent's.
   */
  ghost predicate InChildOverlap(
    parents: seq<ConsumptionPeriod>, children: seq<ChildPeriod>, tz: TimeZone, today: Instant,
    childId: string, parentId: string, d: Instant)
  {
    exists c, p ::
      && c in children && p in parents
      && c.meteringPointType == ElectricalHeatingType && c.parentMeteringPointId == p.meteringPointId
      && c.meteringPointId == childId && p.meteringPointId == parentId
      && OverlapStart(LocalChildPeriod(c, tz), LocalConsumptionPeriod(p, tz)) <= d
      && d < OverlapEnd(LocalChildPeriod(c, tz), LocalConsumptionPeriod(p, tz), today)
  }

  /** Every limit row belongs to an electrical-heating child and a parent, over their overlap. */
  lemma LimitRowOrigin(
    parents: seq<ConsumptionPeriod>, children: seq<ChildPeriod>, tz: TimeZone, today: Instant, yearlyLimit: int,
    l: LimitRow, d: Instant)
    requires yearlyLimit >= 0
    requires l in PeriodLimits.PeriodLimits(LocalChildren(children, tz), LocalParents(parents, tz), today, yearlyLimit)
    requires l.period.overlapStart <= d < l.period.overlapEnd
    ensures InChildOverlap(parents, children, tz, today, l.period.childMeteringPointId, l.period.consumptionMeteringPointId, d)
    ensures l.periodConsumptionLimit >= 0.0
  {
    var localChildren := LocalChildren(children, tz);
    var localParents := LocalParents(parents, tz);
    PeriodLimitsFacts(localChildren, localParents, today, yearlyLimit, l);
    var lc, lp :|
      && lc in localChildren && lp in localParents
      && lc.meteringPointType == ElectricalHeatingType && lc.parentMeteringPointId == lp.meteringPointId
      && l.period.childMeteringPointId == lc.meteringPointId
      && l.period.consumptionMeteringPointId == lp.meteringPointId
      && l.period.overlapStart == OverlapStart(lc, lp) && l.period.overlapEnd == OverlapEnd(lc, lp, today);
    LocalPairOverlap(parents, children, tz, today, lc, lp, d);
  }

  /** A day inside the overlap of a local child period and a local parent period lies in the child's overlap. */
  lemma LocalPairOverlap(
    parents: seq<ConsumptionPeriod>, children: seq<ChildPeriod>, tz: TimeZone, today: Instant,
    lc: ChildPeriod, lp: ConsumptionPeriod, d: Instant)
    requires lc in LocalChildren(children, tz) && lp in LocalParents(parents, tz)
    requires lc.parentMeteringPointId == lp.meteringPointId
    requires OverlapStart(lc, lp) <= d < OverlapEnd(lc, lp, today)
    ensures InChildOverlap(parents, children, tz, today, lc.meteringPointId, lp.meteringPointId, d)
  {
    var c :| c in children && c.meteringPointType == ElectricalHeatingType && lc == LocalChildPeriod(c, tz);
    var p :| p in parents && lp == LocalConsumptionPeriod(p, tz);
  }

  /** Every limit row belongs to an electrical-heating child and its parent over their overlap, with a non-negative limit. */
  ghost predicate LimitsFromChildren(
    limits: seq<LimitRow>, parents: seq<ConsumptionPeriod>, children: seq<ChildPeriod>, tz: TimeZone, today: Instant)
  {
    forall l :: l in limits ==>
      && l.periodConsumptionLimit >= 0.0
      && forall d :: l.period.overlapStart <= d < l.period.overlapEnd ==>
        InChildOverlap(parents, children, tz, today, l.period.childMeteringPointId, l.period.consumptionMeteringPointId, d)
  }

  /** Every consumption row is a metering point's total on a local midnight. */
  ghost predicate DailyTotals(consumption: seq<ConsumptionRow>, points: seq<TimeSeriesPoint>) {
    forall c :: c in consumption ==>
      c.quantity == DailyTotal(points, DayKey(c.meteringPointId, c.date)) && DateTruncDay(c.date) == c.date
  }

  lemma LimitsFromChildrenHolds(
    parents: seq<ConsumptionPeriod>, children: seq<ChildPeriod>, tz: TimeZone, today: Instant, yearlyLimit: int)
    requires yearlyLimit >= 0
    ensures LimitsFromChildren(
      PeriodLimits.PeriodLimits(LocalChildren(children, tz), LocalParents(parents, tz), today, yearlyLimit),
      parents, children, tz, today)
  {
    var limits := PeriodLimits.PeriodLimits(LocalChildren(children, tz), LocalParents(parents, tz), today, yearlyLimit);
    forall l | l in limits
      ensures l.periodConsumptionLimit >= 0.0
      ensures forall d :: l.period.overlapStart <= d < l.period.overlapEnd ==>
        InChildOverlap(parents, children, tz, today, l.period.childMeteringPointId, l.period.consumptionMeteringPointId, d)
    {
      forall d | l.period.overlapStart <= d < l.period.overlapEnd
        ensures InChildOverlap(parents, children, tz, today, l.period.childMeteringPointId, l.period.consumptionMeteringPointId, d)
      {
        LimitRowOrigin(parents, children, tz, today, yearlyLimit, l, d);
      }
      PeriodLimitsFacts(LocalChildren(children, tz), LocalParents(parents, tz), today, yearlyLimit, l);
    }
  }

  lemma DailyTotalsHold(points: seq<TimeSeriesPoint>, children: seq<ChildPeriod>)
    ensures DailyTotals(ConsumptionRows(points, children), points)
  {
    forall c | c in ConsumptionRows(points, children)
      ensures c.quantity == DailyTotal(points, DayKey(c.meteringPointId, c.date)) && DateTruncDay(c.date) == c.date
    {
      ConsumptionRowOrigin(points, children, c);
      var p :| p in points && KeyOf(p) == DayKey(c.meteringPointId, c.date);
    }
  }

  /**
   * A row of either join is an electrical-heating child's row for a local
   * midnight in its overlap with its parent, carrying the parent's daily
   * total and a non-negative limit. The join as written keeps the rows of
   * the corrected one and more, so this is stated for the join as written.
   */
  lemma JoinedRowOrigin(
    consumption: seq<ConsumptionRow>, limits: seq<LimitRow>, points: seq<TimeSeriesPoint>,
    parents: seq<ConsumptionPeriod>, children: seq<ChildPeriod>, tz: TimeZone, today: Instant, j: JoinedRow)
    requires LimitsFromChildren(limits, parents, children, tz, today) && DailyTotals(consumption, points)
    requires j in JoinMeteringPointsAsWritten(consumption, limits)
    ensures exists parentId ::
      && InChildOverlap(parents, children, tz, today, j.meteringPointId, parentId, j.date)
      && j.quantity == DailyTotal(points, DayKey(parentId, j.date))
    ensures DateTruncDay(j.date) == j.date
    ensures j.periodConsumptionLimit >= 0.0
    ensures (forall i :: 0 <= i < |points| ==> points[i].quantity >= 0) ==> j.quantity >= 0
  {
    var cr, l :| cr in consumption && l in limits && MatchesAsWritten(cr, l) && j == JoinedOf(cr, l);
    assert InChildOverlap(parents, children, tz, today, j.meteringPointId, cr.meteringPointId, j.date);
    if forall i :: 0 <= i < |points| ==> points[i].quantity >= 0 {
      DailyTotalNonNegative(points, DayKey(cr.meteringPointId, j.date));
    }
  }

  /**
   * Every result of the calculation, with the join as written or with the
   * corrected join, is for an electrical-heating child on a local midnight
   * within the child's overlap with a period of its parent, converted to
   * UTC; with non-negative readings, its quantity lies between nothing and
   * the parent's consumption on that day.
   */
  lemma ExecuteCoreLogicOrigin(
    points: seq<TimeSeriesPoint>, parents: seq<ConsumptionPeriod>, children: seq<ChildPeriod>,
    tz: TimeZone, today: Instant, yearlyLimit: int, m: Measurement)
    requires yearlyLimit >= 0
    requires forall i :: 0 <= i < |points| ==> points[i].quantity >= 0
    requires m in ExecuteCoreLogic(points, parents, children, tz, today, yearlyLimit)
      || m in ExecuteCoreLogicAsWritten(points, parents, children, tz, today, yearlyLimit)
    ensures exists d, parentId ::
      && InChildOverlap(parents, children, tz, today, m.meteringPointId, parentId, d)
      && m.date == tz.toUtc(d) && DateTruncDay(d) == d
      && 0 <= m.quantity <= DailyTotal(LocalPoints(points, tz), DayKey(parentId, d))
  {
    var local :|
      && (local in LocalMeasurements(points, parents, children, tz, today, yearlyLimit)
        || local in LocalMeasurementsAsWritten(points, parents, children, tz, today, yearlyLimit))
      && m == UtcMeasurement(local, tz);
    LocalMeasurementOrigin(points, parents, children, tz, today, yearlyLimit, local);
    var parentId :|
      && InChildOverlap(parents, children, tz, today, local.meteringPointId, parentId, local.date)
      && DateTruncDay(local.date) == local.date
      && 0 <= local.quantity <= DailyTotal(LocalPoints(points, tz), DayKey(parentId, local.date));
    assert m.meteringPointId == local.meteringPointId && m.quantity == local.quantity && m.date == tz.toUtc(local.date);
    assert InChildOverlap(parents, children, tz, today, m.meteringPointId, parentId, local.date);
    assert 0 <= m.quantity <= DailyTotal(LocalPoints(points, tz), DayKey(parentId, local.date));
  }

  /** `ExecuteCoreLogicOrigin` before the conversion back to UTC. */
  lemma LocalMeasurementOrigin(
    points: seq<TimeSeriesPoint>, parents: seq<ConsumptionPeriod>, children: seq<ChildPeriod>,
    tz: TimeZone, today: Instant, yearlyLimit: int, local: Measurement)
    requires yearlyLimit >= 0
    requires forall i :: 0 <= i < |points| ==> points[i].quantity >= 0
    requires local in LocalMeasurements(points, parents, children, tz, today, yearlyLimit)
      || local in LocalMeasurementsAsWritten(points, parents, children, tz, today, yearlyLimit)
    ensures exists parentId ::
      && InChildOverlap(parents, children, tz, today, local.meteringPointId, parentId, local.date)
      && DateTruncDay(local.date) == local.date
      && 0 <= local.quantity <= DailyTotal(LocalPoints(points, tz), DayKey(parentId, local.date))
  {
    var localPoints := LocalPoints(points, tz);
    var consumption := ConsumptionRows(localPoints, LocalChildren(children, tz));
    var limits := PeriodLimits.PeriodLimits(LocalChildren(children, tz), LocalParents(parents, tz), today, yearlyLimit);
    var joined :=
      if local in LocalMeasurements(points, parents, children, tz, today, yearlyLimit)
      then JoinMeteringPoints(consumption, limits)
      else JoinMeteringPointsAsWritten(consumption, limits);
    assert local in CappedMeasurements(joined);
    LimitsFromChildrenHolds(parents, children, tz, today, yearlyLimit);
    DailyTotalsHold(localPoints, LocalChildren(children, tz));
    forall k | 0 <= k < |localPoints| ensures localPoints[k].quantity >= 0 {
      assert localPoints[k] == LocalPoint(points[k], tz);
    }
    CorrectedJoinWithinAsWritten(consumption, limits);
    MeasurementOrigin(consumption, limits, localPoints, parents, children, tz, today, joined, local);
  }

  lemma MeasurementOrigin(
    consumption: seq<ConsumptionRow>, limits: seq<LimitRow>, points: seq<TimeSeriesPoint>,
    parents: seq<ConsumptionPeriod>, children: seq<ChildPeriod>, tz: TimeZone, today: Instant,
    joined: seq<JoinedRow>, local: Measurement)
    requires LimitsFromChildren(limits, parents, children, tz, today) && DailyTotals(consumption, points)
    requires forall i :: 0 <= i < |points| ==> points[i].quantity >= 0
    requires forall j :: j in joined ==> j in JoinMeteringPointsAsWritten(consumption, limits)
    requires local in CappedMeasurements(joined)
    ensures exists parentId ::
      && InChildOverlap(parents, children, tz, today, local.meteringPointId, parentId, local.date)
      && DateTruncDay(local.date) == local.date
      && 0 <= local.quantity <= DailyTotal(points, DayKey(parentId, local.date))
  {
    CappedMeasurementOrigin(joined, local);
    var i :|
      && 0 <= i < |joined|
      && local == MeasurementOf(CapRow(WithCumulative(joined, i)))
      && (joined[i].quantity >= 0 && joined[i].periodConsumptionLimit >= 0.0 ==> 0 <= local.quantity <= joined[i].quantity);
    var j := joined[i];
    assert j in joined;
    JoinedRowOrigin(consumption, limits, points, parents, children, tz, today, j);
    var parentId :|
      && InChildOverlap(parents, children, tz, today, j.meteringPointId, parentId, j.date)
      && j.quantity == DailyTotal(points, DayKey(parentId, j.date));
    DailyTotalNonNegative(points, DayKey(parentId, j.date));
  }

  /**
   * Every daily row of a parent reaches the join once for each of the
   * parent's electrical-heating children, tagged with that child.
   */
  lemma ConsumptionRowsTagEveryChild(points: seq<TimeSeriesPoint>, children: seq<ChildPeriod>, d: DailyRow, ch: ChildPeriod)
    requires d in DailyConsumption.DailyConsumption(points)
    requires ch in children && ch.parentMeteringPointId == d.meteringPointId
    ensures exists previous :: ConsumptionRow(d.meteringPointId, d.date, d.quantity, Some(ch.meteringPointId), previous) in ConsumptionRows(points, children)
  {
    var daily := DailyConsumption.DailyConsumption(points);
    var ids := UniqueChildParentIds(children);
    var tagged := TagWithChildren(daily, ids);
    assert IdsOf(ch) in ids;
    TaggingSplitsDaily(daily, ids);
    var t := TaggedRow(d.meteringPointId, d.date, d.quantity, Some(ch.meteringPointId));
    assert t in Consumption(tagged);
    var rows := JoinPreviousRow(t, PreviouslyCalculated(tagged));
    assert rows[0] in rows;
  }

  /**
   * The consumption rows that reach the join hold each parent, child and
   * day at most once.
   */
  lemma ConsumptionRowsOnePerKey(points: seq<TimeSeriesPoint>, children: seq<ChildPeriod>)
    ensures OneConsumptionRowPerKey(ConsumptionRows(points, children))
  {
    var daily := DailyConsumption.DailyConsumption(points);
    var ids := UniqueChildParentIds(children);
    var tagged := TagWithChildren(daily, ids);
    var previous := PreviouslyCalculated(tagged);
    var consumption := ConsumptionRows(points, children);
    DailyConsumptionKeys(points);
    TaggingSplitsDaily(daily, ids);
    assert UniqueDays(previous);
    forall c1, c2 |
      && c1 in consumption && c2 in consumption
      && c1.meteringPointId == c2.meteringPointId && c1.childMeteringPointId == c2.childMeteringPointId && c1.date == c2.date
      ensures c1 == c2
    {
      ConsumptionRowOrigin(points, children, c1);
      ConsumptionRowOrigin(points, children, c2);
      var t := TaggedRow(c1.meteringPointId, c1.date, c1.quantity, c1.childMeteringPointId);
      assert c1 in JoinPreviousRow(t, previous) && c2 in JoinPreviousRow(t, previous);
      JoinPreviousRowSingle(t, previous);
    }
  }

  /** No two measurements are for the same child on the same day. */
  predicate OneMeasurementPerChildDay(ms: seq<Measurement>) {
    forall a, b :: 0 <= a < b < |ms| ==> ms[a].meteringPointId != ms[b].meteringPointId || ms[a].date != ms[b].date
  }

  /** When the joined rows hold each child and day once, so do the emitted measurements. */
  lemma CappedMeasurementsOnePerChildDay(joined: seq<JoinedRow>)
    requires OneRowPerChildDay(joined)
    ensures OneMeasurementPerChildDay(CappedMeasurements(joined))
  {
    var pcs := PeriodConsumption(joined);
    var capped := PeriodConsumptionWithLimit(pcs);
    var changed := Filter(capped, Changed);
    FilterDistinct(capped, Changed);
    forall c1, c2 | c1 in changed && c2 in changed && c1.meteringPointId == c2.meteringPointId && c1.date == c2.date
      ensures c1 == c2
    {
      var p1 :| p1 in pcs && c1 == CapRow(p1);
      var p2 :| p2 in pcs && c2 == CapRow(p2);
      var i1 :| 0 <= i1 < |joined| && p1 == WithCumulative(joined, i1);
      var i2 :| 0 <= i2 < |joined| && p2 == WithCumulative(joined, i2);
      assert joined[i1].meteringPointId == joined[i2].meteringPointId && joined[i1].date == joined[i2].date;
    }
    var ms := Map(changed, MeasurementOf);
    forall a, b | 0 <= a < b < |ms| ensures ms[a].meteringPointId != ms[b].meteringPointId || ms[a].date != ms[b].date {
      assert changed[a] in changed && changed[b] in changed && changed[a] != changed[b];
    }
  }

  /**
   * When no two periods of a child and no two periods of a parent overlap,
   * at most one limit row of a child covers any day.
   */
  lemma PeriodLimitsOnePerChildDay(children: seq<ChildPeriod>, parents: seq<ConsumptionPeriod>, today: Instant, yearlyLimit: int)
    requires ChildPeriodsDisjoint(children, today) && ParentPeriodsDisjoint(parents, today)
    ensures OneLimitRowPerChildDay(PeriodLimits.PeriodLimits(children, parents, today, yearlyLimit))
  {
    var limits := PeriodLimits.PeriodLimits(children, parents, today, yearlyLimit);
    PeriodLimitsDistinct(children, parents, today, yearlyLimit);
    forall l1, l2, d |
      && l1 in limits && l2 in limits && l1.period.childMeteringPointId == l2.period.childMeteringPointId
      && CoversDate(l1, d) && CoversDate(l2, d)
      ensures l1 == l2
    {
      CoveringLimitsMeet(l1, l2, d);
      PeriodLimitsOnePerChildYear(children, parents, today, yearlyLimit, l1, l2);
    }
  }

  /** Two limit rows covering the same day are for the same year and their overlaps intersect. */
  lemma CoveringLimitsMeet(l1: LimitRow, l2: LimitRow, d: Instant)
    requires CoversDate(l1, d) && CoversDate(l2, d)
    ensures Year(l1.period.periodYear) == Year(l2.period.periodYear)
    ensures Intersect(l1.period.overlapStart, l1.period.overlapEnd, l2.period.overlapStart, l2.period.overlapEnd)
  {
  }

  /**
   * With the corrected join, the joined rows hold each child and day at
   * most once, provided no two periods of a child and no two periods of a
   * parent overlap.
   */
  lemma JoinedRowsOnePerChildDay(
    points: seq<TimeSeriesPoint>, parents: seq<ConsumptionPeriod>, children: seq<ChildPeriod>,
    tz: TimeZone, today: Instant, yearlyLimit: int)
    requires ChildPeriodsDisjoint(LocalChildren(children, tz), today) && ParentPeriodsDisjoint(LocalParents(parents, tz), today)
    ensures OneRowPerChildDay(JoinedRows(points, parents, children, tz, today, yearlyLimit))
  {
    var consumption := ConsumptionRows(LocalPoints(points, tz), LocalChildren(children, tz));
    var limits := PeriodLimits.PeriodLimits(LocalChildren(children, tz), LocalParents(parents, tz), today, yearlyLimit);
    PeriodLimitsOnePerChildDay(LocalChildren(children, tz), LocalParents(parents, tz), today, yearlyLimit);
    ConsumptionRowsOnePerKey(LocalPoints(points, tz), LocalChildren(children, tz));
    JoinOneRowPerChildDay(consumption, limits);
  }

  /**
   * With the corrected join, the calculation emits at most one measurement
   * per child and day, provided no two periods of a child and no two
   * periods of a parent overlap.
   */
  lemma LocalMeasurementsOnePerChildDay(
    points: seq<TimeSeriesPoint>, parents: seq<ConsumptionPeriod>, children: seq<ChildPeriod>,
    tz: TimeZone, today: Instant, yearlyLimit: int)
    requires ChildPeriodsDisjoint(LocalChildren(children, tz), today) && ParentPeriodsDisjoint(LocalParents(parents, tz), today)
    ensures OneMeasurementPerChildDay(LocalMeasurements(points, parents, children, tz, today, yearlyLimit))
  {
    JoinedRowsOnePerChildDay(points, parents, children, tz, today, yearlyLimit);
    CappedMeasurementsOnePerChildDay(JoinedRows(points, parents, children, tz, today, yearlyLimit));
  }

  // ---------------------------------------------------------------------
  // The cap of each window partition
  // ---------------------------------------------------------------------

  /**
   * A joined row carries the limit of its own yearly piece: the limit is a
   * function of the partition key, so all rows of a window partition share
   * it.
   */
  lemma JoinedLimitOfPiece(consumption: seq<ConsumptionRow>, limits: seq<LimitRow>, yearlyLimit: int, j: JoinedRow)
    requires forall l :: l in limits ==>
      l.periodConsumptionLimit == PeriodConsumptionLimit(l.period.consumptionPeriodStart, l.period.consumptionPeriodEnd, yearlyLimit)
    requires j in JoinMeteringPointsAsWritten(consumption, limits)
    ensures j.periodConsumptionLimit == PeriodConsumptionLimit(j.consumptionPeriodStart, j.consumptionPeriodEnd, yearlyLimit)
  {
    var c, l :| c in consumption && l in limits && MatchesAsWritten(c, l) && j == JoinedOf(c, l);
  }

  /**
   * With the corrected join and no two periods of a child or of a parent
   * overlapping, neither `drop_duplicates` of the window and the capping
   * merges rows: the capped table has one row per joined row, and that row
   * carries `WindowCapped`, its partition's running total capped at its
   * limit.
   */
  lemma LocalCappedTable(
    points: seq<TimeSeriesPoint>, parents: seq<ConsumptionPeriod>, children: seq<ChildPeriod>,
    tz: TimeZone, today: Instant, yearlyLimit: int)
    requires ChildPeriodsDisjoint(LocalChildren(children, tz), today) && ParentPeriodsDisjoint(LocalParents(parents, tz), today)
    ensures var rows := JoinedRows(points, parents, children, tz, today, yearlyLimit);
      && |PeriodConsumptionWithLimit(PeriodConsumption(rows))| == |rows|
      && forall i :: 0 <= i < |rows| ==>
        && PeriodConsumptionWithLimit(PeriodConsumption(rows))[i].meteringPointId == rows[i].meteringPointId
        && PeriodConsumptionWithLimit(PeriodConsumption(rows))[i].date == rows[i].date
        && PeriodConsumptionWithLimit(PeriodConsumption(rows))[i].quantity == WindowCapped(rows)(rows[i])
  {
    var rows := JoinedRows(points, parents, children, tz, today, yearlyLimit);
    JoinedRowsOnePerChildDay(points, parents, children, tz, today, yearlyLimit);
    WindowKeepsEveryRow(rows);
    forall i | 0 <= i < |rows| ensures PeriodConsumptionWithLimit(PeriodConsumption(rows))[i].quantity == WindowCapped(rows)(rows[i]) {
      WindowCapsWithinPartition(rows, i);
    }
  }

  /** Every row has a non-negative quantity and the non-negative limit of its own yearly piece. */
  ghost predicate PricedRows(rows: seq<JoinedRow>, yearlyLimit: int) {
    forall x :: x in rows ==>
      && x.quantity >= 0 && x.periodConsumptionLimit >= 0.0
      && x.periodConsumptionLimit == PeriodConsumptionLimit(x.consumptionPeriodStart, x.consumptionPeriodEnd, yearlyLimit)
  }

  /**
   * With non-negative readings, every row of the join as written, and so of
   * the corrected join, has a non-negative quantity and the non-negative
   * limit of its own yearly piece.
   */
  lemma JoinPriced(
    consumption: seq<ConsumptionRow>, limits: seq<LimitRow>, points: seq<TimeSeriesPoint>,
    parents: seq<ConsumptionPeriod>, children: seq<ChildPeriod>, tz: TimeZone, today: Instant, yearlyLimit: int)
    requires LimitsFromChildren(limits, parents, children, tz, today) && DailyTotals(consumption, points)
    requires forall i :: 0 <= i < |points| ==> points[i].quantity >= 0
    requires forall l :: l in limits ==>
      l.periodConsumptionLimit == PeriodConsumptionLimit(l.period.consumptionPeriodStart, l.period.consumptionPeriodEnd, yearlyLimit)
    ensures PricedRows(JoinMeteringPointsAsWritten(consumption, limits), yearlyLimit)
    ensures PricedRows(JoinMeteringPoints(consumption, limits), yearlyLimit)
  {
    forall x | x in JoinMeteringPointsAsWritten(consumption, limits)
      ensures x.quantity >= 0 && x.periodConsumptionLimit >= 0.0
      ensures x.periodConsumptionLimit == PeriodConsumptionLimit(x.consumptionPeriodStart, x.consumptionPeriodEnd, yearlyLimit)
    {
      JoinedRowOrigin(consumption, limits, points, parents, children, tz, today, x);
      JoinedLimitOfPiece(consumption, limits, yearlyLimit, x);
    }
    CorrectedJoinWithinAsWritten(consumption, limits);
  }

  lemma JoinedRowsPriced(
    points: seq<TimeSeriesPoint>, parents: seq<ConsumptionPeriod>, children: seq<ChildPeriod>,
    tz: TimeZone, today: Instant, yearlyLimit: int)
    requires yearlyLimit >= 0
    requires forall i :: 0 <= i < |points| ==> points[i].quantity >= 0
    ensures PricedRows(JoinedRows(points, parents, children, tz, today, yearlyLimit), yearlyLimit)
  {
    var localPoints := LocalPoints(points, tz);
    var consumption := ConsumptionRows(localPoints, LocalChildren(children, tz));
    var limits := PeriodLimits.PeriodLimits(LocalChildren(children, tz), LocalParents(parents, tz), today, yearlyLimit);
    LimitsFromChildrenHolds(parents, children, tz, today, yearlyLimit);
    DailyTotalsHold(localPoints, LocalChildren(children, tz));
    forall i | 0 <= i < |localPoints| ensures localPoints[i].quantity >= 0 {
      assert localPoints[i] == LocalPoint(points[i], tz);
    }
    LimitsOfOwnPieces(LocalChildren(children, tz), LocalParents(parents, tz), today, yearlyLimit);
    JoinPriced(consumption, limits, localPoints, parents, children, tz, today, yearlyLimit);
  }

  /** On priced rows with one row per child and day, each window partition is capped as a whole. */
  lemma PricedPartitionCapping(rows: seq<JoinedRow>, yearlyLimit: int)
    requires OneRowPerChildDay(rows) && PricedRows(rows, yearlyLimit)
    ensures forall k :: k in rows ==>
      Sum(PartitionOf(rows, k), WindowCapped(rows)) == Min(Sum(PartitionOf(rows, k), JoinedQuantity), RoundHalfUp(k.periodConsumptionLimit))
  {
    WindowKeepsEveryRow(rows);
    forall k | k in rows
      ensures Sum(PartitionOf(rows, k), WindowCapped(rows)) == Min(Sum(PartitionOf(rows, k), JoinedQuantity), RoundHalfUp(k.periodConsumptionLimit))
    {
      PartitionCappingTotal(rows, k);
    }
  }

  /**
   * The cap of a yearly piece, on the calculation's own joined table: with
   * the corrected join, non-negative readings and no two periods of a child
   * or of a parent overlapping, the capped values of the rows of every window
   * partition (a child's yearly piece) add up to the smaller of the piece's
   * consumption and its rounded limit.
   */
  lemma LocalCappingTotal(
    points: seq<TimeSeriesPoint>, parents: seq<ConsumptionPeriod>, children: seq<ChildPeriod>,
    tz: TimeZone, today: Instant, yearlyLimit: int)
    requires ChildPeriodsDisjoint(LocalChildren(children, tz), today) && ParentPeriodsDisjoint(LocalParents(parents, tz), today)
    requires yearlyLimit >= 0
    requires forall i :: 0 <= i < |points| ==> points[i].quantity >= 0
    ensures var rows := JoinedRows(points, parents, children, tz, today, yearlyLimit);
      forall k :: k in rows ==>
        Sum(PartitionOf(rows, k), WindowCapped(rows)) == Min(Sum(PartitionOf(rows, k), JoinedQuantity), RoundHalfUp(k.periodConsumptionLimit))
  {
    var rows := JoinedRows(points, parents, children, tz, today, yearlyLimit);
    JoinedRowsOnePerChildDay(points, parents, children, tz, today, yearlyLimit);
    JoinedRowsPriced(points, parents, children, tz, today, yearlyLimit);
    PricedPartitionCapping(rows, yearlyLimit);
  }

  // ---------------------------------------------------------------------
  // The join on the parent id alone
  // ---------------------------------------------------------------------

  /** The example's limit row: `C1`, a child of `P`, over its first 100 days. */
  function ExampleLimit(): LimitRow {
    LimitRow(PeriodRow("C1", "P", 0, 100 * SecondsPerDay, 0, 0, 365 * SecondsPerDay, 0, 100 * SecondsPerDay), 8000.0)
  }

  /** The example's consumption row: the parent `P` on day 10, tagged with `child`. */
  function ExampleRow(child: string): ConsumptionRow {
    ConsumptionRow("P", 10 * SecondsPerDay, 5000, Some(child), None)
  }

  /**
   * Joined on the parent id alone, the parent's day tagged with `C1` and the
   * same day tagged with `C2` both meet `C1`'s limit row: `C1` gets the day
   * twice.
   */
  lemma JoinOnParentIdDoubleCounts()
    ensures var j := JoinedOf(ExampleRow("C1"), ExampleLimit());
      JoinMeteringPointsAsWritten([ExampleRow("C1"), ExampleRow("C2")], [ExampleLimit()]) == [j, j]
  {
    var c1, c2, l := ExampleRow("C1"), ExampleRow("C2"), ExampleLimit();
    ExampleCovers();
    var j := JoinedOf(c1, l);
    assert JoinedOf(c2, l) == j;
    assert [c1, c2][1..] == [c2];
    assert MatchingLimits(c1, [l], MatchesAsWritten) == [l];
    assert MatchingLimits(c2, [l], MatchesAsWritten) == [l];
    assert JoinMeteringPointsAsWritten([c1, c2], [l]) == [j] + JoinMeteringPointsAsWritten([c2], [l]);
    assert [c2][1..] == [];
    assert JoinWith([], [l], MatchesAsWritten) == [];
    assert JoinMeteringPointsAsWritten([c2], [l]) == [j];
  }

  /** Joined on both ids, `C1` gets the day once. */
  lemma JoinOnBothIdsCountsOnce()
    ensures var j := JoinedOf(ExampleRow("C1"), ExampleLimit());
      JoinMeteringPoints([ExampleRow("C1"), ExampleRow("C2")], [ExampleLimit()]) == [j]
  {
    var c1, c2, l := ExampleRow("C1"), ExampleRow("C2"), ExampleLimit();
    ExampleCovers();
    var j := JoinedOf(c1, l);
    assert [c1, c2][1..] == [c2];
    assert MatchingLimits(c1, [l], Matches) == [l];
    assert MatchingLimits(c2, [l], Matches) == [];
    assert JoinMeteringPoints([c1, c2], [l]) == [j] + JoinMeteringPoints([c2], [l]);
    assert [c2][1..] == [];
    assert JoinWith([], [l], Matches) == [];
    assert JoinMeteringPoints([c2], [l]) == [];
  }

  /** The example's limit row covers the example's day. */
  lemma ExampleCovers()
    ensures CoversDate(ExampleLimit(), ExampleRow("C1").date)
  {
    YearOfUnique(0, 1970);
    YearOfUnique(10, 1970);
  }

  /**
   * The same joined row twice, as the join on the parent id alone produces
   * it: the running sum counts the day twice, and two different capped
   * values are emitted for the one child and day. Once, as the corrected
   * join produces it, the day is emitted once with its own quantity.
   */
  lemma TwiceCountedDay(j: JoinedRow)
    requires j.quantity == 5000 && j.periodConsumptionLimit == 8000.0 && j.previouslyCalculatedQuantity == None
    ensures CappedMeasurements([j, j]) == [Measurement(j.meteringPointId, j.date, 5000), Measurement(j.meteringPointId, j.date, 3000)]
  {
    var rows := [j, j];
    RepeatedRowWindow(j);
    var p0 := WithCumulative(rows, 0);
    var p1 := WithCumulative(rows, 1);
    ExampleCaps();
    CapTwoNewRows(p0, p1);
  }

  /** The example's day capped alone (5.000 of 8.000) and after itself (10.000 of 8.000 leaves 3.000). */
  lemma ExampleCaps()
    ensures CappedQuantity(5000, 5000, 8000.0) == 5000
    ensures CappedQuantity(10000, 5000, 8000.0) == 3000
  {
    RoundInt(5000);
    RoundInt(3000);
  }

  /** Two rows that cap to different values and have no earlier value are both emitted, in order. */
  lemma CapTwoNewRows(p0: PeriodConsumptionRow, p1: PeriodConsumptionRow)
    requires CapRow(p0) != CapRow(p1)
    requires p0.previouslyCalculatedQuantity == None && p1.previouslyCalculatedQuantity == None
    ensures CompareWithPrevious(PeriodConsumptionWithLimit([p0, p1])) == [MeasurementOf(CapRow(p0)), MeasurementOf(CapRow(p1))]
  {
    var capped := [CapRow(p0), CapRow(p1)];
    assert Map([p0, p1], CapRow) == capped;
    DedupOfDistinct(capped);
    assert [CapRow(p0), CapRow(p1)][1..] == [CapRow(p1)];
    assert Filter(capped, Changed) == capped;
  }

  lemma OnceCountedDay(j: JoinedRow)
    requires j.quantity == 5000 && j.periodConsumptionLimit == 8000.0 && j.previouslyCalculatedQuantity == None
    ensures CappedMeasurements([j]) == [Measurement(j.meteringPointId, j.date, 5000)]
  {
    var one := [j];
    assert RunningSumBelow(one, 0, 1) == 5000;
    var q0 := WithCumulative(one, 0);
    var allOne := seq(|one|, (i: int) requires 0 <= i < |one| => WithCumulative(one, i));
    assert allOne == [q0];
    DedupOfDistinct(allOne);
    assert PeriodConsumption(one) == [q0];
    DedupOfDistinct([CapRow(q0)]);
    assert PeriodConsumptionWithLimit([q0]) == [CapRow(q0)];
    assert Filter([CapRow(q0)], Changed) == [CapRow(q0)];
  }

  /** The window over the same row twice: running sums of one and two days' quantity. */
  lemma RepeatedRowWindow(j: JoinedRow)
    requires j.quantity != 0
    ensures PeriodConsumption([j, j]) == [WithCumulative([j, j], 0), WithCumulative([j, j], 1)]
    ensures WithCumulative([j, j], 0).cumulativeQuantity == j.quantity
    ensures WithCumulative([j, j], 1).cumulativeQuantity == 2 * j.quantity
  {
    var rows := [j, j];
    assert RunningSumBelow(rows, 0, 1) == j.quantity;
    assert RunningSumBelow(rows, 0, 2) == j.quantity;
    assert RunningSumBelow(rows, 1, 1) == j.quantity;
    assert RunningSumBelow(rows, 1, 2) == 2 * j.quantity;
    var p0 := WithCumulative(rows, 0);
    var p1 := WithCumulative(rows, 1);
    var all := seq(|rows|, (i: int) requires 0 <= i < |rows| => WithCumulative(rows, i));
    assert all == [p0, p1];
    DedupOfDistinct(all);
  }
}
