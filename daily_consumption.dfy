/**
 * The time-series half of `execute_core_logic`: quarter-hour quantities are
 * summed per metering point and day, every daily row of a parent metering
 * point is tagged with each of its electrical-heating children, and each
 * tagged row is matched with the value previously calculated for that child
 * and day.
 *
 * Quantities are integers in thousandths of a kWh (`Decimal(18, 3)`).
 */
module DailyConsumption {
  import opened Wrappers
  import opened Calendar
  import opened Sequences
  import opened PeriodLimits

  /** A row of the time series points (`time_series_points_v1`). */
  datatype TimeSeriesPoint = TimeSeriesPoint(
    meteringPointId: string,
    quantity: int,
    observationTime: Instant,
    meteringPointType: string)

  /** A metering point and a day: the key of the daily aggregation. */
  datatype DayKey = DayKey(meteringPointId: string, date: Instant)

  /** A row of `daily_consumption`. */
  datatype DailyRow = DailyRow(meteringPointId: string, date: Instant, quantity: int)

  /** A child id with its parent id (`unique_child_parent_metering_id`). */
  datatype ChildParentId = ChildParentId(childMeteringPointId: string, parentMeteringPointId: string)

  /** A daily row of a metering point with one of its children, or with none (the left join). */
  datatype TaggedRow = TaggedRow(meteringPointId: string, date: Instant, quantity: int, childMeteringPointId: Option<string>)

  /**
   * A row of `join_consumption_to_previously_calculated_consumption`: the
   * parent's daily quantity and the child's previously calculated quantity
   * for that day, if any. The child id is kept alongside; the rows that the
   * source selects are these rows without it.
   */
  datatype ConsumptionRow = ConsumptionRow(
    meteringPointId: string,
    date: Instant,
    quantity: int,
    childMeteringPointId: Option<string>,
    previouslyCalculatedQuantity: Option<int>)

  // ---------------------------------------------------------------------
  // Daily totals
  // ---------------------------------------------------------------------

  /** `F.date_trunc("day", observation_time)`. */
  function DateOf(p: TimeSeriesPoint): Instant {
    DateTruncDay(p.observationTime)
  }

  function KeyOf(p: TimeSeriesPoint): DayKey {
    DayKey(p.meteringPointId, DateOf(p))
  }

  function QuantityOf(p: TimeSeriesPoint): int {
    p.quantity
  }

  /** The sum of the quantities of all points of a metering point on a day. */
  function DailyTotal(points: seq<TimeSeriesPoint>, k: DayKey): int {
    GroupSum(points, KeyOf, QuantityOf, k)
  }

  /** The daily row of a key: the key's metering point and day, with a total that is not negative when no point is. */
  function DailyRowOf(points: seq<TimeSeriesPoint>, k: DayKey): (r: DailyRow)
    ensures r.meteringPointId == k.meteringPointId && r.date == k.date
    ensures (forall i :: 0 <= i < |points| ==> points[i].quantity >= 0) ==> r.quantity >= 0
  {
    if forall i :: 0 <= i < |points| ==> points[i].quantity >= 0 then
      DailyTotalNonNegative(points, k);
      DailyRow(k.meteringPointId, k.date, DailyTotal(points, k))
    else
      DailyRow(k.meteringPointId, k.date, DailyTotal(points, k))
  }

  /**
   * `daily_consumption`: every point carries the sum over its (metering
   * point, day) window, then duplicates are dropped.
   */
  function DailyConsumption(points: seq<TimeSeriesPoint>): (r: seq<DailyRow>)
    ensures Distinct(r)
  {
    Dedup(Map(points, (p: TimeSeriesPoint) => DailyRowOf(points, KeyOf(p))))
  }

  /**
   * There is exactly one daily row per metering point and day that has a
   * point, in order of first occurrence, and its quantity is the sum of
   * the quantities of that metering point's points on that day.
   */
  lemma DailyConsumptionByKey(points: seq<TimeSeriesPoint>)
    ensures DailyConsumption(points) == Map(Dedup(Map(points, KeyOf)), (k: DayKey) => DailyRowOf(points, k))
  {
    DedupByKey(points, KeyOf, (k: DayKey) => DailyRowOf(points, k), (p: TimeSeriesPoint) => DailyRowOf(points, KeyOf(p)));
  }

  /** A day key has a daily row exactly when some point has that key, and then only one. */
  lemma DailyConsumptionKeys(points: seq<TimeSeriesPoint>)
    ensures forall r :: r in DailyConsumption(points) ==>
      r.quantity == DailyTotal(points, DayKey(r.meteringPointId, r.date)) &&
      exists p :: p in points && KeyOf(p) == DayKey(r.meteringPointId, r.date)
    ensures forall p :: p in points ==> DailyRowOf(points, KeyOf(p)) in DailyConsumption(points)
    ensures forall i, j :: 0 <= i < j < |DailyConsumption(points)| ==>
      DailyConsumption(points)[i].meteringPointId != DailyConsumption(points)[j].meteringPointId ||
      DailyConsumption(points)[i].date != DailyConsumption(points)[j].date
  {
    DailyConsumptionByKey(points);
    var keys := Dedup(Map(points, KeyOf));
    var r := DailyConsumption(points);
    forall i, j | 0 <= i < j < |r|
      ensures r[i].meteringPointId != r[j].meteringPointId || r[i].date != r[j].date
    {
      assert r[i] == DailyRowOf(points, keys[i]) && r[j] == DailyRowOf(points, keys[j]);
      assert keys[i] != keys[j];
    }
  }

  /** Non-negative readings give non-negative daily totals. */
  lemma DailyTotalNonNegative(points: seq<TimeSeriesPoint>, k: DayKey)
    requires forall i :: 0 <= i < |points| ==> points[i].quantity >= 0
    ensures DailyTotal(points, k) >= 0
  {
    GroupSumNonNegative(points, KeyOf, QuantityOf, k);
  }

  function RowQuantity(r: DailyRow): int {
    r.quantity
  }

  /** Summing per day neither loses nor double-counts a quantity. */
  lemma DailyConsumptionConserves(points: seq<TimeSeriesPoint>)
    ensures Sum(DailyConsumption(points), RowQuantity) == Sum(points, QuantityOf)
  {
    DailyConsumptionByKey(points);
    var keys := Dedup(Map(points, KeyOf));
    SumOfDailyRows(points, keys);
    GroupSumsTotal(points, KeyOf, QuantityOf);
    SumCongruent(keys, (k: DayKey) => DailyTotal(points, k), (k: DayKey) => GroupSum(points, KeyOf, QuantityOf, k));
  }

  lemma {:induction false} SumOfDailyRows(points: seq<TimeSeriesPoint>, keys: seq<DayKey>)
    ensures Sum(Map(keys, (k: DayKey) => DailyRowOf(points, k)), RowQuantity) == Sum(keys, (k: DayKey) => DailyTotal(points, k))
  {
    if keys != [] {
      SumOfDailyRows(points, keys[1..]);
      assert Map(keys, (k: DayKey) => DailyRowOf(points, k))[1..] == Map(keys[1..], (k: DayKey) => DailyRowOf(points, k));
    }
  }

  // ---------------------------------------------------------------------
  // Tagging parents with their children
  // ---------------------------------------------------------------------

  function IdsOf(c: ChildPeriod): ChildParentId {
    ChildParentId(c.meteringPointId, c.parentMeteringPointId)
  }

  /** `unique_child_parent_metering_id`: each child / parent pair once. */
  function UniqueChildParentIds(children: seq<ChildPeriod>): (r: seq<ChildParentId>)
    ensures Distinct(r)
    ensures forall i :: i in r <==> exists c :: c in children && IdsOf(c) == i
  {
    Dedup(Map(children, IdsOf))
  }

  /** The left join of one daily row with the child / parent ids. */
  function TagRow(d: DailyRow, ids: seq<ChildParentId>): (r: seq<TaggedRow>)
    ensures forall t :: t in r <==>
      && t.meteringPointId == d.meteringPointId && t.date == d.date && t.quantity == d.quantity
      && match t.childMeteringPointId
         case None => forall i :: i in ids ==> i.parentMeteringPointId != d.meteringPointId
         case Some(child) => ChildParentId(child, d.meteringPointId) in ids
    ensures Distinct(ids) ==> Distinct(r)
  {
    var isChild := (i: ChildParentId) => i.parentMeteringPointId == d.meteringPointId;
    var tag := (i: ChildParentId) => TaggedRow(d.meteringPointId, d.date, d.quantity, Some(i.childMeteringPointId));
    var children := Filter(ids, isChild);
    TagRowWitness(d, ids);
    var r := if children == [] then [TaggedRow(d.meteringPointId, d.date, d.quantity, None)] else Map(children, tag);
    assert Distinct(ids) ==> Distinct(r) by {
      if Distinct(ids) && children != [] {
        FilterDistinct(ids, isChild);
        MapDistinct(children, tag);
      }
    }
    r
  }

  lemma TagRowWitness(d: DailyRow, ids: seq<ChildParentId>)
    ensures forall child :: ChildParentId(child, d.meteringPointId) in ids ==>
      ChildParentId(child, d.meteringPointId) in Filter(ids, (i: ChildParentId) => i.parentMeteringPointId == d.meteringPointId)
    ensures Filter(ids, (i: ChildParentId) => i.parentMeteringPointId == d.meteringPointId) != [] ==>
      exists i :: i in ids && i.parentMeteringPointId == d.meteringPointId
  {
    var children := Filter(ids, (i: ChildParentId) => i.parentMeteringPointId == d.meteringPointId);
    if children != [] {
      assert children[0] in children;
    }
  }

  /**
   * `join_unique_child_and_parent_id_to_consumption_daily`: a daily row of a
   * parent is repeated once per child of that parent; a daily row of any
   * other metering point is kept once, without a child.
   */
  function TagWithChildren(daily: seq<DailyRow>, ids: seq<ChildParentId>): (r: seq<TaggedRow>)
    ensures forall t :: t in r <==> exists d :: d in daily && t in TagRow(d, ids)
    ensures Distinct(daily) && Distinct(ids) ==> Distinct(r)
  {
    var tag := (d: DailyRow) => TagRow(d, ids);
    assert Distinct(daily) && Distinct(ids) ==> Distinct(FlatMap(daily, tag)) by {
      if Distinct(daily) && Distinct(ids) {
        forall i, j, t | 0 <= i < j < |daily| && t in tag(daily[i]) ensures t !in tag(daily[j]) {
          assert daily[i] != daily[j];
        }
        FlatMapDistinct(daily, tag);
      }
    }
    FlatMap(daily, tag)
  }

  /** `consumption`: the rows that were tagged with a child. */
  function Consumption(tagged: seq<TaggedRow>): (r: seq<TaggedRow>)
    ensures forall t :: t in r <==> t in tagged && t.childMeteringPointId.Some?
    ensures Distinct(tagged) ==> Distinct(r)
  {
    var isTagged := (t: TaggedRow) => t.childMeteringPointId.Some?;
    assert Distinct(tagged) ==> Distinct(Filter(tagged, isTagged)) by {
      if Distinct(tagged) {
        FilterDistinct(tagged, isTagged);
      }
    }
    Filter(tagged, isTagged)
  }

  function Untag(t: TaggedRow): DailyRow {
    DailyRow(t.meteringPointId, t.date, t.quantity)
  }

  /** `previously_calculated_consumption`: the rows of metering points that are nobody's parent. */
  function PreviouslyCalculated(tagged: seq<TaggedRow>): (r: seq<DailyRow>)
    ensures forall d :: d in r <==> exists t :: t in tagged && t.childMeteringPointId.None? && d == Untag(t)
    ensures Distinct(tagged) ==> Distinct(r)
  {
    var untagged := (t: TaggedRow) => t.childMeteringPointId.None?;
    var rows := Filter(tagged, untagged);
    assert Distinct(tagged) ==> Distinct(Map(rows, Untag)) by {
      if Distinct(tagged) {
        FilterDistinct(tagged, untagged);
        MapDistinct(rows, Untag);
      }
    }
    Map(rows, Untag)
  }

  /**
   * The daily rows of the metering points that are no child's parent are
   * exactly the previously calculated rows; the daily rows of a parent are
   * tagged once with each of its children.
   */
  lemma TaggingSplitsDaily(daily: seq<DailyRow>, ids: seq<ChildParentId>)
    ensures forall d :: d in PreviouslyCalculated(TagWithChildren(daily, ids)) <==>
      d in daily && forall i :: i in ids ==> i.parentMeteringPointId != d.meteringPointId
    ensures forall d, child :: d in daily && ChildParentId(child, d.meteringPointId) in ids ==>
      TaggedRow(d.meteringPointId, d.date, d.quantity, Some(child)) in Consumption(TagWithChildren(daily, ids))
  {
    var tagged := TagWithChildren(daily, ids);
    forall d | d in daily && (forall i :: i in ids ==> i.parentMeteringPointId != d.meteringPointId)
      ensures d in PreviouslyCalculated(tagged)
    {
      var t := TaggedRow(d.meteringPointId, d.date, d.quantity, None);
      assert t in TagRow(d, ids);
      assert Untag(t) == d;
    }
    forall d, child | d in daily && ChildParentId(child, d.meteringPointId) in ids
      ensures TaggedRow(d.meteringPointId, d.date, d.quantity, Some(child)) in Consumption(tagged)
    {
      assert TaggedRow(d.meteringPointId, d.date, d.quantity, Some(child)) in TagRow(d, ids);
    }
  }

  // ---------------------------------------------------------------------
  // Previously calculated values
  // ---------------------------------------------------------------------

  /** The left join of one tagged row with the previously calculated rows of its child on its day. */
  function JoinPreviousRow(t: TaggedRow, previous: seq<DailyRow>): (r: seq<ConsumptionRow>)
    ensures r != []
    ensures forall c :: c in r <==>
      && c.meteringPointId == t.meteringPointId && c.date == t.date && c.quantity == t.quantity
      && c.childMeteringPointId == t.childMeteringPointId
      && match c.previouslyCalculatedQuantity
         case None => forall p :: p in previous ==> !PreviousMatches(t, p)
         case Some(q) => exists p :: p in previous && PreviousMatches(t, p) && p.quantity == q
  {
    var matching := Filter(previous, (p: DailyRow) => PreviousMatches(t, p));
    NonEmptyHasMember(matching);
    if matching == [] then [ConsumptionRow(t.meteringPointId, t.date, t.quantity, t.childMeteringPointId, None)]
    else Map(matching, (p: DailyRow) => ConsumptionRow(t.meteringPointId, t.date, t.quantity, t.childMeteringPointId, Some(p.quantity)))
  }

  /** The join condition: the previous row is the child's, on the same day. */
  predicate PreviousMatches(t: TaggedRow, p: DailyRow) {
    t.childMeteringPointId == Some(p.meteringPointId) && t.date == p.date
  }

  /** `join_consumption_to_previously_calculated_consumption`. */
  function JoinPrevious(consumption: seq<TaggedRow>, previous: seq<DailyRow>): (r: seq<ConsumptionRow>)
    ensures forall c :: c in r <==> exists t :: t in consumption && c in JoinPreviousRow(t, previous)
    ensures Distinct(consumption) && Distinct(previous) && UniqueDays(previous) ==> Distinct(r)
  {
    var join := (t: TaggedRow) => JoinPreviousRow(t, previous);
    assert Distinct(consumption) && Distinct(previous) && UniqueDays(previous) ==> Distinct(FlatMap(consumption, join)) by {
      if Distinct(consumption) && Distinct(previous) && UniqueDays(previous) {
        forall i | 0 <= i < |consumption| ensures Distinct(join(consumption[i])) {
          JoinPreviousRowSingle(consumption[i], previous);
        }
        forall i, j, c | 0 <= i < j < |consumption| && c in join(consumption[i]) ensures c !in join(consumption[j]) {
          assert consumption[i] != consumption[j];
        }
        FlatMapDistinct(consumption, join);
      }
    }
    FlatMap(consumption, join)
  }

  /** Each metering point and day has at most one previously calculated row. */
  predicate UniqueDays(previous: seq<DailyRow>) {
    forall p1, p2 :: p1 in previous && p2 in previous && p1.meteringPointId == p2.meteringPointId && p1.date == p2.date ==> p1 == p2
  }

  /**
   * When each metering point has at most one previous value per day, every
   * consumption row is joined to exactly one row, which carries the child's
   * previous value for that day if there is one and nothing otherwise.
   */
  lemma JoinPreviousRowSingle(t: TaggedRow, previous: seq<DailyRow>)
    requires Distinct(previous) && UniqueDays(previous)
    ensures |JoinPreviousRow(t, previous)| == 1
    ensures JoinPreviousRow(t, previous)[0].previouslyCalculatedQuantity.None? <==>
      forall p :: p in previous ==> !PreviousMatches(t, p)
  {
    var matching := Filter(previous, (p: DailyRow) => PreviousMatches(t, p));
    FilterDistinct(previous, (p: DailyRow) => PreviousMatches(t, p));
    assert |matching| >= 2 ==> matching[0] in matching && matching[1] in matching && matching[0] == matching[1];
    NonEmptyHasMember(matching);
  }
}
